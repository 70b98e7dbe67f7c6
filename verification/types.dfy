/** Shared value types of the resume screener: optional values, the tagged
    result of an external call, raw bytes, and the two records that travel
    through the pipeline (the parsed sections and the per-file entry that
    ingestion builds and the store persists). */
module Types {

  /** Python's `None`-or-value. */
  datatype Option<+T> = None | Some(value: T) {
    function GetOr(default: T): T {
      match this
      case Some(v) => v
      case None => default
    }
  }

  /** Outcome of a call into a service the model cannot see. */
  datatype Result<+R, +E> = Ok(value: R) | Err(error: E)

  /** One byte of an uploaded file. */
  newtype Byte = x: int | 0 <= x < 256

  /** The three fields `parse_resume_sections` returns. */
  datatype ParsedSections = ParsedSections(skills: string, experience: string, education: string)

  /** The per-file dictionary built during ingestion: `ID` (the file name),
      `Resume_str`, `email`, `parsed_data`, `file_bytes` and `fit_score`. */
  datatype Entry = Entry(
    id: string,
    text: string,
    email: string,
    parsed: ParsedSections,
    bytes: seq<Byte>,
    fitScore: Option<real>)
}
