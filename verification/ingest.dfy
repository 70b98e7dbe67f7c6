/** `process_uploaded_files`: turns the uploaded files into entries and
    upserts each kept one into the store. Byte decoding, PDF extraction and
    the email regex are uninterpreted functions in `Readers`. */
module Ingest {
  import opened Types
  import opened Text
  import opened Seqs
  import opened Sections
  import opened Store

  /** An uploaded file; `name` is `None` when the object has no `name`
      attribute, and its `size` is the length of its bytes. */
  datatype Upload = Upload(name: Option<string>, content: seq<Byte>)

  datatype Kind = PlainText | Pdf

  /** The extraction steps the model does not look inside.
      - `decodeUtf8`: `bytes.decode("utf-8", errors="ignore")`.
      - `pdfText`: `extract_text_from_pdf` (both PDF back ends and the
        "No content" fallback).
      - `firstEmail`: the first match of the email pattern, if any. */
  datatype Readers = Readers(
    decodeUtf8: seq<Byte> -> string,
    pdfText: seq<Byte> -> string,
    firstEmail: string -> Option<string>,
    sections: Extractors)

  const NoContent: string := "No content"
  const NoEmail: string := "No email found"

  /** The format a file name selects, compared case-insensitively; `.txt`
      is checked first. */
  function KindOf(name: string): (k: Option<Kind>)
    ensures k == Some(PlainText) <==> EndsWith(Lower(name), ".txt")
    ensures k == Some(Pdf) <==> EndsWith(Lower(name), ".pdf")
    ensures k.None? <==> !EndsWith(Lower(name), ".txt") && !EndsWith(Lower(name), ".pdf")
  {
    var n := Lower(name);
    if EndsWith(n, ".txt") then
      assert n[|n| - 1] == 't';
      Some(PlainText)
    else if EndsWith(n, ".pdf") then Some(Pdf)
    else None
  }

  /** The guards of the ingestion loop: a present upload with a name, a
      non-zero size and a `.txt` or `.pdf` extension. */
  predicate Accepted(u: Option<Upload>) {
    && u.Some?
    && u.value.name.Some?
    && |u.value.content| != 0
    && KindOf(u.value.name.value).Some?
  }

  /** The text of a kept file: decoded and stripped plain text, or
      "No content" when that is blank; for a PDF, whatever the PDF extractor
      returns. */
  function ExtractText(rd: Readers, u: Upload, kind: Kind): (r: string)
    ensures kind == PlainText ==> r != ""
    ensures kind == PlainText && AllSpace(rd.decodeUtf8(u.content)) ==> r == NoContent
    ensures kind == PlainText && !AllSpace(rd.decodeUtf8(u.content)) ==> r == Strip(rd.decodeUtf8(u.content))
    ensures kind == Pdf ==> r == rd.pdfText(u.content)
  {
    match kind
    case PlainText => OrDefault(Strip(rd.decodeUtf8(u.content)), NoContent)
    case Pdf => rd.pdfText(u.content)
  }

  /** `extract_email`: a blank text has no email; otherwise the first match,
      or the sentinel. */
  function ExtractEmail(rd: Readers, text: string): (r: string)
    ensures AllSpace(text) ==> r == NoEmail
    ensures !AllSpace(text) && rd.firstEmail(text).None? ==> r == NoEmail
    ensures !AllSpace(text) && rd.firstEmail(text).Some? ==> r == rd.firstEmail(text).value
  {
    if Strip(text) == "" then NoEmail else rd.firstEmail(text).GetOr(NoEmail)
  }

  /** The entry the loop builds for a kept upload; its score starts null. */
  function MakeEntry(rd: Readers, u: Option<Upload>): (e: Entry)
    requires Accepted(u)
    ensures e.id == u.value.name.value && e.bytes == u.value.content && e.fitScore.None?
    ensures e.text == ExtractText(rd, u.value, KindOf(e.id).value)
    ensures e.email == ExtractEmail(rd, e.text)
    ensures e.parsed == ParseResumeSections(rd.sections, e.text)
  {
    var name := u.value.name.value;
    var text := ExtractText(rd, u.value, KindOf(name).value);
    Entry(name, text, ExtractEmail(rd, text), ParseResumeSections(rd.sections, text), u.value.content, None)
  }

  /** The guarded `UPDATE ... SET fit_score` inside the loop: it runs only
      for an entry that already carries a score. */
  function ApplyPendingScore(db: Db, e: Entry): (r: Db)
    ensures e.fitScore.None? ==> r == db
  {
    match e.fitScore
    case None => db
    case Some(s) => SetFitScore(db, e.id, s)
  }

  /** The entries ingestion produces: one per accepted upload, in upload
      order. */
  function IngestEntries(rd: Readers, uploads: seq<Option<Upload>>): (r: seq<Entry>)
    ensures |r| == |Filter(uploads, Accepted)|
    ensures forall i :: 0 <= i < |r| ==> r[i] == MakeEntry(rd, Filter(uploads, Accepted)[i])
  {
    FilterMap(uploads, Accepted, EntryMaker(rd))
  }

  function EntryMaker(rd: Readers): Option<Upload> --> Entry {
    u requires Accepted(u) => MakeEntry(rd, u)
  }

  /** One more upload extends the ingested entries by its entry when it is
      accepted. */
  lemma IngestStep(rd: Readers, uploads: seq<Option<Upload>>, i: nat)
    requires i < |uploads|
    ensures IngestEntries(rd, uploads[..i + 1]) ==
      IngestEntries(rd, uploads[..i]) + (if Accepted(uploads[i]) then [MakeEntry(rd, uploads[i])] else [])
  {
    assert uploads[..i + 1] == uploads[..i] + [uploads[i]];
    FilterMapSnoc(uploads[..i], uploads[i], Accepted, EntryMaker(rd));
  }

  /** `process_uploaded_files`: skips rejected uploads, builds an entry for
      each kept one in order, runs the guarded score update and upserts the
      entry. */
  method ProcessUploadedFiles(rd: Readers, uploads: seq<Option<Upload>>, db0: Db)
    returns (docs: seq<Entry>, db: Db)
    ensures docs == IngestEntries(rd, uploads)
    ensures db == SaveAll(db0, docs)
  {
    docs := [];
    db := db0;
    var i := 0;
    while i < |uploads|
      invariant 0 <= i <= |uploads|
      invariant docs == IngestEntries(rd, uploads[..i])
      invariant db == SaveAll(db0, docs)
    {
      var u := uploads[i];
      IngestStep(rd, uploads, i);
      if u.Some? && u.value.name.Some? && |u.value.content| != 0 {
        if KindOf(u.value.name.value).Some? {
          var entry := MakeEntry(rd, u);
          SaveAllSnoc(db0, docs, entry);
          docs := docs + [entry];
          db := ApplyPendingScore(db, entry);
          db := SaveParsedResume(db, entry);
        }
      }
      i := i + 1;
    }
    assert uploads[..i] == uploads;
  }

  /** Every ingested entry is unscored, and after ingestion every kept
      filename is stored with a null `fit_score`. */
  lemma IngestedUnscored(rd: Readers, uploads: seq<Option<Upload>>, db: Db)
    requires db.table.Some?
    ensures var docs := IngestEntries(rd, uploads);
      && (forall i :: 0 <= i < |docs| ==> docs[i].fitScore.None?)
      && forall i :: 0 <= i < |docs| ==>
           var rows := SaveAll(db, docs).table.value.rows;
           docs[i].id in rows && rows[docs[i].id].fitScore.None?
  {
    var docs := IngestEntries(rd, uploads);
    SaveAllUnscored(db, docs);
  }

  /** A kept entry names an accepted upload, keeps its bytes, and a plain
      text entry's text is never empty. */
  lemma IngestedEntryShape(rd: Readers, uploads: seq<Option<Upload>>, i: nat)
    requires i < |IngestEntries(rd, uploads)|
    ensures var e := IngestEntries(rd, uploads)[i];
      && KindOf(e.id).Some?
      && |e.bytes| > 0
      && (KindOf(e.id) == Some(PlainText) ==> e.text != "")
  {
    var u := Filter(uploads, Accepted)[i];
    assert u in Filter(uploads, Accepted);
  }

  /** A filename that no accepted upload carries keeps its stored row
      through ingestion. */
  lemma IngestLeavesOthers(rd: Readers, uploads: seq<Option<Upload>>, db: Db, k: string)
    requires db.table.Some?
    requires forall u :: u in uploads && Accepted(u) ==> u.value.name.value != k
    ensures var db' := SaveAll(db, IngestEntries(rd, uploads));
      && (k in db'.table.value.rows <==> k in db.table.value.rows)
      && (k in db.table.value.rows ==> db'.table.value.rows[k] == db.table.value.rows[k])
  {
    var docs := IngestEntries(rd, uploads);
    forall i | 0 <= i < |docs| ensures docs[i].id != k {
      var u := Filter(uploads, Accepted)[i];
      assert u in Filter(uploads, Accepted);
      FilterMembership(uploads, Accepted, u);
    }
    SaveAllOthersUntouched(db, docs, k);
  }

  /** No kept upload means nothing is written. */
  lemma NothingKeptNothingWritten(rd: Readers, uploads: seq<Option<Upload>>, db: Db)
    requires forall u :: u in uploads ==> !Accepted(u)
    ensures IngestEntries(rd, uploads) == []
    ensures SaveAll(db, IngestEntries(rd, uploads)) == db
  {
    FilterEmptyIff(uploads, Accepted);
  }
}
