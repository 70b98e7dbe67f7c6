# Resume ranking pipeline — a Dafny model

This project models the control logic of the resume-ranking pipeline in
`utils.py` and proves properties of it. Machine learning, PDF parsing, the
OpenAI service and SQLite are treated as opaque inputs. The modelled parts are:

- **Resume store** (`store.dfy`, module `Store`). The `parsed_resumes` table is
  a map from filename to row, plus the upload order, newest first.
  `INSERT OR REPLACE` is an upsert keyed by filename. `get_all_parsed_resumes`
  lists the rows newest first. `get_resume_bytes_from_db` is a lookup. A
  connection whose table does not exist yet ignores writes and reads back empty.
- **Ingestion** (`ingest.dfy`, module `Ingest`). `process_uploaded_files`:
  - it drops missing, nameless and empty uploads, and every name not ending
    in `.txt` or `.pdf` (ASCII case-insensitive);
  - it builds one entry per kept file, in upload order, with a null score;
  - it upserts each entry as it goes.
- **Section assembly** (`sections.dfy`, module `Sections`).
  `parse_resume_sections` tries the headings in a fixed order for each field,
  then maps empty results and the `"Not Found"` sentinel to `"Not specified"`.
- **Keyword filter** (`keywords.dfy`, module `Keywords`). `filter_resumes`
  lower-cases the resume text and keeps a resume when it contains any stripped,
  lower-cased, comma-separated keyword (OR semantics).
- **LLM scorer guard** (`llm.dfy`, module `Llm`).
  `get_llm_score_and_justification` returns `(0.0, "OpenAI API key not provided.")`
  without a key. It returns `(0.0, "LLM API call failed: …")` on any failure of
  the call, and otherwise the reply's fields with their defaults.
- **Ranking orchestration** (`ranking.dfy`, module `Ranking`). `rank_resumes`:
  - it checks its error outcomes in a fixed order;
  - it takes a `head(min(top_n, n))` shortlist by descending similarity;
  - for each candidate it reads details from the *first* ingested entry with
    that filename (`iloc[0]`);
  - it decides between the LLM verdict and the similarity fallback;
  - it sorts the rows by `rating_10`, highest first.

Shared helpers:

- `types.dfy` (module `Types`): `Option`, `Result`, bytes and the ingested entry.
- `text.dfy` (module `Text`): Python string operations (`strip`, `lower`,
  `split`, `join`, `in`, `startswith`/`endswith`, `re.sub('[\r\n]+', …)`).
- `seqs.dfy` (module `Seqs`): the DataFrame operations (mask selection,
  `sort_values(ascending=False)`, `head(n)` including pandas' negative `n`).

These stay uninterpreted, as function-valued fields of the records `Readers`,
`Extractors` and `Scorers`:

- UTF-8 decoding, PDF text extraction and the email regex;
- `extract_section_text` and the education, experience and sub-header regexes;
- `clean_text`, SBERT cosine similarity and TF-IDF key matches;
- the chat-completion call and the rating formula `1 + round(sim * 9, 1)`.

Behaviour of `utils.py` worth knowing:

- `rank_resumes` never writes `rating_10`/`fit_score` back to the store. The
  `UPDATE … SET fit_score` inside ingestion runs only for an entry that already
  has a score, and every entry is built with a null one. After a ranking run,
  every ingested filename therefore reads back with a null score
  (`Ranking.RankResumes`).
- An empty job description is not an error. It is replaced by `"No content"`
  (`Ranking.JobText`).
- A missing API key does not fail the request. Each candidate is rated `0.0`
  with the missing-key message, and no fallback happens (`Ranking.RankMissingKey`).
- A JSON reply without `fit_score` or `justification` is not a failure. The
  defaults `0.0` and `"Could not parse justification from LLM response."` are
  used, so a reply lacking a score (or scoring 0.0) whose justification
  mentions "LLM API call failed" does trigger the fallback (`Llm.FailureIff`).
- A cosine similarity can be negative, so no range is claimed for it or for
  the rating.

## Model

| member | source | states |
|---|---|---|
| Store.InitDb | utils.py:21-41 | creating the table leaves an existing table untouched and otherwise yields an empty one |
| Store.InitDbIdempotent | utils.py:26 | `CREATE TABLE IF NOT EXISTS` run twice is run once |
| Store.Upsert | utils.py:47-59 | the filename maps to the new row, every other filename keeps its row (present or absent), the row becomes the newest, and the other filenames follow in their previous order |
| Store.UpsertIdempotent | utils.py:47-59 | upserting the same row twice gives the same table as once |
| Store.SaveParsedResume | utils.py:43-62 | after saving an entry the store holds exactly its row under its filename, with the entry's fields; other filenames are untouched; without a table nothing changes |
| Store.SaveIdempotent | utils.py:43-62 | saving the same entry twice leaves the same store as saving it once |
| Store.SetFitScore | utils.py:455-459 | the UPDATE sets the score of the named row when it is present, leaves every other row as it was, never adds a row and never reorders |
| Store.GetAllParsedResumes | utils.py:64-83 | no table reads back as an empty list; otherwise the rows newest first |
| Store.ListingIsTable | utils.py:72-80 | the listing has one element per stored row, with no filename twice, each as stored, and misses none |
| Store.SavedRowListedFirst | utils.py:73-75 | the row saved last is listed first |
| Store.GetResumeBytes | utils.py:85-98 | bytes are returned exactly when the filename is stored, and are that row's bytes |
| Store.SaveThenGetBytes | utils.py:85-98 | the bytes just saved for a filename are the bytes read back |
| Store.SaveAll | utils.py:426-461 | saving a batch in order creates no table and keeps the store unchanged when there is none; the per-filename outcome is in the next two rows |
| Store.SaveAllLatestWins | utils.py:451-461 | after a batch of saves each saved filename is stored, with the row of the last entry carrying it |
| Store.SaveAllOthersUntouched | utils.py:451-461 | a batch of saves leaves filenames it does not carry exactly as they were |
| Store.SaveAllUnscored | utils.py:448-461 | saving only unscored entries leaves every saved filename with a null score |
| Text.Strip | utils.py:436 | `strip` yields the part of the input between its leading and its trailing whitespace: unpadded at both ends, and empty exactly when the input is all whitespace |
| Text.StripIdempotent | utils.py:436 | stripping twice is stripping once |
| Text.Lower | utils.py:435-437 | lower-casing keeps the length, turns each upper-case ASCII letter into its lower-case letter (code point + 32) and keeps every other character |
| Text.Split | utils.py:303 | `split(sep)` always yields at least one piece; `Text.JoinSplit` and `Text.SplitPiecesFree` pin the pieces down |
| Text.Join | utils.py:223-224 | `sep.join(parts)` puts `sep` between consecutive parts; `Text.JoinSplit` and `Text.JoinEmptyIff` relate it to `Split` and to emptiness |
| Text.JoinSplit | utils.py:303 | joining the pieces of `split(sep)` with `sep` restores the string |
| Text.SplitPiecesFree | utils.py:303 | no piece of `split(sep)` contains `sep` |
| Text.SplitTrailingSeparator | utils.py:303 | a string ending in the separator splits with an empty last piece |
| Text.JoinEmptyIff | utils.py:222-224 | a join with a non-empty separator is empty exactly when there are no parts or a single empty one |
| Text.ReplaceChar | utils.py:394 | `replace('_', ' ')` keeps the length, turns every `_` into a space, keeps every other character, and leaves no `_` |
| Text.Contains | utils.py:390 | `sub in s`: some suffix of `s` starts with `sub`; `Text.ContainsPrefix`, `Text.ContainsEmpty` and `Text.ContainsFirstChar` are the facts used about it |
| Text.CollapseLineBreaks | utils.py:218 | `re.sub('[\r\n]+', rep, s)` replaces each maximal run of line breaks by one `rep`; see the next two rows |
| Text.CollapseRemovesLineBreaks | utils.py:218 | `re.sub('[\r\n]+', rep)` with a line-break-free replacement leaves no line break |
| Text.CollapseIdentity | utils.py:218 | the substitution leaves a line-break-free string unchanged |
| Seqs.Filter | utils.py:306 | mask selection keeps, in order, exactly the elements satisfying the mask |
| Seqs.FilterCounts | utils.py:306 | mask selection keeps every copy of a satisfying element and no copy of any other |
| Seqs.FilterEmptyIff | utils.py:304-306 | the selection is empty exactly when no element satisfies the mask |
| Seqs.SortDesc | utils.py:376 | `sort_values(ascending=False)` returns a permutation that is non-increasing by the key |
| Seqs.Head | utils.py:376 | `head(n)` is a prefix of length `min(n, len)`, or `len + n` (at least 0) for negative `n` |
| Seqs.TopOfSorted | utils.py:376 | a prefix of the descending sort is a sub-multiset whose every element outranks every copy left out |
| Sections.FirstFound | utils.py:189-212 | trying headings in order yields the section of the first heading found, and "Not Found" exactly when none is |
| Sections.EducationHeadingOrder | utils.py:189-191 | education comes from EDUCATION when found, else from ACADEMIC QUALIFICATIONS |
| Sections.ExperienceHeadingOrder | utils.py:198-203 | experience tries PROFESSIONAL EXPERIENCE, then WORK EXPERIENCE, then EXPERIENCE |
| Sections.SkillsHeadingOrder | utils.py:210-212 | skills come from SKILLS when found, else from TECHNICAL SKILLS |
| Sections.StripNonEmpty | utils.py:195 | the stripped, non-blank mentions are non-empty and vanish exactly when every mention is blank |
| Sections.StripNonEmptyIsFilter | utils.py:195 | the conditional comprehension equals stripping every mention and then keeping, in order, the non-empty results |
| Sections.StripAll | utils.py:206 | every mention is stripped, in place |
| Sections.ParseResumeSections | utils.py:180-226 | every output field is non-empty, and skills is never the "Not Found" sentinel |
| Sections.EducationField | utils.py:223 | education is "Not specified" exactly when no non-blank degree mention exists, otherwise the mentions joined by " \| " |
| Sections.ExperienceField | utils.py:224 | experience is "Not specified" for no role mention or a single blank one, otherwise the mentions joined by " \| " |
| Sections.SkillsNotFoundIsNotSpecified | utils.py:210-225 | when neither skills heading is found the field is "Not specified" |
| Sections.SkillsSingleLine | utils.py:219-225 | the flattened skills never contain a line break |
| Ingest.KindOf | utils.py:435-440 | `.txt` is chosen exactly for names ending in `.txt` case-insensitively, `.pdf` likewise, and nothing otherwise |
| Ingest.ExtractText | utils.py:435-438 | a plain-text file's text is its stripped decoding, or "No content" when that is blank (so never empty); a PDF's text is the extractor's output |
| Ingest.ExtractEmail | utils.py:134-139 | a blank text has no email; otherwise the first match, or the sentinel when there is none |
| Ingest.Accepted | utils.py:427-440 | the ingestion guards: a present upload with a name, a non-zero size and a `.txt` or `.pdf` name; `Ingest.IngestEntries` and `Ingest.NothingKeptNothingWritten` state what it selects |
| Ingest.MakeEntry | utils.py:442-452 | a kept file's entry carries its name, its extracted text, the email found in that text, the parsed sections of that text, its bytes and a null score |
| Ingest.ApplyPendingScore | utils.py:455-460 | the guarded UPDATE is a no-op for an unscored entry |
| Ingest.IngestEntries | utils.py:424-450 | ingestion yields one entry per accepted upload, in upload order |
| Ingest.ProcessUploadedFiles | utils.py:420-467 | the loop returns exactly the entries of the accepted uploads and leaves the store as saving them in order |
| Ingest.IngestedUnscored | utils.py:448-461 | every ingested entry is unscored and every kept filename is stored with a null score |
| Ingest.IngestedEntryShape | utils.py:426-435 | every kept entry has a `.txt`/`.pdf` name and non-empty bytes, and a plain-text entry has non-empty text |
| Ingest.IngestLeavesOthers | utils.py:461 | filenames no accepted upload carries keep their stored rows |
| Ingest.NothingKeptNothingWritten | utils.py:424-467 | with no acceptable upload nothing is ingested and the store is unchanged |
| Keywords.KeywordList | utils.py:303 | one keyword per comma-separated piece, stripped and lower-cased |
| Keywords.FilterResumes | utils.py:299-310 | a non-string or blank keyword value passes the list through; otherwise an order-preserving sublist holding exactly the resumes whose lower-cased text contains some keyword |
| Keywords.FilterKeepsCopies | utils.py:306 | every copy of a matching resume survives and no copy of any other |
| Keywords.BlankKeywordMatchesAll | utils.py:303-306 | a keyword that strips to nothing keeps every resume |
| Keywords.TrailingCommaKeepsAll | utils.py:303-306 | a keyword string ending in a comma keeps every resume |
| Keywords.FilterEmptyWhenNoMatch | utils.py:304-307 | the filter returns nothing exactly when no resume contains any keyword |
| Llm.LlmScore | utils.py:229-266 | no key gives `(0.0, "OpenAI API key not provided.")`; a failed call gives 0.0 and the failure text; a reply gives its fields with their defaults |
| Llm.IsLlmFailure | utils.py:390 | the fallback test: a 0.0 score whose justification contains "LLM API call failed"; `Llm.FailureIff` states when it holds |
| Llm.MissingKeyNoFallback | utils.py:233-234 | the missing-key result is not recognised as a failed call |
| Llm.CallErrorIsFailure | utils.py:265-266 | every failed call is recognised as a failure |
| Llm.FailureIff | utils.py:229-266 | the failure test holds exactly when a key was given and the call failed, or replied with a zero or missing score and a justification containing the failure text |
| Ranking.JobText | utils.py:356 | a blank job description is cleaned as "No content", any other is stripped and cleaned |
| Ranking.EmbedInput | utils.py:271 | a blank text is embedded as "No content" (uncleaned), any other text after cleaning |
| Ranking.Similarity | utils.py:369-370 | a resume's similarity compares its embedding input with the job's; every blank resume gets the score of "No content" |
| Ranking.Scored | utils.py:368-371 | each filtered resume is paired, in order, with its similarity to the job |
| Ranking.Shortlist | utils.py:364-376 | the shortlist has `min(top_n, n)` candidates, or `n + top_n` (at least 0) for negative `top_n` |
| Ranking.ShortlistIsTop | utils.py:376 | the shortlist is drawn from the filtered resumes, highest similarity first, and outranks every copy left out |
| Ranking.ShortlistFromFiltered | utils.py:368-376 | every shortlisted candidate is a filtered resume with its own similarity |
| Ranking.FirstWithId | utils.py:379 | the lookup finds the first entry with the filename, and nothing exactly when no entry has it |
| Ranking.Origin | utils.py:379-381 | a candidate's details come from the first ingested entry with its filename |
| Ranking.Rate | utils.py:385-398 | without the LLM, or when the LLM verdict is a recognised failure, the similarity rating with the key-terms text (prefixed by the fallback notice in the latter case); otherwise the LLM verdict unchanged |
| Ranking.RowFor | utils.py:378-411 | a row carries the candidate's id, similarity and email, the origin's sections and key matches, the rating decision for the origin's text, and a fit score equal to the rating |
| Ranking.OutcomesDistinguishable | utils.py:348-418 | the returned pair carries a message exactly on error, a null frame only for the first two errors, and differs for every outcome |
| Ranking.Finish | utils.py:413-417 | no rows is the "no candidates" error; otherwise the rows permuted into descending rating order |
| Ranking.ShortlistRows | utils.py:378-411 | one row per shortlisted candidate, in shortlist order |
| Ranking.Rank | utils.py:345-418 | errors come in precedence order (no entries, then no keyword match, then an empty shortlist), and a ranked result has exactly the shortlist's size, which is positive |
| Ranking.RankOrderedByRating | utils.py:416-417 | the ranked rows are sorted by rating, not similarity, and are a permutation of the shortlist's rows |
| Ranking.RankRowsFromShortlist | utils.py:376-411 | each ranked row is the row of some shortlisted candidate |
| Ranking.RankSelectsMostSimilar | utils.py:364-376 | each ranked row comes from a filtered resume, carries its similarity, and is at least as similar as every filtered resume left out |
| Ranking.ShortlistedRowOutranks | utils.py:364-411 | the row of a shortlisted candidate names a filtered resume, carries its similarity, and is at least as similar as every candidate left out |
| Ranking.RowWithoutLlm | utils.py:395-398 | without the LLM a row's rating is the similarity rating and its justification cites the key terms |
| Ranking.RankWithoutLlm | utils.py:395-398 | without the LLM every ranked row is rated by similarity |
| Ranking.RowMissingKey | utils.py:385-394 | with the LLM on and no key a row is rated 0.0 with the missing-key message |
| Ranking.RankMissingKey | utils.py:385-394 | with the LLM on and no key every ranked row is rated 0.0 and no fallback happens |
| Ranking.CallErrorFallsBack | utils.py:388-394 | a failed LLM call falls back to the similarity rating with the fallback notice |
| Ranking.NonZeroLlmScoreKept | utils.py:385-390 | a non-zero LLM score is always kept |
| Ranking.OriginOfUniqueId | utils.py:379-381 | with no other entry sharing its filename, a candidate's details are its own |
| Ranking.BuildRows | utils.py:378-411 | the loop over the shortlist yields one row per candidate in shortlist order |
| Ranking.RankResumes | utils.py:345-418 | a missing model returns first with the store untouched; otherwise ingestion's store and the ranking outcome, and every ingested filename keeps a null score |

## Left out

- SBERT loading and encoding, cosine similarity, TF-IDF key matches and `clean_text`: foreign ML and regex code over floats, kept as uninterpreted functions of their text inputs.
- The rating formula `1 + round(sim * 9, 1)`: binary floating point; it is an uninterpreted function of the similarity.
- PDF extraction (pdfplumber, PyPDF2), UTF-8 decoding with `errors="ignore"`, the email regex: I/O and foreign code, kept as uninterpreted functions.
- `extract_section_text` and the education, experience and skills sub-header regexes: Python regex semantics. `Sections.SkillsNotFoundIsNotSpecified` assumes only that the sub-header substitution leaves a line-break-free string alone, which holds because the pattern ends in a line break.
- Keywords.FilterResumes: keywords are matched as plain substrings, whereas the source joins them into a regular expression with `|`. Keywords holding regex metacharacters (`c++`, `.net`) match differently or raise.
- Text.Lower, Text.Strip: ASCII case folding and the ASCII/Latin-1 whitespace characters only. Python's full Unicode `lower` and `isspace` tables are not modelled.
- Exceptions inside the ingestion `try`: a failing `seek`/`getvalue` or a non-string name skips the file. A failed save is swallowed inside `save_parsed_resume` and the entry is still returned. The readers are total functions here, and printed error messages are not modelled.
- Llm.LlmScore: the justification is a string or missing. A JSON reply whose `justification` is null, a number or a list is passed through unchanged by the source; the fallback test at utils.py:390 then raises `TypeError` out of `rank_resumes` (or, for a list, tests membership). That case is not modelled.
- The OpenAI request, prompt text, temperature and JSON decoding. They are one uninterpreted call whose failures (including a non-numeric `fit_score`) surface as an error message.
- SQLite transactions, the autoincrement id and `upload_date` timestamps. Upload order is the stand-in for `ORDER BY upload_date DESC`, so equal timestamps are not modelled.
- Ranking.Finish, Seqs.SortDesc: ties are kept in input order. pandas' default sort is not stable, so the source's tie order is unspecified. The contracts state only sortedness and permutation.
- `extract_keywords_from_job_desc`, `load_model_once` and the Streamlit `app.py` (UI, session state, CSV export, database clearing): outside the ranking core.
- NaN similarities and floating-point comparison: similarities are reals.
