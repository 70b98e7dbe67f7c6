/** `rank_resumes`: error precedence, the similarity shortlist, the LLM
    fallback, and the final ordering by rating. Embedding similarity,
    `clean_text`, the TF-IDF key matches, the chat-completion call and the
    rating formula are uninterpreted functions in `Scorers`. */
module Ranking {
  import opened Types
  import opened Text
  import opened Seqs
  import opened Store
  import opened Ingest
  import opened Keywords
  import opened Llm

  /** The numeric services ranking consults.
      - `cleanText`: `clean_text`.
      - `embedSimilarity(a, b)`: cosine similarity of the SBERT embeddings
        of `a` and `b`; not assumed to lie in [0, 1].
      - `keyMatches(resume, job)`: `extract_key_matches`.
      - `llm`: the chat-completion call behind the LLM scorer.
      - `rating(sim)`: `1 + round(sim * 9, 1)`. */
  datatype Scorers = Scorers(
    cleanText: string -> string,
    embedSimilarity: (string, string) -> real,
    keyMatches: (string, string) -> seq<string>,
    llm: LlmCall,
    rating: real -> real)

  /** The job description as ranking uses it: stripped, defaulted, cleaned.
      A blank description is not an error; it stands for "No content". */
  function JobText(sc: Scorers, jd: string): (r: string)
    ensures AllSpace(jd) ==> r == sc.cleanText(NoContent)
    ensures !AllSpace(jd) ==> r == sc.cleanText(Strip(jd))
  {
    sc.cleanText(OrDefault(Strip(jd), NoContent))
  }

  /** What `vectorize_texts_sbert` embeds for one text: the cleaned text, or
      "No content" (uncleaned) for a blank one. */
  function EmbedInput(sc: Scorers, t: string): (r: string)
    ensures AllSpace(t) ==> r == NoContent
    ensures !AllSpace(t) ==> r == sc.cleanText(t)
  {
    if Strip(t) != "" then sc.cleanText(t) else NoContent
  }

  /** The `similarity` column: the cosine similarity of the resume's and the
      job's embeddings; every blank resume gets the same score. */
  function Similarity(sc: Scorers, resume: string, job: string): (r: real)
    ensures AllSpace(resume) ==> r == sc.embedSimilarity(NoContent, EmbedInput(sc, job))
    ensures !AllSpace(resume) ==> r == sc.embedSimilarity(sc.cleanText(resume), EmbedInput(sc, job))
  {
    sc.embedSimilarity(EmbedInput(sc, resume), EmbedInput(sc, job))
  }

  /** A filtered resume with its `similarity` column. */
  datatype Candidate = Candidate(entry: Entry, similarity: real)

  function SimilarityOf(c: Candidate): real {
    c.similarity
  }

  function Scorer(sc: Scorers, job: string): Entry -> Candidate {
    (d: Entry) => Candidate(d, Similarity(sc, d.text, job))
  }

  /** Every filtered resume paired with its similarity, in order. */
  function Scored(sc: Scorers, job: string, docs: seq<Entry>): (r: seq<Candidate>)
    ensures |r| == |docs|
    ensures forall i :: 0 <= i < |docs| ==> r[i].entry == docs[i] && r[i].similarity == Similarity(sc, docs[i].text, job)
  {
    Map(docs, Scorer(sc, job))
  }

  /** The number of rows `head(min(top_n, n))` keeps of `n`. */
  function ShortlistSize(topN: int, n: nat): (k: nat)
    ensures k <= n
    ensures topN >= 1 && n >= 1 ==> k >= 1
  {
    if topN >= 0 then Min(topN, n) else Max(0, n + topN)
  }

  /** `sort_values(by="similarity", ascending=False).head(min(top_n, n))`. */
  function Shortlist(sc: Scorers, job: string, filtered: seq<Entry>, topN: int): (r: seq<Candidate>)
    ensures |r| == ShortlistSize(topN, |filtered|)
  {
    Head(SortDesc(Scored(sc, job, filtered), SimilarityOf), Min(topN, |filtered|))
  }

  /** The shortlist is a top-k selection by similarity: drawn from the
      filtered resumes, highest similarity first, and every shortlisted
      candidate is at least as similar as every copy left out. */
  lemma ShortlistIsTop(sc: Scorers, job: string, filtered: seq<Entry>, topN: int)
    ensures var r := Shortlist(sc, job, filtered, topN);
      var s := Scored(sc, job, filtered);
      && multiset(r) <= multiset(s)
      && SortedDesc(r, SimilarityOf)
      && forall x, y :: x in r && multiset(s)[y] > multiset(r)[y] ==> x.similarity >= y.similarity
  {
    var s := Scored(sc, job, filtered);
    var n := Min(topN, |filtered|);
    assert Shortlist(sc, job, filtered, topN) == Head(SortDesc(s, SimilarityOf), n);
    TopOfSorted(s, SimilarityOf, n);
  }

  /** Each shortlisted candidate is a filtered resume with its own
      similarity to the job. */
  lemma ShortlistFromFiltered(sc: Scorers, job: string, filtered: seq<Entry>, topN: int)
    ensures forall c :: c in Shortlist(sc, job, filtered, topN) ==>
      c.entry in filtered && c.similarity == Similarity(sc, c.entry.text, job)
  {
    var s := Scored(sc, job, filtered);
    ShortlistIsTop(sc, job, filtered, topN);
    forall c | c in Shortlist(sc, job, filtered, topN)
      ensures c.entry in filtered && c.similarity == Similarity(sc, c.entry.text, job)
    {
      assert c in multiset(s);
      var i :| 0 <= i < |s| && s[i] == c;
    }
  }

  /** `df[df["ID"] == id].iloc[0]`: the first entry carrying `id`. */
  function FirstWithId(docs: seq<Entry>, id: string): (r: Option<Entry>)
    ensures r.None? <==> forall i :: 0 <= i < |docs| ==> docs[i].id != id
    ensures r.Some? ==>
      exists i :: 0 <= i < |docs| && docs[i] == r.value && r.value.id == id
        && forall j :: 0 <= j < i ==> docs[j].id != id
    decreases |docs|
  {
    if |docs| == 0 then None
    else if docs[0].id == id then Some(docs[0])
    else
      var r := FirstWithId(docs[1..], id);
      assert forall i :: 1 <= i < |docs| ==> docs[i] == docs[1..][i - 1];
      r
  }

  const KeyTermsLead: string := "Strong alignment on key terms like: "
  const FallbackLead: string := "LLM call failed. Falling back to SBERT => "

  /** The key matches as the justification quotes them. */
  function MatchPhrase(matches: seq<string>): string {
    ReplaceChar(Join(matches, ", "), '_', ' ')
  }

  function KeyTermsJustification(matches: seq<string>): string {
    KeyTermsLead + (MatchPhrase(matches) + ".")
  }

  /** Rating and justification for one candidate: the LLM's verdict unless
      it reports a failed call, in which case (and whenever the LLM is off)
      the similarity rating with a key-terms justification. */
  function Rate(sc: Scorers, apiKey: string, useLlm: bool, job: string, resume: string,
                similarity: real, matches: seq<string>): (a: Assessment)
    ensures !useLlm ==> a == Assessment(sc.rating(similarity), KeyTermsJustification(matches))
    ensures useLlm && !IsLlmFailure(LlmScore(sc.llm, resume, job, apiKey)) ==>
      a == LlmScore(sc.llm, resume, job, apiKey)
    ensures useLlm && IsLlmFailure(LlmScore(sc.llm, resume, job, apiKey)) ==>
      a == Assessment(sc.rating(similarity), FallbackLead + KeyTermsJustification(matches))
  {
    if useLlm then
      var verdict := LlmScore(sc.llm, resume, job, apiKey);
      if IsLlmFailure(verdict) then
        Assessment(sc.rating(similarity), FallbackLead + KeyTermsJustification(matches))
      else verdict
    else Assessment(sc.rating(similarity), KeyTermsJustification(matches))
  }

  /** One row of `final_top_resumes`. */
  datatype RankedRow = RankedRow(
    id: string, similarity: real, email: string, rating: real, keyMatches: string,
    justification: string, skills: string, experience: string, education: string, fitScore: real)

  function RatingOf(r: RankedRow): real {
    r.rating
  }

  /** The entry a shortlisted candidate's details are read from: the first
      ingested entry with the candidate's id. */
  function Origin(docs: seq<Entry>, c: Candidate): (e: Entry)
    ensures e.id == c.entry.id
    ensures c.entry in docs ==>
      exists i :: 0 <= i < |docs| && docs[i] == e && forall j :: 0 <= j < i ==> docs[j].id != c.entry.id
  {
    var first := FirstWithId(docs, c.entry.id);
    assert c.entry in docs ==> first.Some? by {
      if c.entry in docs {
        var k :| 0 <= k < |docs| && docs[k] == c.entry;
      }
    }
    first.GetOr(c.entry)
  }

  /** When no other ingested entry shares its filename, a candidate's
      details are read from the candidate itself. */
  lemma OriginOfUniqueId(docs: seq<Entry>, c: Candidate)
    requires c.entry in docs
    requires forall i :: 0 <= i < |docs| && docs[i].id == c.entry.id ==> docs[i] == c.entry
    ensures Origin(docs, c) == c.entry
  {
  }

  /** The row for a shortlisted candidate. Key matches, the LLM input and
      the parsed sections come from the candidate's origin; id, similarity
      and email from the candidate itself. */
  function RowFor(sc: Scorers, apiKey: string, useLlm: bool, job: string, docs: seq<Entry>, c: Candidate): (r: RankedRow)
    ensures r.id == c.entry.id && r.similarity == c.similarity && r.email == c.entry.email
    ensures r.fitScore == r.rating
    ensures var e := Origin(docs, c);
      && r.skills == e.parsed.skills && r.experience == e.parsed.experience && r.education == e.parsed.education
      && r.keyMatches == Join(sc.keyMatches(e.text, job), ", ")
      && Assessment(r.rating, r.justification) ==
         Rate(sc, apiKey, useLlm, job, e.text, c.similarity, sc.keyMatches(e.text, job))
  {
    var orig := Origin(docs, c);
    var matches := sc.keyMatches(orig.text, job);
    var a := Rate(sc, apiKey, useLlm, job, orig.text, c.similarity, matches);
    RankedRow(c.entry.id, c.similarity, c.entry.email, a.score, Join(matches, ", "), a.justification,
              orig.parsed.skills, orig.parsed.experience, orig.parsed.education, a.score)
  }

  function RowMaker(sc: Scorers, apiKey: string, useLlm: bool, job: string, docs: seq<Entry>): Candidate -> RankedRow {
    (c: Candidate) => RowFor(sc, apiKey, useLlm, job, docs, c)
  }

  /** How a ranking run ends. */
  datatype Outcome =
    | ModelMissing
    | NoValidResumes
    | NoKeywordMatch
    | NoCandidates
    | Ranked(rows: seq<RankedRow>)

  const ModelMissingMessage: string := "SBERT model not loaded. Please ensure the model is downloaded."
  const NoValidResumesMessage: string := "No valid resumes uploaded or processed."
  const NoKeywordMatchMessage: string := "No resumes found that match the specified keywords."
  const NoCandidatesMessage: string := "No candidates found after filtering."

  /** The frame half of the returned pair: `None` for Python's `None`,
      `Some([])` for an empty DataFrame. */
  function Frame(o: Outcome): Option<seq<RankedRow>> {
    match o
    case ModelMissing => None
    case NoValidResumes => None
    case NoKeywordMatch => Some([])
    case NoCandidates => Some([])
    case Ranked(rows) => Some(rows)
  }

  /** The message half of the returned pair. */
  function Message(o: Outcome): Option<string> {
    match o
    case ModelMissing => Some(ModelMissingMessage)
    case NoValidResumes => Some(NoValidResumesMessage)
    case NoKeywordMatch => Some(NoKeywordMatchMessage)
    case NoCandidates => Some(NoCandidatesMessage)
    case Ranked(_) => None
  }

  /** The returned pair tells every outcome apart: a message is present
      exactly on error, and no two outcomes share a pair. */
  lemma OutcomesDistinguishable(o1: Outcome, o2: Outcome)
    ensures Message(o1).None? <==> o1.Ranked?
    ensures Frame(o1).None? <==> o1 == ModelMissing || o1 == NoValidResumes
    ensures Frame(o1) == Frame(o2) && Message(o1) == Message(o2) ==> o1 == o2
  {
    assert |ModelMissingMessage| == 62 && |NoValidResumesMessage| == 39;
    assert |NoKeywordMatchMessage| == 51 && |NoCandidatesMessage| == 36;
  }

  /** The last step: no rows is an error, otherwise the rows ordered by
      rating. */
  function Finish(rows: seq<RankedRow>): (o: Outcome)
    ensures o == NoCandidates <==> rows == []
    ensures o.Ranked? ==> SortedDesc(o.rows, RatingOf) && multiset(o.rows) == multiset(rows)
  {
    if rows == [] then NoCandidates else Ranked(SortDesc(rows, RatingOf))
  }

  /** One row per shortlisted candidate, in shortlist order. */
  function ShortlistRows(sc: Scorers, apiKey: string, useLlm: bool, job: string,
                         docs: seq<Entry>, short: seq<Candidate>): (rows: seq<RankedRow>)
    ensures |rows| == |short|
    ensures forall i :: 0 <= i < |short| ==> rows[i] == RowFor(sc, apiKey, useLlm, job, docs, short[i])
  {
    Map(short, RowMaker(sc, apiKey, useLlm, job, docs))
  }

  /** The rows Rank sorts, before sorting. */
  function UnsortedRows(sc: Scorers, jd: string, keywords: Option<string>, topN: int,
                        apiKey: string, useLlm: bool, docs: seq<Entry>): (rows: seq<RankedRow>)
    ensures |rows| == ShortlistSize(topN, |FilterResumes(docs, keywords)|)
  {
    var job := JobText(sc, jd);
    ShortlistRows(sc, apiKey, useLlm, job, docs, Shortlist(sc, job, FilterResumes(docs, keywords), topN))
  }

  /** `rank_resumes` after the model check, on the ingested entries. */
  function Rank(sc: Scorers, jd: string, keywords: Option<string>, topN: int,
                apiKey: string, useLlm: bool, docs: seq<Entry>): (o: Outcome)
    ensures o != ModelMissing
    ensures o == NoValidResumes <==> docs == []
    ensures o == NoKeywordMatch <==> docs != [] && FilterResumes(docs, keywords) == []
    ensures o == NoCandidates <==>
      docs != [] && FilterResumes(docs, keywords) != [] &&
      ShortlistSize(topN, |FilterResumes(docs, keywords)|) == 0
    ensures o.Ranked? ==> |o.rows| == ShortlistSize(topN, |FilterResumes(docs, keywords)|) > 0
  {
    if docs == [] then NoValidResumes
    else if FilterResumes(docs, keywords) == [] then NoKeywordMatch
    else Finish(UnsortedRows(sc, jd, keywords, topN, apiKey, useLlm, docs))
  }

  /** The result is ordered by rating, highest first, and is a permutation
      of the rows built for the shortlisted candidates. */
  lemma RankOrderedByRating(sc: Scorers, jd: string, keywords: Option<string>, topN: int,
                            apiKey: string, useLlm: bool, docs: seq<Entry>)
    requires Rank(sc, jd, keywords, topN, apiKey, useLlm, docs).Ranked?
    ensures var rows := Rank(sc, jd, keywords, topN, apiKey, useLlm, docs).rows;
      && SortedDesc(rows, RatingOf)
      && multiset(rows) == multiset(UnsortedRows(sc, jd, keywords, topN, apiKey, useLlm, docs))
  {
  }

  /** Each returned row is the row of some shortlisted candidate. */
  lemma RankRowsFromShortlist(sc: Scorers, jd: string, keywords: Option<string>, topN: int,
                              apiKey: string, useLlm: bool, docs: seq<Entry>, r: RankedRow)
    requires Rank(sc, jd, keywords, topN, apiKey, useLlm, docs).Ranked?
    requires r in Rank(sc, jd, keywords, topN, apiKey, useLlm, docs).rows
    ensures var job := JobText(sc, jd);
      exists c :: c in Shortlist(sc, job, FilterResumes(docs, keywords), topN)
        && r == RowFor(sc, apiKey, useLlm, job, docs, c)
  {
    var job := JobText(sc, jd);
    var short := Shortlist(sc, job, FilterResumes(docs, keywords), topN);
    var unsorted := ShortlistRows(sc, apiKey, useLlm, job, docs, short);
    assert Rank(sc, jd, keywords, topN, apiKey, useLlm, docs) == Finish(unsorted);
    SortDescMember(unsorted, RatingOf, r);
    var i :| 0 <= i < |unsorted| && unsorted[i] == r;
    assert short[i] in short;
  }

  /** Every returned row stems from a resume that passed the keyword
      filter, carries that resume's similarity, and is at least as similar
      to the job as every filtered resume left off the shortlist. */
  lemma RankSelectsMostSimilar(sc: Scorers, jd: string, keywords: Option<string>, topN: int,
                               apiKey: string, useLlm: bool, docs: seq<Entry>, r: RankedRow)
    requires Rank(sc, jd, keywords, topN, apiKey, useLlm, docs).Ranked?
    requires r in Rank(sc, jd, keywords, topN, apiKey, useLlm, docs).rows
    ensures var job := JobText(sc, jd);
      var filtered := FilterResumes(docs, keywords);
      && (exists d :: d in filtered && d.id == r.id && r.similarity == Similarity(sc, d.text, job))
      && forall y :: multiset(Scored(sc, job, filtered))[y] > multiset(Shortlist(sc, job, filtered, topN))[y] ==>
           r.similarity >= y.similarity
  {
    var job := JobText(sc, jd);
    var filtered := FilterResumes(docs, keywords);
    var short := Shortlist(sc, job, filtered, topN);
    RankRowsFromShortlist(sc, jd, keywords, topN, apiKey, useLlm, docs, r);
    var c :| c in short && r == RowFor(sc, apiKey, useLlm, job, docs, c);
    ShortlistedRowOutranks(sc, apiKey, useLlm, job, docs, filtered, topN, c, r);
  }

  /** The row of a shortlisted candidate names a filtered resume, carries
      its similarity, and is at least as similar as every candidate left off
      the shortlist. */
  lemma ShortlistedRowOutranks(sc: Scorers, apiKey: string, useLlm: bool, job: string, docs: seq<Entry>,
                               filtered: seq<Entry>, topN: int, c: Candidate, r: RankedRow)
    requires c in Shortlist(sc, job, filtered, topN)
    requires r == RowFor(sc, apiKey, useLlm, job, docs, c)
    ensures exists d :: d in filtered && d.id == r.id && r.similarity == Similarity(sc, d.text, job)
    ensures forall y :: multiset(Scored(sc, job, filtered))[y] > multiset(Shortlist(sc, job, filtered, topN))[y] ==>
      r.similarity >= y.similarity
  {
    ShortlistFromFiltered(sc, job, filtered, topN);
    assert c.entry in filtered && c.entry.id == r.id && r.similarity == Similarity(sc, c.entry.text, job);
    ShortlistIsTop(sc, job, filtered, topN);
  }

  /** Without the LLM a row's rating is the similarity rating and its
      justification cites the key terms. */
  lemma RowWithoutLlm(sc: Scorers, apiKey: string, job: string, docs: seq<Entry>, c: Candidate)
    ensures var r := RowFor(sc, apiKey, false, job, docs, c);
      r.rating == sc.rating(r.similarity) && StartsWith(r.justification, KeyTermsLead)
  {
    var e := Origin(docs, c);
    var ms := sc.keyMatches(e.text, job);
    StartsWithPrefix(KeyTermsLead, MatchPhrase(ms) + ".");
  }

  /** Without the LLM every rating is the similarity rating. */
  lemma RankWithoutLlm(sc: Scorers, jd: string, keywords: Option<string>, topN: int,
                       apiKey: string, docs: seq<Entry>, r: RankedRow)
    requires Rank(sc, jd, keywords, topN, apiKey, false, docs).Ranked?
    requires r in Rank(sc, jd, keywords, topN, apiKey, false, docs).rows
    ensures r.rating == sc.rating(r.similarity) && StartsWith(r.justification, KeyTermsLead)
  {
    var job := JobText(sc, jd);
    RankRowsFromShortlist(sc, jd, keywords, topN, apiKey, false, docs, r);
    var c :| c in Shortlist(sc, job, FilterResumes(docs, keywords), topN)
      && r == RowFor(sc, apiKey, false, job, docs, c);
    RowWithoutLlm(sc, apiKey, job, docs, c);
  }

  /** With the LLM on but no API key, a row is rated 0.0 with the
      missing-key justification. */
  lemma RowMissingKey(sc: Scorers, job: string, docs: seq<Entry>, c: Candidate)
    ensures var r := RowFor(sc, "", true, job, docs, c);
      r.rating == 0.0 && r.fitScore == 0.0 && r.justification == NoKeyMessage
  {
    MissingKeyNoFallback(sc.llm, Origin(docs, c).text, job);
  }

  /** With the LLM on but no API key, every row is rated 0.0 with the
      missing-key justification: the fallback never fires. */
  lemma RankMissingKey(sc: Scorers, jd: string, keywords: Option<string>, topN: int,
                       docs: seq<Entry>, r: RankedRow)
    requires Rank(sc, jd, keywords, topN, "", true, docs).Ranked?
    requires r in Rank(sc, jd, keywords, topN, "", true, docs).rows
    ensures r.rating == 0.0 && r.fitScore == 0.0 && r.justification == NoKeyMessage
  {
    var job := JobText(sc, jd);
    RankRowsFromShortlist(sc, jd, keywords, topN, "", true, docs, r);
    var c :| c in Shortlist(sc, job, FilterResumes(docs, keywords), topN)
      && r == RowFor(sc, "", true, job, docs, c);
    RowMissingKey(sc, job, docs, c);
  }

  /** A failed call falls back to the similarity rating and says so. */
  lemma CallErrorFallsBack(sc: Scorers, apiKey: string, job: string, resume: string,
                           similarity: real, matches: seq<string>)
    requires apiKey != "" && sc.llm(resume, job, apiKey).Err?
    ensures var a := Rate(sc, apiKey, true, job, resume, similarity, matches);
      a.score == sc.rating(similarity) && StartsWith(a.justification, FallbackLead)
  {
    CallErrorIsFailure(sc.llm, resume, job, apiKey);
    StartsWithPrefix(FallbackLead, KeyTermsJustification(matches));
  }

  /** A non-zero score from the LLM is always kept. */
  lemma NonZeroLlmScoreKept(sc: Scorers, apiKey: string, job: string, resume: string,
                            similarity: real, matches: seq<string>)
    requires apiKey != "" && sc.llm(resume, job, apiKey).Ok?
    requires sc.llm(resume, job, apiKey).value.fitScore.GetOr(0.0) != 0.0
    ensures Rate(sc, apiKey, true, job, resume, similarity, matches) == LlmScore(sc.llm, resume, job, apiKey)
    ensures Rate(sc, apiKey, true, job, resume, similarity, matches).score ==
      sc.llm(resume, job, apiKey).value.fitScore.value
  {
  }

  /** `rank_resumes`, step by step: the model check before anything is
      read or stored, ingestion (which upserts every kept file), the keyword
      filter, the shortlist, one row per candidate, and the sort by rating.
      Stored scores are never written back. */
  method RankResumes(sc: Scorers, rd: Readers, jd: string, keywords: Option<string>, topN: int,
                     uploads: seq<Option<Upload>>, modelLoaded: bool, apiKey: string, useLlm: bool, db0: Db)
    returns (o: Outcome, db: Db)
    ensures !modelLoaded ==> o == ModelMissing && db == db0
    ensures modelLoaded ==> o == Rank(sc, jd, keywords, topN, apiKey, useLlm, IngestEntries(rd, uploads))
    ensures modelLoaded ==> db == SaveAll(db0, IngestEntries(rd, uploads))
    ensures modelLoaded && db0.table.Some? ==>
      forall i :: 0 <= i < |IngestEntries(rd, uploads)| ==>
        var id := IngestEntries(rd, uploads)[i].id;
        id in db.table.value.rows && db.table.value.rows[id].fitScore.None?
  {
    if !modelLoaded {
      return ModelMissing, db0;
    }
    var docs;
    docs, db := ProcessUploadedFiles(rd, uploads, db0);
    if db0.table.Some? {
      IngestedUnscored(rd, uploads, db0);
    }
    if docs == [] {
      return NoValidResumes, db;
    }
    var job := JobText(sc, jd);
    var filtered := FilterResumes(docs, keywords);
    if filtered == [] {
      return NoKeywordMatch, db;
    }
    var short := Shortlist(sc, job, filtered, topN);
    var rows := BuildRows(sc, apiKey, useLlm, job, docs, short);
    assert Rank(sc, jd, keywords, topN, apiKey, useLlm, docs) == Finish(rows);
    o := Finish(rows);
  }

  /** The loop over the shortlist appending one row per candidate. */
  method BuildRows(sc: Scorers, apiKey: string, useLlm: bool, job: string, docs: seq<Entry>, short: seq<Candidate>)
    returns (rows: seq<RankedRow>)
    ensures rows == ShortlistRows(sc, apiKey, useLlm, job, docs, short)
  {
    rows := [];
    var i := 0;
    while i < |short|
      invariant 0 <= i <= |short|
      invariant rows == ShortlistRows(sc, apiKey, useLlm, job, docs, short[..i])
    {
      assert short[..i + 1] == short[..i] + [short[i]];
      rows := rows + [RowFor(sc, apiKey, useLlm, job, docs, short[i])];
      i := i + 1;
    }
    assert short[..i] == short;
  }
}
