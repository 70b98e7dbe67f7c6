/** `filter_resumes`: the optional, comma-separated keyword filter. A
    resume survives when its lower-cased text contains at least one
    stripped, lower-cased keyword. Keywords are matched as plain substrings
    (the source joins them into a regular expression). */
module Keywords {
  import opened Types
  import opened Text
  import opened Seqs

  /** `[k.strip().lower() for k in keywords.split(",")]`. */
  function KeywordList(keywords: string): (r: seq<string>)
    ensures |r| == |Split(keywords, ',')|
    ensures forall i :: 0 <= i < |r| ==> r[i] == Lower(Strip(Split(keywords, ',')[i]))
  {
    var parts := Split(keywords, ',');
    seq(|parts|, i requires 0 <= i < |parts| => Lower(Strip(parts[i])))
  }

  /** The resume's lower-cased text contains some keyword. */
  predicate MatchesAny(text: string, kws: seq<string>) {
    exists i :: 0 <= i < |kws| && Contains(Lower(text), kws[i])
  }

  /** Only a string that is not blank switches the filter on; `None`
      stands for a value that is not a `str`. */
  predicate FilterActive(keywords: Option<string>) {
    keywords.Some? && Strip(keywords.value) != ""
  }

  function Matcher(kws: seq<string>): Entry -> bool {
    (d: Entry) => MatchesAny(d.text, kws)
  }

  /** `filter_resumes`. */
  function FilterResumes(docs: seq<Entry>, keywords: Option<string>): (r: seq<Entry>)
    ensures !FilterActive(keywords) ==> r == docs
    ensures IsSubsequence(r, docs)
    ensures FilterActive(keywords) ==>
      forall d :: d in r <==> d in docs && MatchesAny(d.text, KeywordList(keywords.value))
  {
    if FilterActive(keywords) then
      var kws := KeywordList(keywords.value);
      var r := Filter(docs, Matcher(kws));
      assert forall d :: d in r <==> d in docs && MatchesAny(d.text, kws) by {
        forall d ensures d in r <==> d in docs && MatchesAny(d.text, kws) {
          FilterMembership(docs, Matcher(kws), d);
        }
      }
      r
    else
      IsSubsequenceRefl(docs);
      docs
  }

  /** Every copy of a matching resume survives and no copy of any other:
      together with order preservation this pins the result down. */
  lemma FilterKeepsCopies(docs: seq<Entry>, keywords: string, d: Entry)
    requires FilterActive(Some(keywords))
    ensures multiset(FilterResumes(docs, Some(keywords)))[d] ==
      if MatchesAny(d.text, KeywordList(keywords)) then multiset(docs)[d] else 0
  {
    FilterCounts(docs, Matcher(KeywordList(keywords)));
  }

  /** A keyword that strips to nothing (as a trailing comma produces)
      matches every resume, so nothing is filtered out. */
  lemma BlankKeywordMatchesAll(docs: seq<Entry>, keywords: string)
    requires FilterActive(Some(keywords))
    requires exists i :: 0 <= i < |Split(keywords, ',')| && Strip(Split(keywords, ',')[i]) == ""
    ensures FilterResumes(docs, Some(keywords)) == docs
  {
    var kws := KeywordList(keywords);
    var i :| 0 <= i < |Split(keywords, ',')| && Strip(Split(keywords, ',')[i]) == "";
    assert kws[i] == "";
    forall d | d in docs ensures Matcher(kws)(d) {
      ContainsEmpty(Lower(d.text));
    }
    FilterKeepsAll(docs, Matcher(kws));
  }

  /** In particular a keyword string ending in a comma keeps everything. */
  lemma TrailingCommaKeepsAll(docs: seq<Entry>, keywords: string)
    requires FilterActive(Some(keywords))
    requires keywords[|keywords| - 1] == ','
    ensures FilterResumes(docs, Some(keywords)) == docs
  {
    var parts := Split(keywords, ',');
    SplitTrailingSeparator(keywords, ',');
    assert Strip(parts[|parts| - 1]) == "";
    BlankKeywordMatchesAll(docs, keywords);
  }

  /** The filter may leave nothing: it does so exactly when no resume
      contains any keyword. */
  lemma FilterEmptyWhenNoMatch(docs: seq<Entry>, keywords: string)
    requires FilterActive(Some(keywords))
    ensures FilterResumes(docs, Some(keywords)) == [] <==>
      forall d :: d in docs ==> !MatchesAny(d.text, KeywordList(keywords))
  {
    FilterEmptyIff(docs, Matcher(KeywordList(keywords)));
  }
}
