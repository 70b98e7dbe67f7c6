/** The string operations the pipeline relies on, modelled after Python's
    `str.strip`, `str.lower`, `str.endswith`, `in` (substring), `str.split`,
    `str.join`, `str.replace` and the `[\r\n]+` substitution. Whitespace and
    case follow the ASCII/Latin-1 subset; the rest of Unicode is not modelled. */
module Text {

  /** Characters `str.strip()` removes (the ASCII/Latin-1 part of
      Python's `str.isspace`). */
  predicate IsSpace(c: char) {
    c == ' ' || c == '\t' || c == '\n' || c == '\r' || c == '\U{000B}' || c == '\U{000C}'
    || c == '\U{001C}' || c == '\U{001D}' || c == '\U{001E}' || c == '\U{001F}'
    || c == '\U{0085}' || c == '\U{00A0}'
  }

  predicate IsLineBreak(c: char) {
    c == '\r' || c == '\n'
  }

  predicate AllSpace(s: string) {
    forall i :: 0 <= i < |s| ==> IsSpace(s[i])
  }

  /** Number of leading whitespace characters. */
  function LeadingSpace(s: string): (k: nat)
    ensures k <= |s|
    ensures AllSpace(s[..k])
    ensures k < |s| ==> !IsSpace(s[k])
  {
    if |s| == 0 || !IsSpace(s[0]) then 0
    else
      var k := 1 + LeadingSpace(s[1..]);
      assert s[..k] == [s[0]] + s[1..][..k - 1];
      k
  }

  /** Length of `s` once trailing whitespace is dropped. */
  function TrailingStart(s: string): (e: nat)
    ensures e <= |s|
    ensures AllSpace(s[e..])
    ensures e > 0 ==> !IsSpace(s[e - 1])
  {
    if |s| == 0 || !IsSpace(s[|s| - 1]) then |s|
    else
      var e := TrailingStart(s[..|s| - 1]);
      assert s[e..] == s[..|s| - 1][e..] + [s[|s| - 1]];
      e
  }

  /** Python's `s.strip()`. */
  function Strip(s: string): (r: string)
    ensures |r| <= |s|
    ensures r == "" || (!IsSpace(r[0]) && !IsSpace(r[|r| - 1]))
    ensures r == "" <==> AllSpace(s)
    ensures LeadingSpace(s) + |r| <= |s| && r == s[LeadingSpace(s)..LeadingSpace(s) + |r|]
    ensures AllSpace(s[LeadingSpace(s) + |r|..])
  {
    var k := LeadingSpace(s);
    var t := s[k..];
    var e := TrailingStart(t);
    if e == 0 then
      assert s == s[..k] + t;
      assert t == t[..0] + t[0..];
      AllSpaceConcat(s[..k], t);
      ""
    else
      assert t[0] == s[k];
      assert t[..e] == s[k..k + e] && t[e..] == s[k + e..];
      t[..e]
  }

  lemma AllSpaceConcat(a: string, b: string)
    requires AllSpace(a) && AllSpace(b)
    ensures AllSpace(a + b)
  {
  }

  /** A string with no whitespace at either end is its own strip. */
  lemma StripUnpadded(s: string)
    requires s != [] && !IsSpace(s[0]) && !IsSpace(s[|s| - 1])
    ensures Strip(s) == s
  {
    assert LeadingSpace(s) == 0;
    assert s[0..] == s;
    assert TrailingStart(s) == |s|;
  }

  /** Stripping twice is stripping once. */
  lemma {:induction false} StripIdempotent(s: string)
    ensures Strip(Strip(s)) == Strip(s)
  {
    if Strip(s) != "" {
      StripUnpadded(Strip(s));
    }
  }

  /** Python's `s or default`. */
  function OrDefault(s: string, default: string): string {
    if s == "" then default else s
  }

  function LowerChar(c: char): char {
    if 'A' <= c <= 'Z' then (c as int + 32) as char else c
  }

  predicate NoUpper(s: string) {
    forall i :: 0 <= i < |s| ==> !('A' <= s[i] <= 'Z')
  }

  /** Python's `s.lower()` on ASCII letters. */
  function Lower(s: string): (r: string)
    ensures |r| == |s|
    ensures NoUpper(r)
    ensures forall i :: 0 <= i < |s| && !('A' <= s[i] <= 'Z') ==> r[i] == s[i]
    ensures forall i :: 0 <= i < |s| && 'A' <= s[i] <= 'Z' ==> r[i] as int == s[i] as int + 32
  {
    seq(|s|, i requires 0 <= i < |s| => LowerChar(s[i]))
  }

  /** `s.startswith(p)`. */
  predicate StartsWith(s: string, p: string) {
    |p| <= |s| && s[..|p|] == p
  }

  lemma StartsWithPrefix(p: string, rest: string)
    ensures StartsWith(p + rest, p)
  {
    assert (p + rest)[..|p|] == p;
  }

  /** `s.endswith(p)`. */
  predicate EndsWith(s: string, p: string) {
    |p| <= |s| && s[|s| - |p|..] == p
  }

  /** Python's `sub in s`. */
  predicate Contains(s: string, sub: string)
    decreases |s|
  {
    StartsWith(s, sub) || (|s| > 0 && Contains(s[1..], sub))
  }

  /** Every string contains itself with a suffix appended after it. */
  lemma ContainsPrefix(p: string, rest: string)
    ensures Contains(p + rest, p)
  {
    assert (p + rest)[..|p|] == p;
  }

  /** The empty string is a substring of everything. */
  lemma ContainsEmpty(s: string)
    ensures Contains(s, "")
  {
    assert s[..0] == "";
  }

  /** A non-empty substring's first character occurs in the string. */
  lemma {:induction false} ContainsFirstChar(s: string, sub: string)
    requires |sub| > 0 && Contains(s, sub)
    ensures sub[0] in s
  {
    if StartsWith(s, sub) {
      assert s[0] == s[..|sub|][0];
    } else {
      ContainsFirstChar(s[1..], sub);
      assert s[1..] <= s[1..];
      assert forall c :: c in s[1..] ==> c in s;
    }
  }

  /** Python's `s.split(sep)` for a one-character separator. */
  function Split(s: string, sep: char): (r: seq<string>)
    ensures |r| >= 1
    decreases |s|
  {
    if |s| == 0 then [""]
    else if s[0] == sep then [""] + Split(s[1..], sep)
    else
      var t := Split(s[1..], sep);
      [[s[0]] + t[0]] + t[1..]
  }

  /** Python's `sep.join(parts)`. */
  function Join(parts: seq<string>, sep: string): string
    decreases |parts|
  {
    if |parts| == 0 then ""
    else if |parts| == 1 then parts[0]
    else parts[0] + sep + Join(parts[1..], sep)
  }

  /** Joining the pieces of a split with the separator gives back the string. */
  lemma {:induction false} JoinSplit(s: string, sep: char)
    ensures Join(Split(s, sep), [sep]) == s
    decreases |s|
  {
    if |s| == 0 {
    } else if s[0] == sep {
      var u := Split(s[1..], sep);
      JoinSplit(s[1..], sep);
      var parts := [""] + u;
      assert parts[0] == "" && parts[1..] == u;
      assert Join(parts, [sep]) == "" + [sep] + Join(u, [sep]);
      assert s == [sep] + s[1..];
    } else {
      var t := Split(s[1..], sep);
      JoinSplit(s[1..], sep);
      var parts := [[s[0]] + t[0]] + t[1..];
      assert Split(s, sep) == parts;
      assert s == [s[0]] + s[1..];
      if |t| == 1 {
        assert Join(parts, [sep]) == [s[0]] + t[0];
      } else {
        assert parts[1..] == t[1..];
        assert Join(parts, [sep]) == ([s[0]] + t[0]) + [sep] + Join(t[1..], [sep]);
        assert Join(t, [sep]) == t[0] + [sep] + Join(t[1..], [sep]);
      }
    }
  }

  /** The pieces of a split never contain the separator. */
  lemma {:induction false} SplitPiecesFree(s: string, sep: char)
    ensures forall i :: 0 <= i < |Split(s, sep)| ==> sep !in Split(s, sep)[i]
    decreases |s|
  {
    if |s| > 0 {
      SplitPiecesFree(s[1..], sep);
    }
  }

  /** A string that ends with the separator splits into a last, empty piece. */
  lemma {:induction false} SplitTrailingSeparator(s: string, sep: char)
    requires |s| > 0 && s[|s| - 1] == sep
    ensures Split(s, sep)[|Split(s, sep)| - 1] == ""
    decreases |s|
  {
    if |s| == 1 {
      assert Split(s[1..], sep) == [""];
    } else {
      SplitTrailingSeparator(s[1..], sep);
    }
  }

  /** A join is empty exactly when there is nothing to join, or one empty piece. */
  lemma {:induction false} JoinEmptyIff(parts: seq<string>, sep: string)
    requires sep != ""
    ensures Join(parts, sep) == "" <==> |parts| == 0 || (|parts| == 1 && parts[0] == "")
  {
    if |parts| >= 2 {
      assert |Join(parts, sep)| >= |sep|;
    }
  }

  /** Python's `s.replace(a, b)` for single characters. */
  function ReplaceChar(s: string, a: char, b: char): (r: string)
    ensures |r| == |s|
    ensures a != b ==> a !in r
    ensures forall i :: 0 <= i < |s| && s[i] != a ==> r[i] == s[i]
    ensures forall i :: 0 <= i < |s| && s[i] == a ==> r[i] == b
  {
    seq(|s|, i requires 0 <= i < |s| => if s[i] == a then b else s[i])
  }

  /** Drops the run of line breaks at the front of `s`. */
  function DropLineBreaks(s: string): (r: string)
    ensures |r| <= |s|
    ensures r == [] || !IsLineBreak(r[0])
    ensures |s| > 0 && IsLineBreak(s[0]) ==> |r| < |s|
    ensures r == s[|s| - |r|..]
  {
    if |s| > 0 && IsLineBreak(s[0]) then DropLineBreaks(s[1..]) else s
  }

  predicate NoLineBreak(s: string) {
    forall i :: 0 <= i < |s| ==> !IsLineBreak(s[i])
  }

  /** Python's `re.sub(r'[\r\n]+', rep, s)`: every maximal run of line
      breaks becomes one copy of `rep`. */
  function CollapseLineBreaks(s: string, rep: string): (r: string)
    decreases |s|
  {
    if |s| == 0 then ""
    else if IsLineBreak(s[0]) then rep + CollapseLineBreaks(DropLineBreaks(s), rep)
    else [s[0]] + CollapseLineBreaks(s[1..], rep)
  }

  /** With a replacement free of line breaks, no line break survives. */
  lemma {:induction false} CollapseRemovesLineBreaks(s: string, rep: string)
    requires NoLineBreak(rep)
    ensures NoLineBreak(CollapseLineBreaks(s, rep))
    decreases |s|
  {
    if |s| == 0 {
    } else if IsLineBreak(s[0]) {
      CollapseRemovesLineBreaks(DropLineBreaks(s), rep);
    } else {
      CollapseRemovesLineBreaks(s[1..], rep);
    }
  }

  /** A string without line breaks passes through unchanged. */
  lemma {:induction false} CollapseIdentity(s: string, rep: string)
    requires NoLineBreak(s)
    ensures CollapseLineBreaks(s, rep) == s
    decreases |s|
  {
    if |s| > 0 {
      CollapseIdentity(s[1..], rep);
      assert s == [s[0]] + s[1..];
    }
  }
}
