/** Order-aware sequence operations standing in for the DataFrame calls the
    pipeline makes: boolean-mask selection (`df[mask]`), `sort_values(...,
    ascending=False)` and `head(n)`. */
module Seqs {

  function Min(a: int, b: int): int {
    if a <= b then a else b
  }

  function Max(a: int, b: int): int {
    if a >= b then a else b
  }

  /** `a` is `b` with some elements removed, order kept. */
  predicate IsSubsequence<T(==)>(a: seq<T>, b: seq<T>)
    decreases |b|
  {
    |a| == 0 || (|b| > 0 && ((a[0] == b[0] && IsSubsequence(a[1..], b[1..])) || IsSubsequence(a, b[1..])))
  }

  /** Every sequence is a subsequence of itself. */
  lemma {:induction false} IsSubsequenceRefl<T>(s: seq<T>)
    ensures IsSubsequence(s, s)
  {
    if |s| > 0 {
      IsSubsequenceRefl(s[1..]);
    }
  }

  /** Selection by a row mask: the elements satisfying `p`, in order. */
  function Filter<T(==)>(xs: seq<T>, p: T -> bool): (r: seq<T>)
    ensures IsSubsequence(r, xs)
    ensures forall x :: x in r ==> p(x)
    ensures forall x :: x in xs && p(x) ==> x in r
    decreases |xs|
  {
    if |xs| == 0 then []
    else
      var rest := Filter(xs[1..], p);
      assert xs == [xs[0]] + xs[1..];
      if p(xs[0]) then
        assert ([xs[0]] + rest)[1..] == rest;
        [xs[0]] + rest
      else rest
  }

  /** Every element of `xs` is in the selection exactly when it satisfies `p`. */
  lemma FilterMembership<T>(xs: seq<T>, p: T -> bool, x: T)
    ensures x in Filter(xs, p) <==> x in xs && p(x)
  {
    if x in Filter(xs, p) {
      SubsequenceMembers(Filter(xs, p), xs);
    }
  }

  /** Every element of a subsequence occurs in the sequence. */
  lemma {:induction false} SubsequenceMembers<T>(a: seq<T>, b: seq<T>)
    requires IsSubsequence(a, b)
    ensures forall x :: x in a ==> x in b
    decreases |b|
  {
    if |a| > 0 {
      if a[0] == b[0] && IsSubsequence(a[1..], b[1..]) {
        SubsequenceMembers(a[1..], b[1..]);
        assert forall x :: x in a ==> x == a[0] || x in a[1..];
      } else {
        SubsequenceMembers(a, b[1..]);
      }
    }
  }

  /** The selection keeps every copy of a satisfying element and no copy of
      any other. */
  lemma {:induction false} FilterCounts<T>(xs: seq<T>, p: T -> bool)
    ensures forall x :: multiset(Filter(xs, p))[x] == if p(x) then multiset(xs)[x] else 0
    decreases |xs|
  {
    if |xs| > 0 {
      FilterCounts(xs[1..], p);
      var rest := Filter(xs[1..], p);
      var r := Filter(xs, p);
      assert xs == [xs[0]] + xs[1..];
      assert r == if p(xs[0]) then [xs[0]] + rest else rest;
      forall x
        ensures multiset(r)[x] == if p(x) then multiset(xs)[x] else 0
      {
        assert multiset(xs)[x] == multiset([xs[0]])[x] + multiset(xs[1..])[x];
        if p(xs[0]) {
          assert multiset(r)[x] == multiset([xs[0]])[x] + multiset(rest)[x];
        }
      }
    }
  }

  /** A selection that rejects nothing is the identity. */
  lemma {:induction false} FilterKeepsAll<T>(xs: seq<T>, p: T -> bool)
    requires forall x :: x in xs ==> p(x)
    ensures Filter(xs, p) == xs
    decreases |xs|
  {
    if |xs| > 0 {
      FilterKeepsAll(xs[1..], p);
    }
  }

  /** A selection that rejects everything is empty. */
  lemma FilterEmptyIff<T>(xs: seq<T>, p: T -> bool)
    ensures Filter(xs, p) == [] <==> forall x :: x in xs ==> !p(x)
  {
    if Filter(xs, p) != [] {
      var x := Filter(xs, p)[0];
      FilterMembership(xs, p, x);
    } else {
      forall x | x in xs
        ensures !p(x)
      {
        FilterMembership(xs, p, x);
      }
    }
  }

  /** Selecting from `xs + [x]` is selecting from `xs`, then deciding `x`. */
  lemma {:induction false} FilterSnoc<T>(xs: seq<T>, x: T, p: T -> bool)
    ensures Filter(xs + [x], p) == Filter(xs, p) + (if p(x) then [x] else [])
    decreases |xs|
  {
    var tail := if p(x) then [x] else [];
    if |xs| == 0 {
      assert xs + [x] == [x];
      assert [x][1..] == [];
      assert Filter([x], p) == (if p(x) then [x] + Filter([], p) else Filter([], p));
    } else {
      var ys := xs + [x];
      assert ys[0] == xs[0];
      assert ys[1..] == xs[1..] + [x];
      FilterSnoc(xs[1..], x, p);
      var head := if p(xs[0]) then [xs[0]] else [];
      assert Filter(ys, p) == head + Filter(ys[1..], p);
      assert Filter(xs, p) == head + Filter(xs[1..], p);
      assert head + (Filter(xs[1..], p) + tail) == (head + Filter(xs[1..], p)) + tail;
    }
  }

  /** Applies `f` to every element, order kept. */
  function Map<T, U>(xs: seq<T>, f: T -> U): (r: seq<U>)
    ensures |r| == |xs|
    ensures forall i :: 0 <= i < |xs| ==> r[i] == f(xs[i])
  {
    seq(|xs|, i requires 0 <= i < |xs| => f(xs[i]))
  }

  /** Selects the elements satisfying `p` and transforms each with `f`,
      which only needs to be defined on them. */
  function FilterMap<T(==,!new), U>(xs: seq<T>, p: T -> bool, f: T --> U): (r: seq<U>)
    requires forall x :: p(x) ==> f.requires(x)
    ensures |r| == |Filter(xs, p)|
    ensures forall i :: 0 <= i < |r| ==> r[i] == f(Filter(xs, p)[i])
    decreases |xs|
  {
    if |xs| == 0 then []
    else
      var rest := FilterMap(xs[1..], p, f);
      assert xs == [xs[0]] + xs[1..];
      if p(xs[0]) then
        var r := [f(xs[0])] + rest;
        assert Filter(xs, p) == [xs[0]] + Filter(xs[1..], p);
        assert forall i :: 1 <= i < |r| ==> r[i] == rest[i - 1];
        r
      else rest
  }

  /** Selecting and transforming `xs + [x]` extends the result for `xs` by
      `x`'s image when `x` is selected. */
  lemma FilterMapSnoc<T(!new), U>(xs: seq<T>, x: T, p: T -> bool, f: T --> U)
    requires forall y :: p(y) ==> f.requires(y)
    ensures FilterMap(xs + [x], p, f) == FilterMap(xs, p, f) + (if p(x) then [f(x)] else [])
  {
    FilterSnoc(xs, x, p);
    var a := FilterMap(xs + [x], p, f);
    var b := FilterMap(xs, p, f) + (if p(x) then [f(x)] else []);
    assert |a| == |b|;
    forall i | 0 <= i < |a| ensures a[i] == b[i] {
      if i < |FilterMap(xs, p, f)| {
        assert Filter(xs + [x], p)[i] == Filter(xs, p)[i];
      }
    }
  }

  /** Non-increasing by `key`. */
  predicate SortedDesc<T>(s: seq<T>, key: T -> real) {
    forall i, j :: 0 <= i < j < |s| ==> key(s[i]) >= key(s[j])
  }

  /** Inserts `x` in front of the first element with a key not above its own. */
  function Insert<T(==)>(x: T, xs: seq<T>, key: T -> real): (r: seq<T>)
    requires SortedDesc(xs, key)
    ensures SortedDesc(r, key)
    ensures multiset(r) == multiset(xs) + multiset{x}
    decreases |xs|
  {
    if |xs| == 0 then [x]
    else if key(x) >= key(xs[0]) then [x] + xs
    else
      var rest := Insert(x, xs[1..], key);
      assert xs == [xs[0]] + xs[1..];
      InsertHead(xs[0], x, xs[1..], rest, key);
      [xs[0]] + rest
  }

  /** Prepending an element that outranks both the inserted element and the
      rest of a sorted sequence keeps the result sorted. */
  lemma InsertHead<T>(h: T, x: T, tail: seq<T>, rest: seq<T>, key: T -> real)
    requires SortedDesc([h] + tail, key)
    requires SortedDesc(rest, key)
    requires key(h) > key(x)
    requires multiset(rest) == multiset(tail) + multiset{x}
    ensures SortedDesc([h] + rest, key)
  {
    var s := [h] + rest;
    forall i, j | 0 <= i < j < |s|
      ensures key(s[i]) >= key(s[j])
    {
      if i == 0 {
        var y := rest[j - 1];
        assert s[0] == h && s[j] == y;
        assert y in multiset(rest);
        if y != x {
          assert multiset(rest)[y] == multiset(tail)[y] + multiset{x}[y];
          assert multiset(tail)[y] > 0;
          var k :| 0 <= k < |tail| && tail[k] == y;
          var t := [h] + tail;
          assert t[0] == h && t[k + 1] == y;
          assert key(t[0]) >= key(t[k + 1]);
        }
      } else {
        assert s[i] == rest[i - 1] && s[j] == rest[j - 1];
      }
    }
  }

  /** `sort_values(by=key, ascending=False)`: a permutation that is
      non-increasing by `key` (ties keep their input order). */
  function SortDesc<T(==)>(xs: seq<T>, key: T -> real): (r: seq<T>)
    ensures SortedDesc(r, key)
    ensures multiset(r) == multiset(xs)
    ensures |r| == |xs|
    decreases |xs|
  {
    if |xs| == 0 then []
    else
      assert xs == [xs[0]] + xs[1..];
      var r := Insert(xs[0], SortDesc(xs[1..], key), key);
      assert |r| == |multiset(r)|;
      r
  }

  /** Sorting neither adds nor drops an element. */
  lemma SortDescMember<T>(xs: seq<T>, key: T -> real, y: T)
    ensures y in SortDesc(xs, key) <==> y in xs
  {
    assert y in multiset(SortDesc(xs, key)) <==> y in multiset(xs);
  }

  /** pandas `head(n)`: the first `n` rows, or all but the last `-n` rows
      when `n` is negative. */
  function Head<T>(xs: seq<T>, n: int): (r: seq<T>)
    ensures r <= xs
    ensures n >= 0 ==> |r| == Min(n, |xs|)
    ensures n < 0 ==> |r| == Max(0, |xs| + n)
  {
    if n >= 0 then xs[..Min(n, |xs|)] else xs[..Max(0, |xs| + n)]
  }

  /** Taking a prefix of a descending sort yields a top-k selection: each
      chosen element outranks every copy left behind. */
  lemma TopOfSorted<T>(xs: seq<T>, key: T -> real, n: int)
    ensures var r := Head(SortDesc(xs, key), n);
      && multiset(r) <= multiset(xs)
      && SortedDesc(r, key)
      && forall x, y :: x in r && multiset(xs)[y] > multiset(r)[y] ==> key(x) >= key(y)
  {
    var s := SortDesc(xs, key);
    var r := Head(s, n);
    var rest := s[|r|..];
    assert s == r + rest;
    assert multiset(s) == multiset(r) + multiset(rest);
    forall x, y | x in r && multiset(xs)[y] > multiset(r)[y]
      ensures key(x) >= key(y)
    {
      assert y in multiset(rest);
      SortedSplit(r, rest, key, x, y);
    }
  }

  /** In a sorted concatenation every element of the front outranks every
      element of the back. */
  lemma SortedSplit<T>(a: seq<T>, b: seq<T>, key: T -> real, x: T, y: T)
    requires SortedDesc(a + b, key)
    requires x in a && y in b
    ensures key(x) >= key(y)
  {
    var i :| 0 <= i < |a| && a[i] == x;
    var j :| 0 <= j < |b| && b[j] == y;
    assert (a + b)[i] == x && (a + b)[|a| + j] == y;
  }
}
