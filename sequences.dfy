/** LINQ's `Where`, `Skip` and `Take` over an in-memory sequence, and the
    facts about them that the queries of the application build on. */
module Sequences {

  /** `Where(keep)`: the elements that satisfy `keep`, in their order. */
  function Filter<T>(s: seq<T>, keep: T -> bool): (r: seq<T>)
    ensures |r| <= |s|
    ensures forall x :: x in r ==> x in s && keep(x)
    ensures forall i :: 0 <= i < |s| && keep(s[i]) ==> s[i] in r
    ensures forall i :: 0 <= i < |s| && keep(s[i]) ==> multiset(r)[s[i]] == multiset(s)[s[i]]
  {
    assert s != [] ==> s == [s[0]] + s[1..];
    if s == [] then []
    else (if keep(s[0]) then [s[0]] else []) + Filter(s[1..], keep)
  }

  /** `idx` picks the elements of `a` out of `b`, in order. */
  ghost predicate Embeds<T>(idx: seq<nat>, a: seq<T>, b: seq<T>) {
    && |idx| == |a|
    && (forall k :: 0 <= k < |idx| ==> idx[k] < |b| && a[k] == b[idx[k]])
    && (forall k, l :: 0 <= k < l < |idx| ==> idx[k] < idx[l])
  }

  /** `a` is an order-preserving subsequence of `b`. */
  ghost predicate IsSubsequence<T>(a: seq<T>, b: seq<T>) {
    exists idx :: Embeds(idx, a, b)
  }

  /** No value occurs twice. */
  ghost predicate Distinct<T>(s: seq<T>) {
    forall i, j :: 0 <= i < |s| && 0 <= j < |s| && i != j ==> s[i] != s[j]
  }

  lemma {:induction false} FilterAppend<T>(a: seq<T>, b: seq<T>, keep: T -> bool)
    ensures Filter(a + b, keep) == Filter(a, keep) + Filter(b, keep)
  {
    if a == [] {
      assert a + b == b;
    } else {
      assert (a + b)[1..] == a[1..] + b;
      FilterAppend(a[1..], b, keep);
    }
  }

  /** An embedding into the tail of `b`, shifted into `b` itself. */
  lemma EmbedsShift<T>(idx: seq<nat>, a: seq<T>, b: seq<T>) returns (shifted: seq<nat>)
    requires b != [] && Embeds(idx, a, b[1..])
    ensures Embeds(shifted, a, b)
    ensures forall k :: 0 <= k < |shifted| ==> shifted[k] >= 1
  {
    shifted := seq(|idx|, k requires 0 <= k < |idx| => idx[k] + 1);
    forall k | 0 <= k < |shifted| ensures shifted[k] < |b| && a[k] == b[shifted[k]] {
      assert a[k] == b[1..][idx[k]];
    }
  }

  /** An embedding that avoids position 0 extends by the head of `b`. */
  lemma EmbedsCons<T>(idx: seq<nat>, a: seq<T>, b: seq<T>)
    requires b != [] && Embeds(idx, a, b)
    requires forall k :: 0 <= k < |idx| ==> idx[k] >= 1
    ensures Embeds([0] + idx, [b[0]] + a, b)
  {
    var idx', a' := [0] + idx, [b[0]] + a;
    forall k | 0 <= k < |idx'| ensures idx'[k] < |b| && a'[k] == b[idx'[k]] {
      if k > 0 {
        assert idx'[k] == idx[k - 1] && a'[k] == a[k - 1];
      }
    }
    forall k, l | 0 <= k < l < |idx'| ensures idx'[k] < idx'[l] {
      assert idx'[l] == idx[l - 1];
      if k > 0 {
        assert idx'[k] == idx[k - 1];
      }
    }
  }

  /** The positions `Filter` keeps, in increasing order. */
  lemma {:induction false} FilterEmbeds<T>(s: seq<T>, keep: T -> bool) returns (idx: seq<nat>)
    ensures Embeds(idx, Filter(s, keep), s)
  {
    if s == [] {
      idx := [];
    } else {
      var tail := Filter(s[1..], keep);
      var rest := FilterEmbeds(s[1..], keep);
      var shifted := EmbedsShift(rest, tail, s);
      if keep(s[0]) {
        EmbedsCons(shifted, tail, s);
        idx := [0] + shifted;
        assert Filter(s, keep) == [s[0]] + tail;
      } else {
        idx := shifted;
        assert Filter(s, keep) == tail;
      }
    }
  }

  /** Two different positions that pass put at least two elements in the
      result: `Where` keeps every passing occurrence. */
  lemma {:induction false} FilterKeepsBothPositions<T>(s: seq<T>, keep: T -> bool, i: nat, j: nat)
    requires i < j < |s| && keep(s[i]) && keep(s[j])
    ensures |Filter(s, keep)| >= 2
  {
    if i == 0 {
      assert s[1..][j - 1] == s[j];
      assert Filter(s, keep) == [s[0]] + Filter(s[1..], keep);
    } else {
      assert s[1..][i - 1] == s[i] && s[1..][j - 1] == s[j];
      FilterKeepsBothPositions(s[1..], keep, i - 1, j - 1);
    }
  }

  /** The same, stated for any two positions. */
  lemma FilterKeepsBoth<T>(s: seq<T>, keep: T -> bool, i: nat, j: nat)
    requires i < j < |s|
    ensures keep(s[i]) && keep(s[j]) ==> |Filter(s, keep)| >= 2
  {
    if keep(s[i]) && keep(s[j]) {
      FilterKeepsBothPositions(s, keep, i, j);
    }
  }

  /** `Where` keeps the order of its input and drops nothing it should keep. */
  lemma FilterIsSubsequence<T>(s: seq<T>, keep: T -> bool)
    ensures IsSubsequence(Filter(s, keep), s)
  {
    var idx := FilterEmbeds(s, keep);
  }

  /** A filter that keeps everything leaves the sequence as it is. */
  lemma {:induction false} FilterAll<T>(s: seq<T>, keep: T -> bool)
    requires forall i :: 0 <= i < |s| ==> keep(s[i])
    ensures Filter(s, keep) == s
  {
    if s != [] {
      FilterAll(s[1..], keep);
    }
  }

  /** Two `Where`s in a row are one `Where` on the conjunction. */
  lemma {:induction false} FilterCompose<T>(s: seq<T>, p: T -> bool, q: T -> bool, both: T -> bool)
    requires forall x :: both(x) == (p(x) && q(x))
    ensures Filter(Filter(s, p), q) == Filter(s, both)
  {
    if s != [] {
      FilterCompose(s[1..], p, q, both);
      var head := if p(s[0]) then [s[0]] else [];
      FilterAppend(head, Filter(s[1..], p), q);
    }
  }

  /** Applying the same `Where` twice is applying it once. */
  lemma FilterIdempotent<T>(s: seq<T>, keep: T -> bool)
    ensures Filter(Filter(s, keep), keep) == Filter(s, keep)
  {
    FilterCompose(s, keep, keep, keep);
  }

  /** Filters that agree on the elements of `s` give the same result. */
  lemma {:induction false} FilterCongruent<T>(s: seq<T>, p: T -> bool, q: T -> bool)
    requires forall i :: 0 <= i < |s| ==> p(s[i]) == q(s[i])
    ensures Filter(s, p) == Filter(s, q)
  {
    if s != [] {
      FilterCongruent(s[1..], p, q);
    }
  }

  lemma {:induction false} FilterDistinct<T>(s: seq<T>, keep: T -> bool)
    requires Distinct(s)
    ensures Distinct(Filter(s, keep))
  {
    if s != [] {
      FilterDistinct(s[1..], keep);
      var rest := Filter(s[1..], keep);
      forall x | x in rest ensures x != s[0] {
        var j :| 0 <= j < |s[1..]| && s[1..][j] == x;
        assert s[j + 1] == x;
      }
    }
  }

  function Min(a: int, b: int): int {
    if a <= b then a else b
  }

  function Max(a: int, b: int): int {
    if a <= b then b else a
  }

  /** LINQ's `Skip(n)`: what is left after the first `n` elements; a count
      at or below zero skips nothing. */
  function Skip<T>(s: seq<T>, n: int): (r: seq<T>)
    ensures |r| == |s| - Min(Max(n, 0), |s|)
    ensures r == s[|s| - |r|..]
  {
    if n <= 0 then s else if n >= |s| then [] else s[n..]
  }

  /** LINQ's `Take(n)`: the first `n` elements, or all of them; a count at
      or below zero takes nothing. */
  function Take<T>(s: seq<T>, n: int): (r: seq<T>)
    ensures |r| == Min(Max(n, 0), |s|)
    ensures r == s[..|r|]
  {
    if n <= 0 then [] else if n >= |s| then s else s[..n]
  }

  /** `Take(n)` and `Skip(n)` split a sequence at the same place. */
  lemma TakeThenSkipIsWhole<T>(s: seq<T>, n: int)
    ensures Take(s, n) + Skip(s, n) == s
  {
    var m := Min(Max(n, 0), |s|);
    assert s[..m] + s[m..] == s;
  }
}
