/** Sequence helpers shared by the string and catalog modules. */
module Seqs {

  /** No element occurs twice (the key list of a Python dict). */
  predicate Distinct<T(==)>(s: seq<T>) {
    forall i, j :: 0 <= i < j < |s| ==> s[i] != s[j]
  }

  /** A sequence without repetitions has as many elements as its set. */
  lemma {:induction false} DistinctCardinality<T>(s: seq<T>)
    requires Distinct(s)
    ensures |set x | x in s| == |s|
  {
    if |s| > 0 {
      var rest := s[1..];
      assert Distinct(rest);
      DistinctCardinality(rest);
      assert s[0] !in rest;
      assert (set x | x in s) == {s[0]} + (set x | x in rest);
    }
  }

  /** The elements of `s` that satisfy `p`, in their original order
      (a Python list comprehension with an `if`). */
  function Filter<T(!new)>(s: seq<T>, p: T -> bool): (r: seq<T>)
    ensures |r| <= |s|
    ensures forall x :: multiset(r)[x] == if p(x) then multiset(s)[x] else 0
    ensures forall x :: x in r <==> x in s && p(x)
  {
    if |s| == 0 then []
    else
      assert s == [s[0]] + s[1..];
      (if p(s[0]) then [s[0]] else []) + Filter(s[1..], p)
  }

  lemma {:induction false} FilterKeepsDistinct<T(!new)>(s: seq<T>, p: T -> bool)
    requires Distinct(s)
    ensures Distinct(Filter(s, p))
  {
    if |s| > 0 {
      FilterKeepsDistinct(s[1..], p);
      var t := Filter(s[1..], p);
      assert s[0] !in s[1..];
      DistinctCons(s[0], t);
    }
  }

  /** An element not in a list without repetitions can go in front of it. */
  lemma DistinctCons<T>(h: T, t: seq<T>)
    requires Distinct(t) && h !in t
    ensures Distinct([h] + t)
  {
    var r := [h] + t;
    forall i, j | 0 <= i < j < |r| ensures r[i] != r[j] {
      assert r[j] == t[j - 1];
    }
  }

  /** The sequence without any occurrence of `x`. */
  function Remove<T(==,!new)>(s: seq<T>, x: T): (r: seq<T>)
    ensures forall y :: y in r <==> y in s && y != x
    ensures Distinct(s) ==> Distinct(r)
  {
    if Distinct(s) then
      FilterKeepsDistinct(s, y => y != x);
      Filter(s, y => y != x)
    else
      Filter(s, y => y != x)
  }

  /** The sequence followed by `n` copies of `pad` (Python `xs + [pad] * n`,
      which adds nothing when `n` is not positive). */
  function Pad<T>(s: seq<T>, pad: T, n: int): (r: seq<T>)
    ensures |r| == |s| + (if n > 0 then n else 0)
    ensures r[..|s|] == s
    ensures forall i :: |s| <= i < |r| ==> r[i] == pad
  {
    s + seq(if n > 0 then n else 0, _ => pad)
  }

  /** The multisets added up: every element counted as often as all of
      them together hold it. */
  function SumBags<T>(bs: seq<multiset<T>>): multiset<T> {
    if |bs| == 0 then multiset{} else bs[0] + SumBags(bs[1..])
  }

  /** The multiset of each sequence. */
  function Bags<T>(ss: seq<seq<T>>): (r: seq<multiset<T>>)
    ensures |r| == |ss|
    ensures forall i :: 0 <= i < |ss| ==> r[i] == multiset(ss[i])
  {
    seq(|ss|, i requires 0 <= i < |ss| => multiset(ss[i]))
  }

  /** When each multiset of `xs` counts `x` as its partner in `ys` does (or
      not at all, when `x` is not kept), so do their sums. */
  lemma {:induction false} SumBagsPointwise<T>(xs: seq<multiset<T>>, ys: seq<multiset<T>>, x: T, keep: bool)
    requires |xs| == |ys|
    requires forall k :: 0 <= k < |xs| ==> xs[k][x] == if keep then ys[k][x] else 0
    ensures SumBags(xs)[x] == if keep then SumBags(ys)[x] else 0
  {
    if |xs| > 0 {
      assert forall k :: 0 <= k < |xs| - 1 ==> xs[1..][k] == xs[k + 1] && ys[1..][k] == ys[k + 1];
      SumBagsPointwise(xs[1..], ys[1..], x, keep);
    }
  }

  /** The sequences one after the other (`for x in xs: arts.extend(x)`):
      every element as often as the sequences together hold it. */
  function Concat<T(!new)>(ss: seq<seq<T>>): (r: seq<T>)
    ensures forall x :: x in r <==> exists i :: 0 <= i < |ss| && x in ss[i]
  {
    if |ss| == 0 then []
    else
      var rest := Concat(ss[1..]);
      assert forall i :: 1 <= i < |ss| ==> ss[i] == ss[1..][i - 1];
      ss[0] + rest
  }

  /** A position where an element of the sequence sits. */
  lemma IndexOf<T>(s: seq<T>, x: T) returns (k: int)
    requires x in s
    ensures 0 <= k < |s| && s[k] == x
  {
    k :| 0 <= k < |s| && s[k] == x;
  }

  /** The concatenation holds each element as often as the pieces do
      together. */
  lemma {:induction false} ConcatBag<T(!new)>(ss: seq<seq<T>>)
    ensures multiset(Concat(ss)) == SumBags(Bags(ss))
  {
    if |ss| > 0 {
      ConcatBag(ss[1..]);
      assert Bags(ss)[1..] == Bags(ss[1..]);
    }
  }
}
