/** Sequence helpers: first-match search, orderings, flattening and the
    sort used by the chunk splitter (`Vec::sort_unstable` on `usize`). */
module Seqs {
  import opened Outcomes

  /** Index of the first element satisfying `p`, as `Iterator::position` finds it. */
  function FirstIndex<X>(s: seq<X>, p: X -> bool): (r: Option<nat>)
    ensures r.Some? ==> r.value < |s| && p(s[r.value])
    ensures r.Some? ==> forall j :: 0 <= j < r.value ==> !p(s[j])
    ensures r.None? <==> forall j :: 0 <= j < |s| ==> !p(s[j])
  {
    if |s| == 0 then None
    else if p(s[0]) then Some(0)
    else match FirstIndex(s[1..], p)
      case None => None
      case Some(k) => Some(k + 1)
  }

  ghost predicate NonDecreasing(s: seq<nat>) {
    forall i, j :: 0 <= i < j < |s| ==> s[i] <= s[j]
  }

  ghost predicate StrictlyIncreasing(s: seq<nat>) {
    forall i, j :: 0 <= i < j < |s| ==> s[i] < s[j]
  }

  /** Concatenation of a sequence of sequences, in order. */
  function Flatten<X>(ss: seq<seq<X>>): seq<X> {
    if |ss| == 0 then [] else ss[0] + Flatten(ss[1..])
  }

  lemma {:induction false} FlattenAppend<X>(a: seq<seq<X>>, b: seq<seq<X>>)
    ensures Flatten(a + b) == Flatten(a) + Flatten(b)
  {
    if |a| == 0 {
      assert a + b == b;
    } else {
      assert (a + b)[1..] == a[1..] + b;
      FlattenAppend(a[1..], b);
    }
  }

  /** Head and tail of a concatenation whose left part is non-empty. */
  lemma AppendHeadTail<X>(a: seq<X>, b: seq<X>)
    requires |a| > 0
    ensures (a + b)[0] == a[0] && (a + b)[1..] == a[1..] + b
  {
  }

  /** A relation that holds pointwise between two tails and between the two
      heads holds pointwise between the whole sequences. */
  lemma PointwiseInFront<A, B>(xs: seq<A>, y: B, ys: seq<B>, rel: (A, B) -> bool)
    requires |xs| == |ys| + 1 && rel(xs[0], y)
    requires forall k :: 0 <= k < |ys| ==> rel(xs[1..][k], ys[k])
    ensures forall k :: 0 <= k < |xs| ==> rel(xs[k], ([y] + ys)[k])
  {
    forall k | 0 < k < |xs|
      ensures rel(xs[k], ([y] + ys)[k])
    {
      assert xs[k] == xs[1..][k - 1];
    }
  }

  /** Inserts `x` into a non-decreasing sequence, keeping it non-decreasing. */
  function Insert(x: nat, s: seq<nat>): (r: seq<nat>)
    requires NonDecreasing(s)
    ensures NonDecreasing(r)
    ensures multiset(r) == multiset(s) + multiset{x}
    ensures |r| == |s| + 1
  {
    if |s| == 0 then [x]
    else if x <= s[0] then [x] + s
    else
      var tail := Insert(x, s[1..]);
      InsertBehindHead(x, s, tail);
      [s[0]] + tail
  }

  /** `Insert` past the head: the head stays in front of the insertion into
      the tail. */
  lemma InsertBehindHead(x: nat, s: seq<nat>, tail: seq<nat>)
    requires |s| > 0 && NonDecreasing(s) && s[0] < x
    requires NonDecreasing(tail) && multiset(tail) == multiset(s[1..]) + multiset{x}
    ensures NonDecreasing([s[0]] + tail)
    ensures multiset([s[0]] + tail) == multiset(s) + multiset{x}
  {
    assert forall k :: 0 <= k < |s[1..]| ==> s[0] <= s[1..][k];
    LowerBoundKept(s[0], x, s[1..], tail);
    assert s == [s[0]] + s[1..];
  }

  /** A bound below every element of `rest` and below `x` is below every
      element of a permutation of `rest` plus `x`. */
  lemma LowerBoundKept(lo: nat, x: nat, rest: seq<nat>, r: seq<nat>)
    requires lo <= x && forall k :: 0 <= k < |rest| ==> lo <= rest[k]
    requires multiset(r) == multiset(rest) + multiset{x}
    ensures forall k :: 0 <= k < |r| ==> lo <= r[k]
  {
    forall k | 0 <= k < |r|
      ensures lo <= r[k]
    {
      assert r[k] in multiset(r);
      if r[k] != x {
        assert r[k] in multiset(rest);
        var j :| 0 <= j < |rest| && rest[j] == r[k];
      }
    }
  }

  /** Insertion sort: the model of `sort_unstable` on a `Vec<usize>` (equal
      keys are indistinguishable, so stability does not matter). */
  function SortNats(s: seq<nat>): (r: seq<nat>)
    ensures NonDecreasing(r)
    ensures multiset(r) == multiset(s)
  {
    if |s| == 0 then []
    else
      assert s == [s[0]] + s[1..];
      Insert(s[0], SortNats(s[1..]))
  }

  /** A non-decreasing sequence is its own sorted form. */
  lemma {:induction false} SortSorted(s: seq<nat>)
    requires NonDecreasing(s)
    ensures SortNats(s) == s
  {
    if |s| > 0 {
      SortSorted(s[1..]);
      assert SortNats(s[1..]) == s[1..];
    }
  }
}
