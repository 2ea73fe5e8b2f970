/** `find_splits`: where to cut a long unit sequence into chunks the
    Tacotron2 encoder can take in one call.

    Units are scored by `split_score` (3 for a sentence end or padding, 2 for
    a pause, 1 for a space, 0 otherwise). The sentence ends are taken first;
    gaps still longer than `max_size` are refined with pauses and then with
    spaces; finally neighbouring pieces are merged back greedily while they
    fit, and the positions where a chunk ends are returned. */
module ChunkSplitter {
  import opened Seqs
  import opened Phonemes

  /** `split_score` of every unit, in order. */
  function Scores(units: seq<Unit>): seq<nat> {
    seq(|units|, i requires 0 <= i < |units| => SplitScore(units[i]))
  }

  /** Positions `p` with `lo <= p < hi` whose score exceeds `t`, in
      increasing order: the `filter` over `punct_and_spaces`. */
  function Above(scores: seq<nat>, lo: nat, hi: nat, t: nat): (ps: seq<nat>)
    ensures forall k :: 0 <= k < |ps| ==> lo <= ps[k] < hi && ps[k] < |scores| && scores[ps[k]] > t
    decreases hi - lo
  {
    if lo >= hi || lo >= |scores| then []
    else (if scores[lo] > t then [lo] else []) + Above(scores, lo + 1, hi, t)
  }

  /** `Above` lists its positions in increasing order. */
  lemma {:induction false} AboveIncreasing(scores: seq<nat>, lo: nat, hi: nat, t: nat)
    ensures StrictlyIncreasing(Above(scores, lo, hi, t))
    decreases hi - lo
  {
    if lo < hi && lo < |scores| {
      AboveIncreasing(scores, lo + 1, hi, t);
      var rest := Above(scores, lo + 1, hi, t);
      if scores[lo] > t {
        ConsIncreasing(lo, rest);
      } else {
        assert [] + rest == rest;
      }
    }
  }

  lemma ConsIncreasing(x: nat, s: seq<nat>)
    requires StrictlyIncreasing(s) && forall k :: 0 <= k < |s| ==> x < s[k]
    ensures StrictlyIncreasing([x] + s)
  {
    var c := [x] + s;
    forall i, j | 0 <= i < j < |c|
      ensures c[i] < c[j]
    {
      assert c[j] == s[j - 1];
      if i > 0 {
        assert c[i] == s[i - 1];
      }
    }
  }

  /** Where `Above` lists a position of its window that scores above `t`. */
  lemma {:induction false} AbovePosition(scores: seq<nat>, lo: nat, hi: nat, t: nat, p: nat) returns (i: nat)
    requires lo <= p < hi && p < |scores| && scores[p] > t
    ensures i < |Above(scores, lo, hi, t)| && Above(scores, lo, hi, t)[i] == p
    decreases hi - lo
  {
    var first: seq<nat> := if scores[lo] > t then [lo] else [];
    assert Above(scores, lo, hi, t) == first + Above(scores, lo + 1, hi, t);
    if p == lo {
      i := 0;
    } else {
      var j := AbovePosition(scores, lo + 1, hi, t, p);
      i := |first| + j;
    }
  }

  /** `Above` misses no position in its window that scores above `t`. */
  lemma {:induction false} AboveComplete(scores: seq<nat>, lo: nat, hi: nat, t: nat, p: nat)
    requires lo <= p < hi && p < |scores| && scores[p] > t
    ensures p in Above(scores, lo, hi, t)
    decreases hi - lo
  {
    if p > lo {
      AboveComplete(scores, lo + 1, hi, t, p);
    }
  }

  /** The reference that follows `results[j]` when `results[..k]` is scanned
      back to front starting from `lastRef`: the next result, or `lastRef`
      for the last one. */
  function Bound(results: seq<nat>, j: nat, k: nat, lastRef: nat): nat
    requires j < k <= |results|
  {
    if j + 1 < k then results[j + 1] else lastRef
  }

  /** One scan of the `while scan` loop over `results[..k]`, back to front,
      with `lastRef` the index visited before: each gap longer than `max`
      contributes the positions strictly between `index + 1` and `lastRef`
      scoring above `t`. Also reports whether any gap was too long. */
  function Pass(scores: seq<nat>, results: seq<nat>, k: nat, lastRef: nat, max: nat, t: nat): (r: (seq<nat>, bool))
    requires k <= |results|
    ensures forall x :: x in r.0 ==> x < |scores| && scores[x] > t
    decreases k
  {
    if k == 0 then ([], false)
    else
      var index := results[k - 1];
      var long := lastRef - index > max;
      var here := if long then Above(scores, index + 2, lastRef, t) else [];
      var rest := Pass(scores, results, k - 1, index, max, t);
      (here + rest.0, long || rest.1)
  }

  /** A pass reports a gap whenever one of the gaps it scans is longer than
      `max`. */
  lemma {:induction false} PassSeesLongGap(scores: seq<nat>, results: seq<nat>, k: nat, lastRef: nat, max: nat, t: nat, j: nat)
    requires j < k <= |results|
    requires Bound(results, j, k, lastRef) - results[j] > max
    ensures Pass(scores, results, k, lastRef, max, t).1
    decreases k
  {
    var index := results[k - 1];
    if j < k - 1 {
      assert Bound(results, j, k, lastRef) == Bound(results, j, k - 1, index);
      PassSeesLongGap(scores, results, k - 1, index, max, t, j);
    }
  }

  /** A pass that reports a gap has scanned one longer than `max`; `j` is
      the entry that starts it. */
  lemma {:induction false} PassGapWitness(scores: seq<nat>, results: seq<nat>, k: nat, lastRef: nat, max: nat, t: nat) returns (j: nat)
    requires k <= |results| && Pass(scores, results, k, lastRef, max, t).1
    ensures j < k && Bound(results, j, k, lastRef) - results[j] > max
    decreases k
  {
    var index := results[k - 1];
    if lastRef - index > max {
      j := k - 1;
    } else {
      j := PassGapWitness(scores, results, k - 1, index, max, t);
      assert Bound(results, j, k, lastRef) == Bound(results, j, k - 1, index);
    }
  }

  /** A pass reports a gap exactly when one of the gaps it scans is longer
      than `max`. */
  lemma PassReportsLongGap(scores: seq<nat>, results: seq<nat>, k: nat, lastRef: nat, max: nat, t: nat)
    requires k <= |results|
    ensures Pass(scores, results, k, lastRef, max, t).1
            <==> exists j :: 0 <= j < k && Bound(results, j, k, lastRef) - results[j] > max
  {
    if Pass(scores, results, k, lastRef, max, t).1 {
      var j := PassGapWitness(scores, results, k, lastRef, max, t);
    }
    if exists j :: 0 <= j < k && Bound(results, j, k, lastRef) - results[j] > max {
      var j :| 0 <= j < k && Bound(results, j, k, lastRef) - results[j] > max;
      PassSeesLongGap(scores, results, k, lastRef, max, t, j);
    }
  }

  /** What a pass collects over its first `k - 1` gaps it still holds after
      the `k`th. */
  lemma PassKeepsRest(scores: seq<nat>, results: seq<nat>, k: nat, lastRef: nat, max: nat, t: nat, p: nat)
    requires 0 < k <= |results|
    requires p in Pass(scores, results, k - 1, results[k - 1], max, t).0
    ensures p in Pass(scores, results, k, lastRef, max, t).0
  {
  }

  /** A pass collects the qualifying positions of the last gap it scans when
      that gap is too long. */
  lemma PassCollectsLast(scores: seq<nat>, results: seq<nat>, k: nat, lastRef: nat, max: nat, t: nat, p: nat)
    requires 0 < k <= |results| && lastRef - results[k - 1] > max
    requires results[k - 1] + 1 < p < lastRef && p < |scores| && scores[p] > t
    ensures p in Pass(scores, results, k, lastRef, max, t).0
  {
    var i := AbovePosition(scores, results[k - 1] + 2, lastRef, t, p);
    PassLongGapFirst(scores, results, k, lastRef, max, t, i);
  }

  /** A pass over a too-long last gap lists that gap's positions first. */
  lemma PassLongGapFirst(scores: seq<nat>, results: seq<nat>, k: nat, lastRef: nat, max: nat, t: nat, i: nat)
    requires 0 < k <= |results| && lastRef - results[k - 1] > max
    requires i < |Above(scores, results[k - 1] + 2, lastRef, t)|
    ensures var r := Pass(scores, results, k, lastRef, max, t).0;
      i < |r| && r[i] == Above(scores, results[k - 1] + 2, lastRef, t)[i]
  {
    PassLongGap(scores, results, k, lastRef, max, t);
  }

  /** A pass collects every position inside a too-long gap (past the
      position right after the gap's start) that scores above the
      threshold. */
  lemma {:induction false} PassCollects(scores: seq<nat>, results: seq<nat>, k: nat, lastRef: nat, max: nat, t: nat, j: nat, p: nat)
    requires j < k <= |results|
    requires Bound(results, j, k, lastRef) - results[j] > max
    requires results[j] + 1 < p < Bound(results, j, k, lastRef) && p < |scores| && scores[p] > t
    ensures p in Pass(scores, results, k, lastRef, max, t).0
    decreases k
  {
    var index := results[k - 1];
    if j < k - 1 {
      assert Bound(results, j, k, lastRef) == Bound(results, j, k - 1, index);
      PassCollects(scores, results, k - 1, index, max, t, j, p);
      PassKeepsRest(scores, results, k, lastRef, max, t, p);
    } else {
      PassCollectsLast(scores, results, k, lastRef, max, t, p);
    }
  }

  /** The `while scan` loop: a pass at threshold `t`; the new indexes are
      appended and the results sorted when a gap was too long, and the loop
      goes round again, one threshold lower, while the threshold allows. */
  function Refine(scores: seq<nat>, results: seq<nat>, max: nat, t: nat): seq<nat>
    decreases t
  {
    var pass := Pass(scores, results, |results|, |scores|, max, t);
    var next := if pass.1 then SortNats(results + pass.0) else results;
    if pass.1 && t > 0 then Refine(scores, next, max, t - 1) else next
  }

  /** The split candidates before merging: 0, the sentence ends, and the
      refinements at thresholds 1 and then 0. */
  function RefinedSplits(units: seq<Unit>, max: nat): seq<nat> {
    var scores := Scores(units);
    Refine(scores, [0] + Above(scores, 0, |scores|, 2), max, 1)
  }

  /** Sorted, holding 0, and every entry is 0 or the position of a space, a
      pause or a sentence end. */
  ghost predicate SplitPoints(scores: seq<nat>, results: seq<nat>) {
    && NonDecreasing(results)
    && 0 in results
    && forall k :: 0 <= k < |results| ==> results[k] == 0 || (results[k] < |scores| && scores[results[k]] > 0)
  }

  /** Appending split positions and sorting keeps `SplitPoints`, loses
      nothing and adds nothing else. */
  lemma SortedUnion(scores: seq<nat>, results: seq<nat>, extra: seq<nat>)
    requires SplitPoints(scores, results)
    requires forall x :: x in extra ==> x < |scores| && scores[x] > 0
    ensures var r := SortNats(results + extra);
      && SplitPoints(scores, r)
      && forall x :: x in r <==> x in results || x in extra
  {
    var r := SortNats(results + extra);
    forall x
      ensures x in r <==> x in results || x in extra
    {
      assert x in r <==> x in multiset(r);
      assert x in results + extra <==> x in multiset(results + extra);
    }
    forall k | 0 <= k < |r|
      ensures r[k] == 0 || (r[k] < |scores| && scores[r[k]] > 0)
    {
      assert r[k] in r;
      if r[k] in results {
        var m :| 0 <= m < |results| && results[m] == r[k];
      }
    }
  }

  /** The starting list `[0]` plus the sentence ends satisfies `SplitPoints`. */
  lemma InitialSplitPoints(scores: seq<nat>)
    ensures SplitPoints(scores, [0] + Above(scores, 0, |scores|, 2))
  {
    AboveIncreasing(scores, 0, |scores|, 2);
    ZeroThenPoints(scores, Above(scores, 0, |scores|, 2));
  }

  lemma ZeroThenPoints(scores: seq<nat>, a: seq<nat>)
    requires forall k :: 0 <= k < |a| ==> a[k] < |scores| && scores[a[k]] > 0
    requires StrictlyIncreasing(a)
    ensures SplitPoints(scores, [0] + a)
  {
    var r := [0] + a;
    assert r[0] == 0;
    forall i, j | 0 <= i < j < |r|
      ensures r[i] <= r[j]
    {
      assert r[j] == a[j - 1];
      if i > 0 {
        assert r[i] == a[i - 1];
      }
    }
    forall k | 0 <= k < |r|
      ensures r[k] == 0 || (r[k] < |scores| && scores[r[k]] > 0)
    {
      if k > 0 {
        assert r[k] == a[k - 1];
      }
    }
  }

  /** Refinement keeps `SplitPoints` and only ever adds entries. */
  lemma {:induction false} RefineKeepsSplitPoints(scores: seq<nat>, results: seq<nat>, max: nat, t: nat)
    requires SplitPoints(scores, results)
    ensures var r := Refine(scores, results, max, t);
      SplitPoints(scores, r) && forall x :: x in results ==> x in r
    decreases t
  {
    var pass := Pass(scores, results, |results|, |scores|, max, t);
    if pass.1 && t > 0 {
      var next := SortNats(results + pass.0);
      PassKeepsSplitPoints(scores, results, max, t);
      RefineKeepsSplitPoints(scores, next, max, t - 1);
      assert Refine(scores, results, max, t) == Refine(scores, next, max, t - 1);
    } else if pass.1 {
      PassKeepsSplitPoints(scores, results, max, t);
    }
  }

  /** One pass, with its additions sorted in, keeps `SplitPoints` and loses
      no entry. */
  lemma PassKeepsSplitPoints(scores: seq<nat>, results: seq<nat>, max: nat, t: nat)
    requires SplitPoints(scores, results)
    ensures var next := SortNats(results + Pass(scores, results, |results|, |scores|, max, t).0);
      SplitPoints(scores, next) && forall x :: x in results ==> x in next
  {
    SortedUnion(scores, results, Pass(scores, results, |results|, |scores|, max, t).0);
  }

  /** No gap of `results` longer than `max` has a space, pause or sentence
      end inside it past the position right after the gap's start. */
  ghost predicate Saturated(scores: seq<nat>, results: seq<nat>, max: nat) {
    forall j, p ::
      (0 <= j < |results| && Bound(results, j, |results|, |scores|) - results[j] > max
       && results[j] + 1 < p < Bound(results, j, |results|, |scores|) && p < |scores|) ==> scores[p] == 0
  }

  /** Index of the last entry of a sorted list below `p`. */
  lemma LastBelow(s: seq<nat>, p: nat) returns (i: nat)
    requires NonDecreasing(s) && 0 in s && p > 0
    ensures i < |s| && s[i] < p && (i + 1 < |s| ==> s[i + 1] >= p)
  {
    var z :| 0 <= z < |s| && s[z] == 0;
    assert s[0] <= s[z];
    i := 0;
    while i + 1 < |s| && s[i + 1] < p
      invariant i < |s| && s[i] < p
      decreases |s| - i
    {
      i := i + 1;
    }
  }

  /** Under `SplitPoints` no entry lies strictly inside the gap that follows
      the `j`th entry. */
  lemma SortedGap(scores: seq<nat>, r: seq<nat>, j: nat, x: nat)
    requires SplitPoints(scores, r) && j < |r| && x in r
    ensures x <= r[j] || x >= Bound(r, j, |r|, |scores|)
  {
    var m :| 0 <= m < |r| && r[m] == x;
    if m > j {
      assert r[j + 1] <= r[m];
    }
  }

  /** One gap of the results after a pass at threshold 0: a split position
      inside it would lie inside a too-long gap of the results before the
      pass, which the pass collects. */
  lemma ZeroPassPoint(scores: seq<nat>, results: seq<nat>, max: nat, j: nat, p: nat)
    requires SplitPoints(scores, results)
    requires var r := SortNats(results + Pass(scores, results, |results|, |scores|, max, 0).0);
      && j < |r| && Bound(r, j, |r|, |scores|) - r[j] > max
      && r[j] + 1 < p < Bound(r, j, |r|, |scores|) && p < |scores|
    ensures scores[p] == 0
  {
    var added := Pass(scores, results, |results|, |scores|, max, 0).0;
    var r := SortNats(results + added);
    var len := |scores|;
    SortedUnion(scores, results, added);
    if scores[p] > 0 {
      var b := Bound(r, j, |r|, len);
      var i := LastBelow(results, p);
      SortedGap(scores, r, j, results[i]);
      if i + 1 < |results| {
        SortedGap(scores, r, j, results[i + 1]);
      } else if j + 1 < |r| {
        assert r[j + 1] in r;
      }
      assert results[i] <= r[j] && Bound(results, i, |results|, len) >= b;
      PassCollects(scores, results, |results|, len, max, 0, i, p);
      SortedGap(scores, r, j, p);
    }
  }

  /** After a pass at threshold 0 has added its positions, no too-long gap
      has a split position left inside it. */
  lemma ZeroPassSaturates(scores: seq<nat>, results: seq<nat>, max: nat)
    requires SplitPoints(scores, results)
    ensures Saturated(scores, SortNats(results + Pass(scores, results, |results|, |scores|, max, 0).0), max)
  {
    var r := SortNats(results + Pass(scores, results, |results|, |scores|, max, 0).0);
    forall j, p | 0 <= j < |r| && Bound(r, j, |r|, |scores|) - r[j] > max && r[j] + 1 < p < Bound(r, j, |r|, |scores|) && p < |scores|
      ensures scores[p] == 0
    {
      ZeroPassPoint(scores, results, max, j, p);
    }
  }

  /** Refinement leaves no too-long gap that a space, pause or sentence end
      could still split. */
  lemma {:induction false} RefineSaturates(scores: seq<nat>, results: seq<nat>, max: nat, t: nat)
    requires SplitPoints(scores, results)
    ensures Saturated(scores, Refine(scores, results, max, t), max)
    decreases t
  {
    var pass := Pass(scores, results, |results|, |scores|, max, t);
    if pass.1 {
      var next := SortNats(results + pass.0);
      if t > 0 {
        assert SplitPoints(scores, next) by {
          SortedUnion(scores, results, pass.0);
        }
        RefineSaturates(scores, next, max, t - 1);
      } else {
        ZeroPassSaturates(scores, results, max);
      }
    } else {
      NoLongGapSaturated(scores, results, max, t);
    }
  }

  /** A pass that finds no long gap leaves the results saturated. */
  lemma NoLongGapSaturated(scores: seq<nat>, results: seq<nat>, max: nat, t: nat)
    requires !Pass(scores, results, |results|, |scores|, max, t).1
    ensures Saturated(scores, results, max)
  {
    PassReportsLongGap(scores, results, |results|, |scores|, max, t);
  }

  /** State of the merge loop: `merged_results`, `running_total` and
      `last_insert`. */
  datatype MergeState = MergeState(merged: seq<nat>, running: int, last: nat)

  function MergeStep(st: MergeState, i: nat, max: nat): MergeState {
    if (i - st.last) + st.running > max then MergeState(st.merged + [st.last], i - st.last, i)
    else MergeState(st.merged, st.running + (i - st.last), i)
  }

  /** The merge loop from `results[n]` on. */
  function MergeFold(st: MergeState, results: seq<nat>, n: nat, max: nat): MergeState
    requires n <= |results|
    decreases |results| - n
  {
    if n == |results| then st else MergeFold(MergeStep(st, results[n], max), results, n + 1, max)
  }

  /** The merge loop and the check after it, before `dedup`. */
  function MergeSplits(results: seq<nat>, len: nat, max: nat): seq<nat> {
    var st := MergeFold(MergeState([], 0, 0), results, 0, max);
    if st.running + (len - st.last) > max && |results| > 0 then st.merged + [results[|results| - 1]]
    else st.merged
  }

  /** `Vec::dedup`: drops every element equal to the one before it. */
  function Dedup(s: seq<nat>): (r: seq<nat>)
    ensures forall x :: x in r <==> x in s
    ensures NonDecreasing(s) ==> StrictlyIncreasing(r)
    ensures |s| > 0 ==> |r| > 0 && r[0] == s[0]
  {
    if |s| <= 1 then s
    else
      var tail := Dedup(s[1..]);
      if s[0] == s[1] then tail else [s[0]] + tail
  }

  /** `find_splits(units, max_size)`. */
  function FindSplits(units: seq<Unit>, max: nat): seq<nat> {
    Dedup(MergeSplits(RefinedSplits(units, max), |units|, max))
  }

  /** A reading of the merge loop without the running total: `anchor` is
      where the current chunk starts; moving on to result `i`, the chunk is
      closed at the previous result when `i` lies more than `max` past the
      anchor. */
  datatype Greedy = Greedy(splits: seq<nat>, anchor: nat, last: nat)

  function GreedyStep(g: Greedy, i: nat, max: nat): Greedy {
    if i - g.anchor > max then Greedy(g.splits + [g.last], g.last, i) else Greedy(g.splits, g.anchor, i)
  }

  function GreedyFold(g: Greedy, rs: seq<nat>, n: nat, max: nat): Greedy
    requires n <= |rs|
    decreases |rs| - n
  {
    if n == |rs| then g else GreedyFold(GreedyStep(g, rs[n], max), rs, n + 1, max)
  }

  function GreedySplits(results: seq<nat>, len: nat, max: nat): seq<nat> {
    var g := GreedyFold(Greedy([], 0, 0), results, 0, max);
    if len - g.anchor > max && |results| > 0 then g.splits + [results[|results| - 1]] else g.splits
  }

  /** The running total is always the distance from the current chunk's
      start to the last result seen. */
  lemma {:induction false} MergeFoldIsGreedy(g: Greedy, rs: seq<nat>, n: nat, max: nat)
    requires n <= |rs|
    ensures var h := GreedyFold(g, rs, n, max);
      MergeFold(MergeState(g.splits, g.last - g.anchor, g.last), rs, n, max)
        == MergeState(h.splits, h.last - h.anchor, h.last)
    decreases |rs| - n
  {
    if n < |rs| {
      var next := GreedyStep(g, rs[n], max);
      assert MergeStep(MergeState(g.splits, g.last - g.anchor, g.last), rs[n], max)
        == MergeState(next.splits, next.last - next.anchor, next.last);
      MergeFoldIsGreedy(next, rs, n + 1, max);
    }
  }

  /** The merge loop of `find_splits` is the greedy chunking above. */
  lemma MergeIsGreedy(results: seq<nat>, len: nat, max: nat)
    ensures MergeSplits(results, len, max) == GreedySplits(results, len, max)
  {
    MergeFoldIsGreedy(Greedy([], 0, 0), results, 0, max);
  }

  ghost predicate AllAtMost(s: seq<nat>, x: nat) {
    forall k :: 0 <= k < |s| ==> s[k] <= x
  }

  lemma AppendSorted(s: seq<nat>, x: nat)
    requires NonDecreasing(s) && AllAtMost(s, x)
    ensures NonDecreasing(s + [x])
  {
  }

  /** Over sorted results, the chunk ends the greedy fold records stay
      sorted, each is the starting `last` or one of the results, and none
      exceeds the last result seen. */
  lemma {:induction false} GreedyFoldSorted(g: Greedy, rs: seq<nat>, n: nat, max: nat)
    requires n <= |rs|
    requires NonDecreasing(g.splits) && AllAtMost(g.splits, g.last)
    requires NonDecreasing(rs) && (n < |rs| ==> g.last <= rs[n])
    ensures var h := GreedyFold(g, rs, n, max);
      && NonDecreasing(h.splits) && AllAtMost(h.splits, h.last)
      && (forall x :: x in h.splits ==> x in g.splits || x == g.last || x in rs)
      && h.last == (if n == |rs| then g.last else rs[|rs| - 1])
    decreases |rs| - n
  {
    if n < |rs| {
      var next := GreedyStep(g, rs[n], max);
      if rs[n] - g.anchor > max {
        AppendSorted(g.splits, g.last);
      }
      assert AllAtMost(next.splits, rs[n]);
      GreedyFoldSorted(next, rs, n + 1, max);
    }
  }

  /** Every step from one bound to the next goes forward by at most `max`. */
  ghost predicate Steps(b: seq<nat>, max: nat) {
    forall k :: 0 <= k < |b| - 1 ==> b[k] <= b[k + 1] <= b[k] + max
  }

  /** Every step goes strictly forward, by at most `max`. */
  ghost predicate Chain(b: seq<nat>, max: nat) {
    forall k :: 0 <= k < |b| - 1 ==> b[k] < b[k + 1] <= b[k] + max
  }

  /** With the chunk ends `splits`, the chunks `[0, s1)`, `[s1, s2)`, ...,
      `[sk, len)` each hold at most `max` units. */
  ghost predicate ChunksFit(splits: seq<nat>, len: nat, max: nat) {
    Steps([0] + splits + [len], max)
  }

  lemma {:induction false} ChainOrdered(b: seq<nat>, max: nat, i: nat, j: nat)
    requires Chain(b, max) && i < j < |b|
    ensures b[i] < b[j]
    decreases j - i
  {
    if j > i + 1 {
      ChainOrdered(b, max, i, j - 1);
    }
  }

  lemma ChainIncreasing(b: seq<nat>, max: nat)
    requires Chain(b, max)
    ensures StrictlyIncreasing(b)
  {
    forall i, j | 0 <= i < j < |b|
      ensures b[i] < b[j]
    {
      ChainOrdered(b, max, i, j);
    }
  }

  lemma ChainAppend(c: seq<nat>, x: nat, max: nat)
    requires Chain(c, max) && |c| > 0 && c[|c| - 1] < x <= c[|c| - 1] + max
    ensures Chain(c + [x], max)
  {
  }

  lemma ChainThenStep(c: seq<nat>, len: nat, max: nat)
    requires Chain(c, max) && |c| > 0 && c[|c| - 1] <= len <= c[|c| - 1] + max
    ensures Steps(c + [len], max)
  {
  }

  lemma StepsTail(b: seq<nat>, max: nat)
    requires Steps(b, max) && |b| > 0
    ensures Steps(b[1..], max)
  {
  }

  /** When consecutive results are at most `max` apart, the greedy fold
      keeps its chunk ends strictly increasing from 0, each chunk at most
      `max` long, and the last result seen at most `max` past the current
      chunk's start. */
  lemma {:induction false} GreedyFoldFits(g: Greedy, rs: seq<nat>, n: nat, len: nat, max: nat)
    requires n <= |rs|
    requires Chain([0] + g.splits, max) && g.anchor == ([0] + g.splits)[|g.splits|]
    requires g.anchor <= g.last <= g.anchor + max
    requires Steps([0] + rs + [len], max) && g.last == ([0] + rs)[n]
    ensures var h := GreedyFold(g, rs, n, max);
      && Chain([0] + h.splits, max) && h.anchor == ([0] + h.splits)[|h.splits|]
      && h.anchor <= h.last <= h.anchor + max
      && h.last == ([0] + rs)[|rs|]
    decreases |rs| - n
  {
    if n < |rs| {
      var b := [0] + rs + [len];
      var i := rs[n];
      assert b[n] == g.last && b[n + 1] == i;
      var next := GreedyStep(g, i, max);
      if i - g.anchor > max {
        ChainAppend([0] + g.splits, g.last, max);
        assert [0] + next.splits == ([0] + g.splits) + [g.last];
      }
      GreedyFoldFits(next, rs, n + 1, len, max);
    }
  }

  /** When the results leave no gap longer than `max` (counting from 0 and up
      to `len`), the merged chunk ends are strictly increasing, start after 0
      and leave every chunk at most `max` long. */
  lemma GreedyFits(results: seq<nat>, len: nat, max: nat)
    requires ChunksFit(results, len, max)
    ensures var out := GreedySplits(results, len, max);
      StrictlyIncreasing([0] + out) && ChunksFit(out, len, max)
  {
    var g := Greedy([], 0, 0);
    assert [0] + g.splits == [0];
    GreedyFoldFits(g, results, 0, len, max);
    var h := GreedyFold(g, results, 0, max);
    var b := [0] + results + [len];
    assert b[|results|] == h.last && b[|results| + 1] == len;
    var c := [0] + h.splits;
    var out := GreedySplits(results, len, max);
    if len - h.anchor > max && |results| > 0 {
      ChainAppend(c, h.last, max);
      assert [0] + out == c + [h.last];
      ChainThenStep(c + [h.last], len, max);
      ChainIncreasing(c + [h.last], max);
    } else {
      assert [0] + out == c;
      ChainThenStep(c, len, max);
      ChainIncreasing(c, max);
    }
  }

  /** Some position among the `max - 1` from `x` holds a space, pause or
      sentence end. */
  ghost predicate WindowHasSplitPoint(scores: seq<nat>, x: nat, max: nat) {
    exists p :: x <= p < x + max - 1 && p < |scores| && scores[p] > 0
  }

  /** No run of `max - 1` units goes without a space, pause or sentence end. */
  ghost predicate DenseSplitPoints(scores: seq<nat>, max: nat) {
    max >= 2 && forall x: nat :: x + max - 1 <= |scores| ==> WindowHasSplitPoint(scores, x, max)
  }

  /** In saturated results over densely split text, no gap is longer than
      `max`. */
  lemma SaturatedGap(scores: seq<nat>, results: seq<nat>, max: nat, j: nat)
    requires Saturated(scores, results, max) && DenseSplitPoints(scores, max)
    requires j < |results| && results[j] <= Bound(results, j, |results|, |scores|) <= |scores|
    ensures Bound(results, j, |results|, |scores|) - results[j] <= max
  {
    if Bound(results, j, |results|, |scores|) - results[j] > max {
      var p := PointInWindow(scores, results[j] + 2, max);
    }
  }

  lemma PointInWindow(scores: seq<nat>, x: nat, max: nat) returns (p: nat)
    requires DenseSplitPoints(scores, max) && x + max - 1 <= |scores|
    ensures x <= p < x + max - 1 && p < |scores| && scores[p] > 0
  {
    assert WindowHasSplitPoint(scores, x, max);
    p :| x <= p < x + max - 1 && p < |scores| && scores[p] > 0;
  }

  /** Entries of `SplitPoints` results lie within the units, each no later
      than the one after it. */
  lemma GapWithin(scores: seq<nat>, results: seq<nat>, j: nat)
    requires SplitPoints(scores, results) && j < |results|
    ensures results[j] <= Bound(results, j, |results|, |scores|) <= |scores|
  {
  }

  /** Results starting at 0 whose every gap is at most `max` long cut the
      units into chunks that fit. */
  lemma GapsFit(results: seq<nat>, len: nat, max: nat)
    requires |results| > 0 && results[0] == 0
    requires forall j :: 0 <= j < |results| ==> results[j] <= Bound(results, j, |results|, len) <= results[j] + max
    ensures ChunksFit(results, len, max)
  {
    var b := [0] + results + [len];
    forall k | 0 <= k < |b| - 1
      ensures b[k] <= b[k + 1] <= b[k] + max
    {
      if k > 0 {
        assert b[k] == results[k - 1] && b[k + 1] == Bound(results, k - 1, |results|, len);
      }
    }
  }

  /** Saturated results over densely split text leave no gap longer than
      `max`. */
  lemma SaturatedFits(scores: seq<nat>, results: seq<nat>, max: nat)
    requires SplitPoints(scores, results) && Saturated(scores, results, max)
    requires DenseSplitPoints(scores, max)
    ensures ChunksFit(results, |scores|, max)
  {
    var z :| 0 <= z < |results| && results[z] == 0;
    assert results[0] <= results[z];
    forall j | 0 <= j < |results|
      ensures results[j] <= Bound(results, j, |results|, |scores|) <= results[j] + max
    {
      GapWithin(scores, results, j);
      SaturatedGap(scores, results, max, j);
    }
    GapsFit(results, |scores|, max);
  }

  /** `dedup` leaves a strictly increasing list alone. */
  lemma {:induction false} DedupStrict(s: seq<nat>)
    requires StrictlyIncreasing(s)
    ensures Dedup(s) == s
  {
    if |s| > 1 {
      DedupStrict(s[1..]);
      assert s == [s[0]] + s[1..];
    }
  }

  /** Over sorted results the merged list is sorted and holds only results. */
  lemma GreedySplitsSorted(results: seq<nat>, len: nat, max: nat)
    requires NonDecreasing(results)
    ensures var m := GreedySplits(results, len, max);
      NonDecreasing(m) && forall x :: x in m ==> x == 0 || x in results
  {
    var g := Greedy([], 0, 0);
    GreedyFoldSorted(g, results, 0, max);
    var h := GreedyFold(g, results, 0, max);
    if len - h.anchor > max && |results| > 0 {
      AppendSorted(h.splits, h.last);
    }
  }

  /** Every position `find_splits` returns is 0 or the position of a space,
      pause or sentence end inside the units, and the positions come
      strictly increasing. */
  lemma FindSplitsAtSplitPoints(units: seq<Unit>, max: nat)
    ensures var out := FindSplits(units, max);
      && StrictlyIncreasing(out)
      && forall x :: x in out ==> x == 0 || (x < |units| && SplitScore(units[x]) > 0)
  {
    var results := RefinedSplits(units, max);
    RefinedSplitPoints(units, max);
    MergeIsGreedy(results, |units|, max);
    GreedySplitsSorted(results, |units|, max);
    var merged := MergeSplits(results, |units|, max);
    forall x | x in merged
      ensures x == 0 || (x < |units| && SplitScore(units[x]) > 0)
    {
      if x != 0 {
        var k :| 0 <= k < |results| && results[k] == x;
      }
    }
  }

  /** Units that fit in one chunk are not split at all. */
  lemma {:induction false} GreedyFoldShort(g: Greedy, rs: seq<nat>, n: nat, max: nat)
    requires n <= |rs|
    requires g.splits == [] && g.anchor == 0
    requires forall k :: 0 <= k < |rs| ==> rs[k] <= max
    ensures GreedyFold(g, rs, n, max).splits == [] && GreedyFold(g, rs, n, max).anchor == 0
    decreases |rs| - n
  {
    if n < |rs| {
      GreedyFoldShort(Greedy([], 0, rs[n]), rs, n + 1, max);
    }
  }

  lemma FindSplitsShort(units: seq<Unit>, max: nat)
    requires |units| <= max
    ensures FindSplits(units, max) == []
  {
    var results := RefinedSplits(units, max);
    RefinedSplitPoints(units, max);
    assert forall k :: 0 <= k < |results| ==> results[k] <= max;
    MergeIsGreedy(results, |units|, max);
    GreedyFoldShort(Greedy([], 0, 0), results, 0, max);
  }

  /** The refined results satisfy `SplitPoints`. */
  lemma RefinedSplitPoints(units: seq<Unit>, max: nat)
    ensures SplitPoints(Scores(units), RefinedSplits(units, max))
  {
    var scores := Scores(units);
    InitialSplitPoints(scores);
    RefineKeepsSplitPoints(scores, [0] + Above(scores, 0, |scores|, 2), max, 1);
  }

  /** When no run of `max - 1` units lacks a space, pause or sentence end,
      every chunk `find_splits` cuts holds at most `max` units, and no chunk
      is empty. */
  lemma FindSplitsFit(units: seq<Unit>, max: nat)
    requires DenseSplitPoints(Scores(units), max)
    ensures var out := FindSplits(units, max);
      StrictlyIncreasing([0] + out) && ChunksFit(out, |units|, max)
  {
    var results := RefinedSplits(units, max);
    RefinedFit(Scores(units), max);
    MergeIsGreedy(results, |units|, max);
    GreedyFits(results, |units|, max);
    var merged := GreedySplits(results, |units|, max);
    IncreasingTail(0, merged);
    DedupStrict(merged);
  }

  /** Over densely split text the refined results cut the units into chunks
      that fit. */
  lemma RefinedFit(scores: seq<nat>, max: nat)
    requires DenseSplitPoints(scores, max)
    ensures ChunksFit(Refine(scores, [0] + Above(scores, 0, |scores|, 2), max, 1), |scores|, max)
  {
    var initial := [0] + Above(scores, 0, |scores|, 2);
    InitialSplitPoints(scores);
    RefineKeepsSplitPoints(scores, initial, max, 1);
    RefineSaturates(scores, initial, max, 1);
    SaturatedFits(scores, Refine(scores, initial, max, 1), max);
  }

  lemma IncreasingTail(x: nat, s: seq<nat>)
    requires StrictlyIncreasing([x] + s)
    ensures StrictlyIncreasing(s)
  {
    assert forall k :: 0 <= k < |s| ==> s[k] == ([x] + s)[k + 1];
  }

  /** Two strictly increasing lists with the same elements are equal. */
  lemma {:induction false} IncreasingUnique(a: seq<nat>, b: seq<nat>)
    requires StrictlyIncreasing(a) && StrictlyIncreasing(b)
    requires forall x :: x in a <==> x in b
    ensures a == b
    decreases |a| + |b|
  {
    SameElementsEmpty(a, b);
    if |a| > 0 {
      assert a[0] == b[0] by {
        assert a[0] in b && b[0] in a;
      }
      forall x
        ensures x in a[1..] <==> x in b[1..]
      {
        if x in a[1..] {
          assert x in b && x != b[0];
        }
        if x in b[1..] {
          assert x in a && x != a[0];
        }
      }
      IncreasingUnique(a[1..], b[1..]);
      assert a == [a[0]] + a[1..] && b == [b[0]] + b[1..];
    }
  }

  lemma SameElementsEmpty(a: seq<nat>, b: seq<nat>)
    requires forall x :: x in a <==> x in b
    ensures |a| == 0 <==> |b| == 0
  {
    if |a| > 0 {
      assert a[0] in b;
    }
    if |b| > 0 {
      assert b[0] in a;
    }
  }

  /** `Above` is exactly the sorted list of qualifying positions. */
  lemma AboveIs(scores: seq<nat>, lo: nat, hi: nat, t: nat, expected: seq<nat>)
    requires StrictlyIncreasing(expected)
    requires forall p :: p in expected <==> lo <= p < hi && p < |scores| && scores[p] > t
    ensures Above(scores, lo, hi, t) == expected
  {
    var a := Above(scores, lo, hi, t);
    forall x
      ensures x in a <==> x in expected
    {
      if x in expected {
        AboveComplete(scores, lo, hi, t, x);
      }
    }
    AboveIncreasing(scores, lo, hi, t);
    IncreasingUnique(a, expected);
  }

  /** Split scores of "a b c d. e f g h. i j k l m n o p": full stops at 7
      and 16, spaces between the words, letters elsewhere. */
  function FixtureScore(i: nat): nat {
    if i == 7 || i == 16 then 3
    else if i in {1, 3, 5, 8, 10, 12, 14, 17, 19, 21, 23, 25, 27, 29, 31} then 1
    else 0
  }

  ghost predicate FixtureScores(scores: seq<nat>) {
    |scores| == 33 && forall i :: 0 <= i < 33 ==> scores[i] == FixtureScore(i)
  }

  lemma FixtureSentenceEnds(scores: seq<nat>)
    requires FixtureScores(scores)
    ensures Above(scores, 0, 33, 2) == [7, 16]
  {
    AboveIs(scores, 0, 33, 2, [7, 16]);
  }

  lemma FixtureNoPause(scores: seq<nat>)
    requires FixtureScores(scores)
    ensures Above(scores, 18, 33, 1) == []
  {
    AboveIs(scores, 18, 33, 1, []);
  }

  lemma FixtureSpaces(scores: seq<nat>)
    requires FixtureScores(scores)
    ensures Above(scores, 18, 33, 0) == [19, 21, 23, 25, 27, 29, 31]
  {
    AboveIs(scores, 18, 33, 0, [19, 21, 23, 25, 27, 29, 31]);
  }

  /** A pass visiting a gap no longer than `max` adds nothing for it. */
  lemma PassShortGap(scores: seq<nat>, results: seq<nat>, k: nat, lastRef: nat, max: nat, t: nat)
    requires 0 < k <= |results| && lastRef - results[k - 1] <= max
    ensures Pass(scores, results, k, lastRef, max, t) == Pass(scores, results, k - 1, results[k - 1], max, t)
  {
    var rest := Pass(scores, results, k - 1, results[k - 1], max, t);
    assert [] + rest.0 == rest.0;
  }

  /** A pass visiting a gap longer than `max` adds its qualifying positions. */
  lemma PassLongGap(scores: seq<nat>, results: seq<nat>, k: nat, lastRef: nat, max: nat, t: nat)
    requires 0 < k <= |results| && lastRef - results[k - 1] > max
    ensures var rest := Pass(scores, results, k - 1, results[k - 1], max, t);
      Pass(scores, results, k, lastRef, max, t) == (Above(scores, results[k - 1] + 2, lastRef, t) + rest.0, true)
  {
  }

  /** Over the fixture's sentence ends only the gap after the second full
      stop is longer than 10. */
  lemma FixturePass(scores: seq<nat>, t: nat)
    requires |scores| == 33
    ensures Pass(scores, [0, 7, 16], 3, 33, 10, t) == (Above(scores, 18, 33, t), true)
  {
    var r1 := [0, 7, 16];
    PassLongGap(scores, r1, 3, 33, 10, t);
    PassShortGap(scores, r1, 2, 16, 10, t);
    PassShortGap(scores, r1, 1, 7, 10, t);
    assert Pass(scores, r1, 0, 0, 10, t) == ([], false);
    assert Above(scores, 18, 33, t) + [] == Above(scores, 18, 33, t);
  }

  lemma FixtureSortedOnce()
    ensures SortNats([0, 7, 16] + []) == [0, 7, 16]
  {
    assert [0, 7, 16] + [] == [0, 7, 16];
    SortSorted([0, 7, 16]);
  }

  lemma FixtureSortedTwice()
    ensures SortNats([0, 7, 16] + [19, 21, 23, 25, 27, 29, 31]) == [0, 7, 16, 19, 21, 23, 25, 27, 29, 31]
  {
    assert [0, 7, 16] + [19, 21, 23, 25, 27, 29, 31] == [0, 7, 16, 19, 21, 23, 25, 27, 29, 31];
    SortSorted([0, 7, 16, 19, 21, 23, 25, 27, 29, 31]);
  }

  /** The pass at threshold 1 finds the gap after the second full stop too
      long but no pause in it, so the results stay as they were. */
  lemma FixtureFirstPass(scores: seq<nat>)
    requires |scores| == 33
    requires Above(scores, 18, 33, 1) == []
    ensures Refine(scores, [0, 7, 16], 10, 1) == Refine(scores, [0, 7, 16], 10, 0)
  {
    FixturePass(scores, 1);
    FixtureSortedOnce();
  }

  /** The pass at threshold 0 adds the spaces in that gap. */
  lemma FixtureSecondPass(scores: seq<nat>)
    requires |scores| == 33
    requires Above(scores, 18, 33, 0) == [19, 21, 23, 25, 27, 29, 31]
    ensures Refine(scores, [0, 7, 16], 10, 0) == [0, 7, 16, 19, 21, 23, 25, 27, 29, 31]
  {
    FixturePass(scores, 0);
    RefineLastPass(scores, [0, 7, 16], 10);
    FixtureSortedTwice();
  }

  /** The pass at threshold 0 is the last: a gap it reports adds its
      candidates, sorted, and refinement stops there. */
  lemma RefineLastPass(scores: seq<nat>, results: seq<nat>, max: nat)
    requires Pass(scores, results, |results|, |scores|, max, 0).1
    ensures Refine(scores, results, max, 0) == SortNats(results + Pass(scores, results, |results|, |scores|, max, 0).0)
  {
  }

  /** The merge of the fixture keeps the two full stops and the space at 25:
      the running total passes 10 on reaching 16, 19 and 27. */
  lemma FixtureMerged()
    ensures MergeSplits([0, 7, 16, 19, 21, 23, 25, 27, 29, 31], 33, 10) == [7, 16, 25]
  {
    var r := [0, 7, 16, 19, 21, 23, 25, 27, 29, 31];
    assert MergeFold(MergeState([], 0, 0), r, 0, 10) == MergeFold(MergeState([], 7, 7), r, 2, 10);
    assert MergeFold(MergeState([], 7, 7), r, 2, 10) == MergeFold(MergeState([7, 16], 3, 19), r, 4, 10);
    assert MergeFold(MergeState([7, 16], 3, 19), r, 4, 10) == MergeFold(MergeState([7, 16], 7, 23), r, 6, 10);
    assert MergeFold(MergeState([7, 16], 7, 23), r, 6, 10) == MergeFold(MergeState([7, 16, 25], 2, 27), r, 8, 10);
    assert MergeFold(MergeState([7, 16, 25], 2, 27), r, 8, 10) == MergeState([7, 16, 25], 6, 31);
  }

  lemma FixtureUnitsScored(units: seq<Unit>)
    requires |units| == 33
    requires forall i :: 0 <= i < 33 ==> SplitScore(units[i]) == FixtureScore(i)
    ensures FixtureScores(Scores(units))
  {
  }

  /** Refinement of the fixture: the sentence ends, then the spaces in the
      gap after the second full stop. */
  lemma FixtureRefined(scores: seq<nat>)
    requires FixtureScores(scores)
    ensures Refine(scores, [0] + Above(scores, 0, |scores|, 2), 10, 1) == [0, 7, 16, 19, 21, 23, 25, 27, 29, 31]
  {
    FixtureSentenceEnds(scores);
    FixtureNoPause(scores);
    FixtureSpaces(scores);
    FixtureFromScans(scores);
    FixtureFromEnds(scores);
  }

  lemma FixtureFromEnds(scores: seq<nat>)
    requires |scores| == 33
    requires Above(scores, 0, 33, 2) == [7, 16]
    requires Refine(scores, [0, 7, 16], 10, 1) == [0, 7, 16, 19, 21, 23, 25, 27, 29, 31]
    ensures Refine(scores, [0] + Above(scores, 0, |scores|, 2), 10, 1) == [0, 7, 16, 19, 21, 23, 25, 27, 29, 31]
  {
    FixtureStart();
  }

  lemma FixtureStart()
    ensures [0] + [7, 16] == [0, 7, 16]
  {
  }

  /** The `split_units` test: 33 units cut with `max_size` 10 are split
      after the two full stops and at the space at 25. */
  lemma SplitUnitsFixture(units: seq<Unit>)
    requires |units| == 33
    requires forall i :: 0 <= i < 33 ==> SplitScore(units[i]) == FixtureScore(i)
    ensures FindSplits(units, 10) == [7, 16, 25]
  {
    FixtureUnitsScored(units);
    FixtureRefined(Scores(units));
    assert RefinedSplits(units, 10) == [0, 7, 16, 19, 21, 23, 25, 27, 29, 31];
    FixtureMerged();
    FixtureDeduped();
  }

  /** The fixture's refined results once its three scans of the scores are
      known. */
  lemma FixtureFromScans(scores: seq<nat>)
    requires |scores| == 33
    requires Above(scores, 18, 33, 1) == []
    requires Above(scores, 18, 33, 0) == [19, 21, 23, 25, 27, 29, 31]
    ensures Refine(scores, [0, 7, 16], 10, 1) == [0, 7, 16, 19, 21, 23, 25, 27, 29, 31]
  {
    FixtureFirstPass(scores);
    FixtureSecondPass(scores);
  }

  lemma FixtureDeduped()
    ensures Dedup([7, 16, 25]) == [7, 16, 25]
  {
  }
}
