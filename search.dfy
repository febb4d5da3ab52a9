/** `findReducingSet`: a binary search over the candidate check counts for one set of
    reachable top indices, returning the `reduceByCheckCount` result of the smallest
    accepting count it probed. */
module Search {
  import opened Util
  import opened Grid
  import opened Combinations
  import opened Reduce

  /** The indices `idx < n` that occur in `reach`, in increasing order: the positions
      behind `top_reachable_nodes`. */
  function ReachableTopIdxs(n: nat, reach: seq<nat>): seq<nat>
  {
    if n == 0 then []
    else
      var init := ReachableTopIdxs(n - 1, reach);
      if n - 1 in reach then init + [n - 1] else init
  }

  /** They are indeed increasing and exactly the indices below `n` found in `reach`. */
  lemma {:induction false} ReachableTopIdxsShape(n: nat, reach: seq<nat>)
    ensures StrictlyIncreasing(ReachableTopIdxs(n, reach))
    ensures forall x :: x in ReachableTopIdxs(n, reach) <==> x < n && x in reach
  {
    if n > 0 {
      var init := ReachableTopIdxs(n - 1, reach);
      ReachableTopIdxsShape(n - 1, reach);
      if n - 1 in reach {
        StrictSnoc(init, n - 1);
      }
    }
  }

  lemma SameHead(a: seq<nat>, b: seq<nat>)
    requires StrictlyIncreasing(a) && StrictlyIncreasing(b)
    requires a != [] && b != [] && a[0] in b && b[0] in a
    ensures a[0] == b[0]
  {
    var i :| 0 <= i < |b| && b[i] == a[0];
    var j :| 0 <= j < |a| && a[j] == b[0];
    assert b[0] <= a[0] && a[0] <= b[0];
  }

  /** Removing the common smallest element keeps the element sets equal. */
  lemma SameTail(a: seq<nat>, b: seq<nat>)
    requires StrictlyIncreasing(a) && StrictlyIncreasing(b)
    requires forall x :: x in a <==> x in b
    requires a != [] && b != [] && a[0] == b[0]
    ensures forall x :: x in a[1..] <==> x in b[1..]
  {
    forall x ensures x in a[1..] <==> x in b[1..] {
      if x in a[1..] {
        var i :| 1 <= i < |a| && a[i] == x;
        assert x != a[0];
      }
      if x in b[1..] {
        var i :| 1 <= i < |b| && b[i] == x;
        assert x != b[0];
      }
      if x in a && x != a[0] {
        var i :| 0 <= i < |a| && a[i] == x;
        assert a[1..][i - 1] == x;
      }
      if x in b && x != b[0] {
        var i :| 0 <= i < |b| && b[i] == x;
        assert b[1..][i - 1] == x;
      }
    }
  }

  /** Two strictly increasing sequences with the same elements are equal. */
  lemma {:induction false} StrictSameElements(a: seq<nat>, b: seq<nat>)
    requires StrictlyIncreasing(a) && StrictlyIncreasing(b)
    requires forall x :: x in a <==> x in b
    ensures a == b
    decreases |a|
  {
    if a != [] {
      assert a[0] in b;
    }
    if b != [] {
      assert b[0] in a;
    }
    if a != [] && b != [] {
      SameHead(a, b);
      SameTail(a, b);
      StrictSameElements(a[1..], b[1..]);
      assert a == [a[0]] + a[1..] && b == [b[0]] + b[1..];
    }
  }

  /** For the tuples `calcEdges` passes in (increasing, valid indices) the reachable
      top vertices are exactly the indexed ones, so `t == len(top_reachable_idxs)`. */
  lemma ReachableTopOfCombination(n: nat, reach: seq<nat>)
    requires StrictlyIncreasing(reach) && ValidIdxs(reach, n)
    ensures ReachableTopIdxs(n, reach) == reach
  {
    ReachableTopIdxsShape(n, reach);
    StrictSameElements(ReachableTopIdxs(n, reach), reach);
  }

  /** `low_end = min(len(DIMS) - 1, t)` */
  function LowEnd(dimCount: nat, t: nat): nat
    requires dimCount > 0
  {
    if dimCount - 1 <= t then dimCount - 1 else t
  }

  /** `list(range(low_end, max(low_end, t) + 1))` */
  function CheckRange(dimCount: nat, t: nat): (r: seq<nat>)
    requires dimCount > 0
    ensures |r| == t - LowEnd(dimCount, t) + 1
    ensures forall i :: 0 <= i < |r| ==> r[i] == LowEnd(dimCount, t) + i
  {
    var lo := LowEnd(dimCount, t);
    var hi := if lo >= t then lo else t;
    seq(hi - lo + 1, i requires 0 <= i <= hi - lo => lo + i)
  }

  /** Count `c` accepts, and `c - 1` does not unless `c` is the low end: the count the
      binary search settles on. */
  predicate LocallyLeast(q: Query, lo: nat, c: nat)
    requires ValidQuery(q)
  {
    ReduceSpec(c, q) != [] && (c == lo || (c > 0 && ReduceSpec(c - 1, q) == []))
  }

  /** Acceptance is monotone in the check count over `lo..hi`. */
  predicate MonotoneOn(q: Query, lo: nat, hi: nat)
    requires ValidQuery(q)
  {
    forall c, d :: lo <= c <= d <= hi && ReduceSpec(c, q) != [] ==> ReduceSpec(d, q) != []
  }

  /** `c` is the least accepting count from `lo` on. */
  predicate LeastAccepting(q: Query, lo: nat, c: nat)
    requires ValidQuery(q)
  {
    ReduceSpec(c, q) != [] && forall d :: lo <= d < c ==> ReduceSpec(d, q) == []
  }

  /** Under monotonicity the locally least count the search settles on is the least
      accepting one. */
  lemma MonotoneLocallyLeastIsLeast(q: Query, lo: nat, t: nat, c: nat)
    requires ValidQuery(q) && MonotoneOn(q, lo, t)
    requires lo <= c <= t && LocallyLeast(q, lo, c)
    ensures LeastAccepting(q, lo, c)
  {
    forall d | lo <= d < c ensures ReduceSpec(d, q) == [] {
      assert d <= c - 1 <= t;
    }
  }

  /** Under monotonicity a rejected top count means that no count in the range accepts. */
  lemma MonotoneNoneAccepts(q: Query, lo: nat, t: nat)
    requires ValidQuery(q) && MonotoneOn(q, lo, t)
    requires lo <= t && ReduceSpec(t, q) == []
    ensures forall d :: lo <= d <= t ==> ReduceSpec(d, q) == []
  {
    forall d | lo <= d <= t ensures ReduceSpec(d, q) == [] {
      assert d <= t;
    }
  }

  /** Every recorded probe holds the `reduceByCheckCount` result of its count. */
  predicate ProbesAgree(probes: map<nat, seq<Outcome>>, q: Query)
    requires ValidQuery(q)
  {
    forall c {:trigger ReduceSpec(c, q)} :: c in probes ==> probes[c] == ReduceSpec(c, q)
  }

  lemma ProbeAdded(probes: map<nat, seq<Outcome>>, q: Query, c: nat)
    requires ValidQuery(q) && ProbesAgree(probes, q)
    ensures ProbesAgree(probes[c := ReduceSpec(c, q)], q)
  {
  }

  lemma ProbeAgrees(probes: map<nat, seq<Outcome>>, q: Query, c: nat)
    requires ValidQuery(q) && ProbesAgree(probes, q) && c in probes
    ensures probes[c] == ReduceSpec(c, q)
  {
  }

  /** A probe that accepted, just above one that did not (or at the low end), is
      locally least. */
  lemma HitIsLocallyLeast(q: Query, lo: nat, probes: map<nat, seq<Outcome>>, c: nat, fail: nat)
    requires ValidQuery(q) && ProbesAgree(probes, q)
    requires c in probes && probes[c] != []
    requires c == lo || (c > 0 && fail == c - 1 && fail in probes && probes[fail] == [])
    ensures LocallyLeast(q, lo, c) && probes[c] == ReduceSpec(c, q)
  {
    ProbeAgrees(probes, q, c);
    if c != lo {
      ProbeAgrees(probes, q, fail);
    }
  }

  /** `res` is what the search returns for `reach`: the `reduceByCheckCount` result of a
      locally least accepting count in `[min(D - 1, t), t]`. */
  ghost predicate SearchResult(top: seq<Vertex>, bot: seq<Vertex>, reach: seq<nat>, dimCount: nat, even: bool,
                               res: seq<Outcome>)
  {
    && |top| > 0 && |bot| > 0 && ValidIdxs(reach, |top|) && dimCount > 0
    && var q := Query(top, bot, reach, even);
       var t := |ReachableTopIdxs(|top|, reach)|;
       var lo := LowEnd(dimCount, t);
       exists c :: lo <= c <= t && LocallyLeast(q, lo, c) && res == ReduceSpec(c, q)
  }

  /** `findReducingSet` (main.py:62-99). `None` stands for the `IndexError` raised at
      `check_range[check_idx]` when the probe runs past the last count. `dims` is `DIMS`;
      the `parent_graph` parameter is unused and left out. */
  method FindReducingSet(reach: seq<nat>, top: seq<Vertex>, bot: seq<Vertex>, dims: seq<int>, even: bool)
    returns (r: Option<seq<Outcome>>)
    requires |top| > 0 && |bot| > 0 && ValidIdxs(reach, |top|) && |dims| > 0
    ensures r.None? ==> ReduceSpec(|ReachableTopIdxs(|top|, reach)|, Query(top, bot, reach, even)) == []
    ensures r.Some? ==> SearchResult(top, bot, reach, |dims|, even, r.value)
  {
    ghost var q := Query(top, bot, reach, even);
    var topReachableIdxs := ReachableTopIdxs(|top|, reach);
    var t := |topReachableIdxs|;
    var lo := LowEnd(|dims|, t);
    var checkRange := CheckRange(|dims|, t);
    ghost var n := |checkRange|;
    assert n > 0 && lo + n - 1 == t;
    var left: int := 0;
    var right: int := |checkRange|;
    var reducingCheckCounts: seq<nat> := [];
    var reductionResults: map<nat, seq<Outcome>> := map[];
    // Every count probed so far with its result, and the probed counts just below
    // `left` and just above `right`.
    ghost var probes: map<nat, seq<Outcome>> := map[];
    ghost var lastFail: nat, lastHit: nat := 0, 0;
    while left <= right
      invariant 0 <= left <= n && -1 <= right <= n && left <= right + 1
      invariant ProbesAgree(probes, q)
      invariant left > 0 ==> lastFail == lo + left - 1 && lastFail in probes && probes[lastFail] == []
      invariant right < n <==> reducingCheckCounts != []
      invariant right < n ==>
        && right + 1 < n && lastHit == lo + right + 1 && lastHit in reducingCheckCounts
        && lastHit in reductionResults && lastHit in probes
        && reductionResults[lastHit] == probes[lastHit] && probes[lastHit] != []
      invariant forall c :: c in reducingCheckCounts ==> lo + right + 1 <= c
      decreases right - left
    {
      var checkIdx := (left + right) / 2;
      if checkIdx >= |checkRange| {
        assert left == n && lastFail == t;
        ProbeAgrees(probes, q, t);
        return None;
      }
      var checkCount := checkRange[checkIdx];
      var reduceSet := ReduceByCheckCount(checkCount, top, bot, reach, even);
      assert checkCount == lo + checkIdx && reduceSet == ReduceSpec(checkCount, q);
      ProbeAdded(probes, q, checkCount);
      probes := probes[checkCount := reduceSet];
      if reduceSet == [] {
        left := checkIdx + 1;
        lastFail := checkCount;
      }
      if reduceSet != [] {
        reducingCheckCounts := reducingCheckCounts + [checkCount];
        reductionResults := reductionResults[checkCount := reduceSet];
        right := checkIdx - 1;
        lastHit := checkCount;
      }
    }
    assert left == right + 1 && right < n;
    var lowestReducingIndex := SortedHead(reducingCheckCounts);
    ghost var c := lastHit;
    assert lowestReducingIndex == c;
    assert c == lo || (left > 0 && c - 1 == lastFail);
    HitIsLocallyLeast(q, lo, probes, c, lastFail);
    r := Some(reductionResults[lowestReducingIndex]);
  }

  /** With a non-empty reachable set of increasing valid indices (every call made by
      `calcEdges`), the search never runs past `check_range` and returns a non-empty
      result for an accepting count in the range. */
  lemma SearchSucceeds(top: seq<Vertex>, bot: seq<Vertex>, reach: seq<nat>, even: bool)
    requires |top| > 0 && |bot| > 0
    requires IdxTuple(reach, |top|)
    ensures ReduceSpec(|ReachableTopIdxs(|top|, reach)|, Query(top, bot, reach, even)) != []
  {
    ReachableTopOfCombination(|top|, reach);
    CheckingAllIsAccepted(Query(top, bot, reach, even));
  }

  /** Every entry of a search result over an increasing index tuple records a check
      count in `[min(D - 1, |reach|), |reach|]` and a sorted list of valid bottom indices. */
  lemma SearchResultShape(top: seq<Vertex>, bot: seq<Vertex>, reach: seq<nat>, dimCount: nat, even: bool,
                          res: seq<Outcome>)
    requires |top| > 0 && |bot| > 0 && dimCount > 0
    requires StrictlyIncreasing(reach) && ValidIdxs(reach, |top|)
    requires SearchResult(top, bot, reach, dimCount, even, res)
    ensures res != []
    ensures forall o :: o in res ==>
      && LowEnd(dimCount, |reach|) <= o.checks <= |reach|
      && Sorted(o.reached)
      && forall j :: j in o.reached ==> j < |bot|
  {
    var q := Query(top, bot, reach, even);
    ReachableTopOfCombination(|top|, reach);
    var lo := LowEnd(dimCount, |reach|);
    var c :| lo <= c <= |reach| && LocallyLeast(q, lo, c) && res == ReduceSpec(c, q);
    ReduceEntries(c, q);
    forall o | o in res
      ensures && lo <= o.checks <= |reach| && Sorted(o.reached) && forall j :: j in o.reached ==> j < |bot|
    {
      var cs :| cs in Combos(q.reach, c) && Accepted(q, cs) && o == OutcomeOf(c, q, cs);
      OutcomeSound(c, q, cs);
      OutcomeOfShape(c, q, cs);
    }
  }

  /** The `findReducingSet` call of `calcEdges` (main.py:134-137): on a non-empty
      increasing tuple of valid indices the search always returns a result. */
  method SearchTuple(reach: seq<nat>, top: seq<Vertex>, bot: seq<Vertex>, dims: seq<int>, even: bool)
    returns (res: seq<Outcome>)
    requires |top| > 0 && |bot| > 0 && |dims| > 0
    requires IdxTuple(reach, |top|)
    ensures SearchResult(top, bot, reach, |dims|, even, res)
  {
    SearchSucceeds(top, bot, reach, even);
    var r := FindReducingSet(reach, top, bot, dims, even);
    res := r.value;
  }
}
