/** The transition edges: `createEdges`, `switchPartLabels` and `calcEdges`. A node of
    the check graph is one of the two sentinels or a partition label with a tuple of
    vertex indices; an edge carries the check count of the step as its weight. */
module Transition {
  import opened Util
  import opened Grid
  import opened Combinations
  import opened Reduce
  import opened Search

  /** `'START'`, `'END'`, or `(part_label, idx_tuple)`. */
  datatype Node = Start | End | Reach(part: int, idxs: seq<nat>)

  /** `(origin, dest, {'weight': weight})` */
  datatype Edge = Edge(origin: Node, dest: Node, weight: nat)

  /** The edge recorded for one `(min_checks, bot_reachable_idxs)` pair. */
  function EdgeOf(o: Outcome, topLabel: int, botLabel: int, originIdxs: seq<nat>): Edge {
    Edge(Reach(topLabel, originIdxs), if o.reached == [] then End else Reach(botLabel, o.reached), o.checks)
  }

  /** The edges of the pairs, one per pair and in order. */
  function EdgesFor(pairs: seq<Outcome>, topLabel: int, botLabel: int, originIdxs: seq<nat>): seq<Edge>
    decreases |pairs|
  {
    if pairs == [] then []
    else EdgesFor(pairs[..|pairs| - 1], topLabel, botLabel, originIdxs)
           + [EdgeOf(pairs[|pairs| - 1], topLabel, botLabel, originIdxs)]
  }

  /** One edge per pair, in order: from the origin tuple, weighted by the check count,
      to `END` exactly when no bottom index is reached and to the reached tuple otherwise. */
  lemma {:induction false} EdgesForShape(pairs: seq<Outcome>, topLabel: int, botLabel: int, originIdxs: seq<nat>)
    ensures |EdgesFor(pairs, topLabel, botLabel, originIdxs)| == |pairs|
    ensures forall i :: 0 <= i < |pairs| ==>
      var e := EdgesFor(pairs, topLabel, botLabel, originIdxs)[i];
      && e.origin == Reach(topLabel, originIdxs)
      && e.weight == pairs[i].checks
      && (e.dest == End <==> pairs[i].reached == [])
      && (pairs[i].reached != [] ==> e.dest == Reach(botLabel, pairs[i].reached))
    decreases |pairs|
  {
    if pairs != [] {
      var init := pairs[..|pairs| - 1];
      EdgesForShape(init, topLabel, botLabel, originIdxs);
      forall i | 0 <= i < |init| ensures pairs[i] == init[i] { }
    }
  }

  /** `createEdges` (main.py:102-111). */
  method CreateEdges(pairs: seq<Outcome>, topLabel: int, botLabel: int, originIdxs: seq<nat>)
    returns (edges: seq<Edge>)
    ensures edges == EdgesFor(pairs, topLabel, botLabel, originIdxs)
  {
    edges := [];
    var i := 0;
    while i < |pairs|
      invariant 0 <= i <= |pairs|
      invariant edges == EdgesFor(pairs[..i], topLabel, botLabel, originIdxs)
    {
      assert pairs[..i + 1][..i] == pairs[..i];
      var origin := Reach(topLabel, originIdxs);
      var dest := Reach(botLabel, pairs[i].reached);
      var weight := pairs[i].checks;
      if pairs[i].reached == [] {
        dest := End;
      }
      edges := edges + [Edge(origin, dest, weight)];
      i := i + 1;
    }
    assert pairs[..|pairs|] == pairs;
  }

  predicate Sentinel(n: Node) {
    n.Start? || n.End?
  }

  /** The edge with the two partition labels exchanged and everything else kept. */
  function Swap(e: Edge): Edge
    requires e.origin.Reach? && e.dest.Reach?
  {
    Edge(Reach(e.dest.part, e.origin.idxs), Reach(e.origin.part, e.dest.idxs), e.weight)
  }

  /** What `switchPartLabels` returns: the edges without a sentinel endpoint, in order,
      each with its labels swapped. */
  function Switched(es: seq<Edge>): seq<Edge>
    decreases |es|
  {
    if es == [] then []
    else
      var e := es[|es| - 1];
      Switched(es[..|es| - 1]) + if Sentinel(e.origin) || Sentinel(e.dest) then [] else [Swap(e)]
  }

  /** `switchPartLabels` (main.py:114-124). */
  method SwitchPartLabels(edgeList: seq<Edge>) returns (newEdges: seq<Edge>)
    ensures newEdges == Switched(edgeList)
  {
    newEdges := [];
    var i := 0;
    while i < |edgeList|
      invariant 0 <= i <= |edgeList|
      invariant newEdges == Switched(edgeList[..i])
    {
      var e := edgeList[i];
      assert edgeList[..i + 1][..i] == edgeList[..i];
      if !(Sentinel(e.origin) || Sentinel(e.dest)) {
        newEdges := newEdges + [Edge(Reach(e.dest.part, e.origin.idxs), Reach(e.origin.part, e.dest.idxs), e.weight)];
      }
      i := i + 1;
    }
    assert edgeList[..|edgeList|] == edgeList;
  }

  /** The edges whose endpoints are both partition nodes. */
  function NonSentinel(es: seq<Edge>): seq<Edge>
    decreases |es|
  {
    if es == [] then []
    else (if Sentinel(es[0].origin) || Sentinel(es[0].dest) then [] else [es[0]]) + NonSentinel(es[1..])
  }

  /** Switching labels distributes over concatenation. */
  lemma {:induction false} SwitchedConcat(a: seq<Edge>, b: seq<Edge>)
    ensures Switched(a + b) == Switched(a) + Switched(b)
    decreases |b|
  {
    if b != [] {
      var b' := b[..|b| - 1];
      assert (a + b)[..|a + b| - 1] == a + b';
      assert (a + b)[|a + b| - 1] == b[|b| - 1];
      SwitchedConcat(a, b');
    } else {
      assert a + b == a;
    }
  }

  /** Each switched edge is the swap of a non-sentinel input edge, and the switched list
      has no sentinel endpoint: in particular no switched edge leads to `END`. */
  lemma {:induction false} SwitchedShape(es: seq<Edge>)
    ensures forall e :: e in Switched(es) ==> !Sentinel(e.origin) && !Sentinel(e.dest)
    ensures forall e :: e in Switched(es) <==>
      exists d :: d in es && !Sentinel(d.origin) && !Sentinel(d.dest) && e == Swap(d)
    decreases |es|
  {
    if es != [] {
      var init := es[..|es| - 1];
      var d := es[|es| - 1];
      SwitchedShape(init);
      assert es == init + [d];
      forall e | (exists d' :: d' in es && !Sentinel(d'.origin) && !Sentinel(d'.dest) && e == Swap(d'))
        ensures e in Switched(es)
      {
        var d' :| d' in es && !Sentinel(d'.origin) && !Sentinel(d'.dest) && e == Swap(d');
        if d' != d {
          assert d' in init;
        }
      }
    }
  }

  /** Switching twice gives back exactly the edges without a sentinel endpoint. */
  lemma {:induction false} SwitchedTwice(es: seq<Edge>)
    ensures Switched(Switched(es)) == NonSentinel(es)
    decreases |es|
  {
    if es != [] {
      var init := es[..|es| - 1];
      var e := es[|es| - 1];
      SwitchedTwice(init);
      var one := if Sentinel(e.origin) || Sentinel(e.dest) then [] else [Swap(e)];
      SwitchedConcat(Switched(init), one);
      if one != [] {
        assert Switched(one) == Switched([]) + [Swap(Swap(e))];
        assert Swap(Swap(e)) == e;
      }
      NonSentinelSnoc(init, e);
      assert es == init + [e];
    }
  }

  lemma {:induction false} NonSentinelSnoc(es: seq<Edge>, e: Edge)
    ensures NonSentinel(es + [e]) == NonSentinel(es) + (if Sentinel(e.origin) || Sentinel(e.dest) then [] else [e])
    decreases |es|
  {
    if es == [] {
      assert [e][1..] == [];
    } else {
      var all := es + [e];
      var h := if Sentinel(es[0].origin) || Sentinel(es[0].dest) then [] else [es[0]];
      assert all[0] == es[0] && all[1..] == es[1..] + [e];
      NonSentinelSnoc(es[1..], e);
      assert NonSentinel(all) == h + NonSentinel(es[1..] + [e]);
    }
  }

  /** The non-empty index tuples of `0..n`, by size and then lexicographically, up to
      size `k`: the order of the two loops of `calcEdges`. */
  function SubsetsUpTo(n: nat, k: nat): seq<seq<nat>>
  {
    if k == 0 then [] else SubsetsUpTo(n, k - 1) + Combos(Range(n), k)
  }

  lemma RangeStrictlyIncreasing(n: nat)
    ensures StrictlyIncreasing(Range(n))
    ensures forall x :: x in Range(n) <==> 0 <= x < n
  {
    forall x | 0 <= x < n ensures x in Range(n) {
      assert Range(n)[x] == x;
    }
  }

  /** Every enumerated tuple is a non-empty increasing tuple of valid indices of size at
      most `k`... */
  lemma {:induction false} SubsetsSound(n: nat, k: nat)
    ensures forall c :: c in SubsetsUpTo(n, k) ==>
      0 < |c| <= k && StrictlyIncreasing(c) && ValidIdxs(c, n)
  {
    if k > 0 {
      SubsetsSound(n, k - 1);
      RangeStrictlyIncreasing(n);
      CombosSound(Range(n), k);
    }
  }

  /** ...and every such tuple is enumerated. */
  lemma {:induction false} SubsetsComplete(n: nat, k: nat, c: seq<nat>)
    requires 0 < |c| <= k && StrictlyIncreasing(c) && ValidIdxs(c, n)
    ensures c in SubsetsUpTo(n, k)
  {
    if |c| == k {
      RangeStrictlyIncreasing(n);
      CombosComplete(Range(n), c);
    } else {
      SubsetsComplete(n, k - 1, c);
    }
  }

  lemma CombosOfRange(n: nat, k: nat)
    requires k > 0
    ensures forall i :: 0 <= i < |Combos(Range(n), k)| ==> IdxTuple(Combos(Range(n), k)[i], n)
  {
    RangeStrictlyIncreasing(n);
    CombosSound(Range(n), k);
    var cs := Combos(Range(n), k);
    forall i | 0 <= i < |cs| ensures IdxTuple(cs[i], n) {
      assert cs[i] in cs;
    }
  }

  /** Tuples come by increasing size, and lexicographically within one size. */
  predicate BySizeThenLex(ss: seq<seq<nat>>) {
    forall i, j :: 0 <= i < j < |ss| ==> |ss[i]| < |ss[j]| || (|ss[i]| == |ss[j]| && LexLess(ss[i], ss[j]))
  }

  /** `calcEdges` searches the tuples by increasing size, and lexicographically within
      one size. */
  lemma {:induction false} SubsetsOrdered(n: nat, k: nat)
    ensures BySizeThenLex(SubsetsUpTo(n, k))
  {
    if k > 0 {
      var prev, cs := SubsetsUpTo(n, k - 1), Combos(Range(n), k);
      assert BySizeThenLex(prev) by {
        SubsetsOrdered(n, k - 1);
      }
      assert forall c :: c in prev ==> |c| < k by {
        SubsetsSound(n, k - 1);
      }
      CombosOfRangeOrdered(n, k);
      BySizeThenLexConcat(prev, cs, k);
    }
  }

  /** The `k`-tuples of `0..n` have `k` elements each and come in lexicographic order. */
  lemma CombosOfRangeOrdered(n: nat, k: nat)
    ensures forall c :: c in Combos(Range(n), k) ==> |c| == k
    ensures forall i, j :: 0 <= i < j < |Combos(Range(n), k)| ==> LexLess(Combos(Range(n), k)[i], Combos(Range(n), k)[j])
  {
    RangeStrictlyIncreasing(n);
    CombosSound(Range(n), k);
    CombosLexOrdered(Range(n), k);
  }

  /** Appending a lexicographically ordered run of `k`-tuples to shorter tuples in order. */
  lemma BySizeThenLexConcat(prev: seq<seq<nat>>, cs: seq<seq<nat>>, k: nat)
    requires BySizeThenLex(prev)
    requires forall c :: c in prev ==> |c| < k
    requires forall c :: c in cs ==> |c| == k
    requires forall i, j :: 0 <= i < j < |cs| ==> LexLess(cs[i], cs[j])
    ensures BySizeThenLex(prev + cs)
  {
    var ss := prev + cs;
    forall i, j | 0 <= i < j < |ss| ensures |ss[i]| < |ss[j]| || (|ss[i]| == |ss[j]| && LexLess(ss[i], ss[j])) {
      if j < |prev| {
        assert ss[i] == prev[i] && ss[j] == prev[j];
      } else if i < |prev| {
        assert ss[i] == prev[i] && prev[i] in prev;
        assert ss[j] == cs[j - |prev|] && cs[j - |prev|] in cs;
      } else {
        var i', j' := i - |prev|, j - |prev|;
        assert ss[i] == cs[i'] && ss[j] == cs[j'];
        assert cs[i'] in cs && cs[j'] in cs;
      }
    }
  }

  /** The concatenated `createEdges` lists of the searched tuples `ss` with results `rs`. */
  function EdgesOfAll(rs: seq<seq<Outcome>>, ss: seq<seq<nat>>, topLabel: int, botLabel: int): seq<Edge>
    requires |rs| == |ss|
    decreases |ss|
  {
    if ss == [] then []
    else
      EdgesOfAll(rs[..|rs| - 1], ss[..|ss| - 1], topLabel, botLabel)
        + EdgesFor(rs[|rs| - 1], topLabel, botLabel, ss[|ss| - 1])
  }

  /** The edges of `calcEdges` before the label switch, for results `rs` of the
      searches over the tuples of `0..n`. */
  function BaseEdges(rs: seq<seq<Outcome>>, n: nat, topLabel: int, botLabel: int): seq<Edge>
    requires |rs| == |SubsetsUpTo(n, n)|
  {
    EdgesOfAll(rs, SubsetsUpTo(n, n), topLabel, botLabel)
  }

  /** `rs[j]` is a search result for the tuple `ss[j]`, for every `j`. */
  ghost predicate Searched(top: seq<Vertex>, bot: seq<Vertex>, dimCount: nat, even: bool,
                           ss: seq<seq<nat>>, rs: seq<seq<Outcome>>)
  {
    |rs| == |ss| && forall j :: 0 <= j < |ss| ==> SearchResult(top, bot, ss[j], dimCount, even, rs[j])
  }

  /** An edge `calcEdges` builds before any label switch: from a non-empty increasing
      tuple of top indices, weighted by a check count in `[min(D - 1, size), size]`, to
      `END` or to a non-empty sorted tuple of valid bottom indices. */
  predicate BaseEdge(e: Edge, topLen: nat, botLen: nat, dimCount: nat, topLabel: int, botLabel: int)
    requires dimCount > 0
  {
    && e.origin.Reach? && e.origin.part == topLabel
    && |e.origin.idxs| > 0 && StrictlyIncreasing(e.origin.idxs) && ValidIdxs(e.origin.idxs, topLen)
    && LowEnd(dimCount, |e.origin.idxs|) <= e.weight <= |e.origin.idxs|
    && (e.dest == End || (
          && e.dest.Reach? && e.dest.part == botLabel && e.dest.idxs != []
          && Sorted(e.dest.idxs) && forall j :: j in e.dest.idxs ==> j < botLen))
  }

  /** Every outcome of `r` has a check count in `[min(D - 1, |c|), |c|]` and a sorted
      list of bottom indices below `botLen`. */
  predicate ShapedResult(c: seq<nat>, r: seq<Outcome>, dimCount: nat, botLen: nat)
    requires dimCount > 0
  {
    forall o :: o in r ==>
      && LowEnd(dimCount, |c|) <= o.checks <= |c|
      && Sorted(o.reached)
      && forall j :: j in o.reached ==> j < botLen
  }

  lemma {:induction false} BaseEdgesShape(ss: seq<seq<nat>>, rs: seq<seq<Outcome>>, topLen: nat, botLen: nat,
                                          dimCount: nat, topLabel: int, botLabel: int)
    requires dimCount > 0 && |rs| == |ss|
    requires forall j :: 0 <= j < |ss| ==> IdxTuple(ss[j], topLen) && ShapedResult(ss[j], rs[j], dimCount, botLen)
    ensures forall e :: e in EdgesOfAll(rs, ss, topLabel, botLabel) ==>
      BaseEdge(e, topLen, botLen, dimCount, topLabel, botLabel)
    decreases |ss|
  {
    if ss != [] {
      var n := |ss| - 1;
      var ss', rs' := ss[..n], rs[..n];
      var front := EdgesOfAll(rs', ss', topLabel, botLabel);
      var last := EdgesFor(rs[n], topLabel, botLabel, ss[n]);
      assert forall e :: e in front ==> BaseEdge(e, topLen, botLen, dimCount, topLabel, botLabel) by {
        forall j | 0 <= j < n ensures IdxTuple(ss'[j], topLen) && ShapedResult(ss'[j], rs'[j], dimCount, botLen) {
          assert ss'[j] == ss[j] && rs'[j] == rs[j];
        }
        BaseEdgesShape(ss', rs', topLen, botLen, dimCount, topLabel, botLabel);
      }
      assert forall e :: e in last ==> BaseEdge(e, topLen, botLen, dimCount, topLabel, botLabel) by {
        assert IdxTuple(ss[n], topLen) && ShapedResult(ss[n], rs[n], dimCount, botLen);
        EdgesForShape(rs[n], topLabel, botLabel, ss[n]);
        forall e | e in last ensures BaseEdge(e, topLen, botLen, dimCount, topLabel, botLabel) {
          var i :| 0 <= i < |last| && last[i] == e;
          assert rs[n][i] in rs[n];
        }
      }
      assert EdgesOfAll(rs, ss, topLabel, botLabel) == front + last;
    }
  }

  /** The inner loop of `calcEdges` (main.py:133-141): one `findReducingSet` search and
      its `createEdges` list for every `checkCount`-tuple of top indices, in
      lexicographic order. It returns, as a ghost, the results the searches got. */
  method EdgesOfSize(top: seq<Vertex>, bot: seq<Vertex>, topLabel: int, botLabel: int,
                     dims: seq<int>, even: bool, checkCount: nat)
    returns (edges: seq<Edge>, ghost rs: seq<seq<Outcome>>)
    requires |top| > 0 && |bot| > 0 && |dims| > 0 && checkCount > 0
    ensures Searched(top, bot, |dims|, even, Combos(Range(|top|), checkCount), rs)
    ensures edges == EdgesOfAll(rs, Combos(Range(|top|), checkCount), topLabel, botLabel)
  {
    var tuples := Combos(Range(|top|), checkCount);
    CombosOfRange(|top|, checkCount);
    edges, rs := [], [];
    var i := 0;
    while i < |tuples|
      invariant 0 <= i <= |tuples|
      invariant Searched(top, bot, |dims|, even, tuples[..i], rs)
      invariant edges == EdgesOfAll(rs, tuples[..i], topLabel, botLabel)
    {
      var checkIdxs := tuples[i];
      assert IdxTuple(checkIdxs, |top|);
      var pairs := SearchTuple(checkIdxs, top, bot, dims, even);
      var newEdges := CreateEdges(pairs, topLabel, botLabel, checkIdxs);
      TakeNext(tuples, i);
      SearchedSnoc(top, bot, |dims|, even, tuples[..i], rs, checkIdxs, pairs);
      EdgesOfAllSnoc(rs, tuples[..i], pairs, checkIdxs, topLabel, botLabel);
      rs := rs + [pairs];
      edges := edges + newEdges;
      i := i + 1;
    }
    assert tuples[..|tuples|] == tuples;
  }

  /** The edge list, followed by its label-switched copy when the partitions are
      isomorphic. */
  function WithSwitched(base: seq<Edge>, isomorphic: bool): seq<Edge> {
    if isomorphic then base + Switched(base) else base
  }

  /** `calcEdges` (main.py:127-146) for the partitions `top` and `bot`; `dims` is `DIMS`,
      `even` is `EVEN`. Alongside the edges it returns, as ghosts, the tuples it searched
      and the results it got. */
  method CalcEdges(top: seq<Vertex>, bot: seq<Vertex>, topLabel: int, botLabel: int, isomorphic: bool,
                   dims: seq<int>, even: bool)
    returns (edges: seq<Edge>, ghost rs: seq<seq<Outcome>>)
    requires |top| > 0 && |bot| > 0 && |dims| > 0
    ensures Searched(top, bot, |dims|, even, SubsetsUpTo(|top|, |top|), rs)
    ensures edges == WithSwitched(BaseEdges(rs, |top|, topLabel, botLabel), isomorphic)
  {
    var n := |top|;
    edges, rs := [], [];
    var checkCount := 1;
    while checkCount <= n
      invariant 1 <= checkCount <= n + 1
      invariant Searched(top, bot, |dims|, even, SubsetsUpTo(n, checkCount - 1), rs)
      invariant edges == EdgesOfAll(rs, SubsetsUpTo(n, checkCount - 1), topLabel, botLabel)
    {
      var newEdges, rs' := EdgesOfSize(top, bot, topLabel, botLabel, dims, even, checkCount);
      CalcStep(top, bot, |dims|, even, checkCount, rs, edges, rs', newEdges, topLabel, botLabel);
      edges := edges + newEdges;
      rs := rs + rs';
      checkCount := checkCount + 1;
    }
    if isomorphic {
      var switched := SwitchPartLabels(edges);
      edges := edges + switched;
    }
  }

  /** One round of the outer loop of `calcEdges`: the tuples of size `k` follow those
      of smaller size. */
  lemma CalcStep(top: seq<Vertex>, bot: seq<Vertex>, dimCount: nat, even: bool, k: nat,
                 rs: seq<seq<Outcome>>, edges: seq<Edge>, rs': seq<seq<Outcome>>, newEdges: seq<Edge>,
                 topLabel: int, botLabel: int)
    requires k > 0
    requires Searched(top, bot, dimCount, even, SubsetsUpTo(|top|, k - 1), rs)
    requires edges == EdgesOfAll(rs, SubsetsUpTo(|top|, k - 1), topLabel, botLabel)
    requires Searched(top, bot, dimCount, even, Combos(Range(|top|), k), rs')
    requires newEdges == EdgesOfAll(rs', Combos(Range(|top|), k), topLabel, botLabel)
    ensures Searched(top, bot, dimCount, even, SubsetsUpTo(|top|, k), rs + rs')
    ensures edges + newEdges == EdgesOfAll(rs + rs', SubsetsUpTo(|top|, k), topLabel, botLabel)
  {
    var done, combos := SubsetsUpTo(|top|, k - 1), Combos(Range(|top|), k);
    SearchedConcat(top, bot, dimCount, even, done, rs, combos, rs');
    EdgesOfAllConcat(rs, done, rs', combos, topLabel, botLabel);
    assert SubsetsUpTo(|top|, k) == done + combos;
  }

  lemma BaseEdgesOfSubsets(top: seq<Vertex>, bot: seq<Vertex>, dimCount: nat, even: bool,
                            rs: seq<seq<Outcome>>, topLabel: int, botLabel: int)
    requires |top| > 0 && |bot| > 0 && dimCount > 0
    requires Searched(top, bot, dimCount, even, SubsetsUpTo(|top|, |top|), rs)
    ensures forall e :: e in BaseEdges(rs, |top|, topLabel, botLabel) ==>
      BaseEdge(e, |top|, |bot|, dimCount, topLabel, botLabel)
  {
    var ss := SubsetsUpTo(|top|, |top|);
    forall j | 0 <= j < |ss| ensures IdxTuple(ss[j], |top|) && ShapedResult(ss[j], rs[j], dimCount, |bot|) {
      SubsetsSound(|top|, |top|);
      assert ss[j] in ss;
      SearchResultShape(top, bot, ss[j], dimCount, even, rs[j]);
    }
    BaseEdgesShape(ss, rs, |top|, |bot|, dimCount, topLabel, botLabel);
  }

  lemma SearchedConcat(top: seq<Vertex>, bot: seq<Vertex>, dimCount: nat, even: bool,
                       ss: seq<seq<nat>>, rs: seq<seq<Outcome>>, ss': seq<seq<nat>>, rs': seq<seq<Outcome>>)
    requires Searched(top, bot, dimCount, even, ss, rs) && Searched(top, bot, dimCount, even, ss', rs')
    ensures Searched(top, bot, dimCount, even, ss + ss', rs + rs')
  {
    forall j | 0 <= j < |ss + ss'| ensures SearchResult(top, bot, (ss + ss')[j], dimCount, even, (rs + rs')[j]) {
      if j < |ss| {
        assert (ss + ss')[j] == ss[j] && (rs + rs')[j] == rs[j];
      } else {
        assert (ss + ss')[j] == ss'[j - |ss|] && (rs + rs')[j] == rs'[j - |ss|];
      }
    }
  }

  lemma {:induction false} EdgesOfAllConcat(rs: seq<seq<Outcome>>, ss: seq<seq<nat>>,
                                            rs': seq<seq<Outcome>>, ss': seq<seq<nat>>, topLabel: int, botLabel: int)
    requires |rs| == |ss| && |rs'| == |ss'|
    ensures EdgesOfAll(rs + rs', ss + ss', topLabel, botLabel)
         == EdgesOfAll(rs, ss, topLabel, botLabel) + EdgesOfAll(rs', ss', topLabel, botLabel)
    decreases |ss'|
  {
    if ss' == [] {
      assert rs + rs' == rs && ss + ss' == ss;
    } else {
      var m := |ss'| - 1;
      var rsP, ssP := rs'[..m], ss'[..m];
      var front, mid := EdgesOfAll(rs, ss, topLabel, botLabel), EdgesOfAll(rsP, ssP, topLabel, botLabel);
      var last := EdgesFor(rs'[m], topLabel, botLabel, ss'[m]);
      ConcatInit(ss, ss');
      ConcatInit(rs, rs');
      EdgesOfAllConcat(rs, ss, rsP, ssP, topLabel, botLabel);
      AppendAssoc(front, mid, last);
    }
  }

  lemma SearchedSnoc(top: seq<Vertex>, bot: seq<Vertex>, dimCount: nat, even: bool,
                     ss: seq<seq<nat>>, rs: seq<seq<Outcome>>, c: seq<nat>, r: seq<Outcome>)
    requires Searched(top, bot, dimCount, even, ss, rs)
    requires SearchResult(top, bot, c, dimCount, even, r)
    ensures Searched(top, bot, dimCount, even, ss + [c], rs + [r])
  {
    var ss', rs' := ss + [c], rs + [r];
    assert ss'[..|ss|] == ss && rs'[..|rs|] == rs;
    forall j | 0 <= j < |ss'| ensures SearchResult(top, bot, ss'[j], dimCount, even, rs'[j]) {
      if j < |ss| {
        assert ss'[j] == ss[j] && rs'[j] == rs[j];
      }
    }
  }

  lemma EdgesOfAllSnoc(rs: seq<seq<Outcome>>, ss: seq<seq<nat>>, r: seq<Outcome>, c: seq<nat>,
                       topLabel: int, botLabel: int)
    requires |rs| == |ss|
    ensures EdgesOfAll(rs + [r], ss + [c], topLabel, botLabel)
         == EdgesOfAll(rs, ss, topLabel, botLabel) + EdgesFor(r, topLabel, botLabel, c)
  {
    assert (ss + [c])[..|ss|] == ss && (rs + [r])[..|rs|] == rs;
  }
}
