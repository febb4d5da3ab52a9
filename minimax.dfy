/** The threshold query of `__main__` (main.py:149-156, 191-202): the least check count
    `W` such that `END` can be reached from `START` using only edges of weight at most
    `W`. A path search takes the place of the shortest-path call and its exceptions. */
module Minimax {
  import opened Util
  import opened Transition

  /** The check graph has an edge from `u` to `v` of weight at most `w`. */
  predicate HasEdge(es: seq<Edge>, w: nat, u: Node, v: Node) {
    exists e :: e in es && e.origin == u && e.dest == v && e.weight <= w
  }

  /** `p` walks along edges of weight at most `w`. */
  ghost predicate IsPath(es: seq<Edge>, w: nat, p: seq<Node>) {
    |p| > 0 && forall i :: 0 <= i < |p| - 1 ==> HasEdge(es, w, p[i], p[i + 1])
  }

  /** `v` can be reached from `u` in the sub-graph of the edges of weight at most `w`. */
  ghost predicate Reachable(es: seq<Edge>, w: nat, u: Node, v: Node) {
    exists p :: IsPath(es, w, p) && p[0] == u && p[|p| - 1] == v
  }

  /** The end points of the edges. */
  function Dests(es: seq<Edge>): set<Node> {
    set e | e in es :: e.dest
  }

  lemma ReachableRefl(es: seq<Edge>, w: nat, u: Node)
    ensures Reachable(es, w, u, u)
  {
    assert IsPath(es, w, [u]);
  }

  /** A reachable node followed by an edge gives a reachable node. */
  lemma ReachableStep(es: seq<Edge>, w: nat, u: Node, v: Node, e: Edge)
    requires Reachable(es, w, u, v)
    requires e in es && e.origin == v && e.weight <= w
    ensures Reachable(es, w, u, e.dest)
  {
    var p :| IsPath(es, w, p) && p[0] == u && p[|p| - 1] == v;
    var p' := p + [e.dest];
    forall i | 0 <= i < |p'| - 1 ensures HasEdge(es, w, p'[i], p'[i + 1]) {
      if i < |p| - 1 {
        assert p'[i] == p[i] && p'[i + 1] == p[i + 1];
      } else {
        assert p'[i] == v && p'[i + 1] == e.dest;
      }
    }
    assert IsPath(es, w, p');
  }

  /** A set of nodes that holds `u` and is closed under the edges of weight at most `w`
      holds everything reachable from `u`. */
  lemma ClosedContainsReachable(es: seq<Edge>, w: nat, u: Node, v: Node, closed: set<Node>)
    requires u in closed
    requires forall e :: e in es && e.origin in closed && e.weight <= w ==> e.dest in closed
    requires Reachable(es, w, u, v)
    ensures v in closed
  {
    var p :| IsPath(es, w, p) && p[0] == u && p[|p| - 1] == v;
    PathStaysInside(es, w, p, closed);
  }

  lemma {:induction false} PathStaysInside(es: seq<Edge>, w: nat, p: seq<Node>, closed: set<Node>)
    requires IsPath(es, w, p) && p[0] in closed
    requires forall e :: e in es && e.origin in closed && e.weight <= w ==> e.dest in closed
    ensures p[|p| - 1] in closed
    decreases |p|
  {
    if |p| > 1 {
      var p' := p[..|p| - 1];
      assert IsPath(es, w, p') by {
        forall i | 0 <= i < |p'| - 1 ensures HasEdge(es, w, p'[i], p'[i + 1]) {
          assert p'[i] == p[i] && p'[i + 1] == p[i + 1];
          assert HasEdge(es, w, p[i], p[i + 1]);
        }
      }
      PathStaysInside(es, w, p', closed);
      assert HasEdge(es, w, p[|p| - 2], p[|p| - 1]);
      var e :| e in es && e.origin == p[|p| - 2] && e.dest == p[|p| - 1] && e.weight <= w;
    }
  }

  /** Allowing heavier edges keeps every path. */
  lemma ReachableMonotone(es: seq<Edge>, w: nat, w': nat, u: Node, v: Node)
    requires w <= w' && Reachable(es, w, u, v)
    ensures Reachable(es, w', u, v)
  {
    var p :| IsPath(es, w, p) && p[0] == u && p[|p| - 1] == v;
    forall i | 0 <= i < |p| - 1 ensures HasEdge(es, w', p[i], p[i + 1]) {
      assert HasEdge(es, w, p[i], p[i + 1]);
    }
    assert IsPath(es, w', p);
  }

  /** The nodes one edge of weight at most `w` away from `u`. */
  function Succs(es: seq<Edge>, w: nat, u: Node): set<Node> {
    set e | e in es && e.origin == u && e.weight <= w :: e.dest
  }

  lemma SuccsSnoc(es: seq<Edge>, w: nat, u: Node, i: nat)
    requires i < |es|
    ensures Succs(es[..i + 1], w, u)
         == Succs(es[..i], w, u) + (if es[i].origin == u && es[i].weight <= w then {es[i].dest} else {})
  {
    TakeNext(es, i);
  }

  /** One round of the search: add to `visited` and to the end of `work` every
      successor of `u` not seen before. */
  method Expand(es: seq<Edge>, w: nat, u: Node, visited: set<Node>, work: seq<Node>)
    returns (visited': set<Node>, work': seq<Node>)
    ensures visited' == visited + Succs(es, w, u)
    ensures forall v :: v in work' <==> v in work || v in visited' - visited
    ensures visited' == visited ==> work' == work
  {
    visited', work' := visited, work;
    var i := 0;
    while i < |es|
      invariant 0 <= i <= |es|
      invariant visited' == visited + Succs(es[..i], w, u)
      invariant forall v :: v in work' <==> v in work || v in visited' - visited
      invariant visited' == visited ==> work' == work
    {
      var e := es[i];
      SuccsSnoc(es, w, u, i);
      if e.origin == u && e.weight <= w && e.dest !in visited' {
        visited' := visited' + {e.dest};
        work' := work' + [e.dest];
      }
      i := i + 1;
    }
    assert es[..|es|] == es;
  }

  /** `findPathByMaxWeight` (main.py:149-155): whether `dst` can be reached from `src`
      over the edges of weight at most `w`, by a work-list search. */
  method PathByMaxWeight(es: seq<Edge>, w: nat, src: Node, dst: Node) returns (found: bool)
    ensures found <==> Reachable(es, w, src, dst)
  {
    ghost var nodes := {src} + Dests(es);
    var visited: set<Node> := {src};
    var work: seq<Node> := [src];
    ghost var done: set<Node> := {};
    ReachableRefl(es, w, src);
    while work != []
      invariant src in visited && visited <= nodes
      invariant forall v :: v in visited ==> Reachable(es, w, src, v)
      invariant forall v :: v in work ==> v in visited
      invariant forall v :: v in visited ==> v in done || v in work
      invariant forall e :: e in es && e.origin in done && e.weight <= w ==> e.dest in visited
      decreases nodes - visited, |work|
    {
      var u := work[0];
      assert u in visited;
      var visited', work' := Expand(es, w, u, visited, work[1..]);
      forall v | v in Succs(es, w, u) ensures v in nodes && Reachable(es, w, src, v) {
        var e :| e in es && e.origin == u && e.weight <= w && e.dest == v;
        ReachableStep(es, w, src, u, e);
      }
      forall v | v in work ensures v == u || v in work[1..] {
        var j :| 0 <= j < |work| && work[j] == v;
        if j > 0 {
          assert work[1..][j - 1] == v;
        }
      }
      assert visited' != visited ==> nodes - visited' < nodes - visited;
      visited, work := visited', work';
      done := done + {u};
    }
    forall v | Reachable(es, w, src, v) ensures v in visited {
      ClosedContainsReachable(es, w, src, v, visited);
    }
    found := dst in visited;
  }

  /** `max(...)` of the edge weights. */
  function MaxWeight(es: seq<Edge>): (m: nat)
    requires |es| > 0
    ensures forall e :: e in es ==> e.weight <= m
    ensures exists e :: e in es && e.weight == m
    decreases |es|
  {
    if |es| == 1 then es[0].weight
    else
      var rest := MaxWeight(es[1..]);
      assert forall e :: e in es[1..] ==> e in es;
      if es[0].weight >= rest then es[0].weight else rest
  }

  /** No edge is heavier than the maximum, so raising the bound past it reaches nothing new. */
  lemma ReachableSaturates(es: seq<Edge>, w: nat, u: Node, v: Node)
    requires |es| > 0 && w >= MaxWeight(es)
    ensures Reachable(es, w, u, v) <==> Reachable(es, MaxWeight(es), u, v)
  {
    if Reachable(es, w, u, v) {
      var p :| IsPath(es, w, p) && p[0] == u && p[|p| - 1] == v;
      forall i | 0 <= i < |p| - 1 ensures HasEdge(es, MaxWeight(es), p[i], p[i + 1]) {
        assert HasEdge(es, w, p[i], p[i + 1]);
      }
      assert IsPath(es, MaxWeight(es), p);
    } else if Reachable(es, MaxWeight(es), u, v) {
      ReachableMonotone(es, MaxWeight(es), w, u, v);
    }
  }

  /** `W` is the least bound under which `END` is reachable from `START`. */
  ghost predicate LeastThreshold(es: seq<Edge>, w: nat) {
    Reachable(es, w, Start, End) && forall w' :: 0 <= w' < w ==> !Reachable(es, w', Start, End)
  }

  /** The loop `for checks in range(max_checks + 1)` (main.py:191-202): the first bound
      at which a path exists, or `None` ("Error: no checking path found") when there is
      none up to the heaviest edge, in which case there is none at all. */
  method FindThreshold(es: seq<Edge>) returns (r: Option<nat>)
    requires |es| > 0
    ensures r.Some? ==> r.value <= MaxWeight(es) && LeastThreshold(es, r.value)
    ensures r.None? <==> forall w: nat :: !Reachable(es, w, Start, End)
  {
    var maxChecks := MaxWeight(es);
    var found := false;
    var result := 0;
    var checks := 0;
    while checks < maxChecks + 1
      invariant 0 <= checks <= maxChecks + 1
      invariant forall w' :: 0 <= w' < checks ==> !Reachable(es, w', Start, End)
    {
      var path := PathByMaxWeight(es, checks, Start, End);
      if path {
        found := true;
        result := checks;
        break;
      }
      checks := checks + 1;
    }
    if found {
      r := Some(result);
    } else {
      r := None;
      forall w: nat ensures !Reachable(es, w, Start, End) {
        if w > maxChecks {
          ReachableSaturates(es, w, Start, End);
        }
      }
    }
  }
}
