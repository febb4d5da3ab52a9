/** The `__main__` block (main.py:158-202): the check graph is the two `START` edges
    followed by the transition edges of both partitions, and the answer is the least
    number of checks per day under which `END` can be reached from `START`. */
module Pipeline {
  import opened Util
  import opened Grid
  import opened Reduce
  import opened Transition
  import opened Minimax

  const Part0Label: int := 0
  const Part1Label: int := 1

  /** `START` joined by weight-0 edges to the two nodes holding a whole partition
      (main.py:160-172). */
  function StartEdges(n0: nat, n1: nat): (es: seq<Edge>)
    ensures forall e :: e in es ==> e.origin == Start && e.weight == 0 && e.dest != End
    ensures HasEdge(es, 0, Start, Reach(Part0Label, Range(n0)))
    ensures HasEdge(es, 0, Start, Reach(Part1Label, Range(n1)))
  {
    var e0, e1 := Edge(Start, Reach(Part0Label, Range(n0)), 0), Edge(Start, Reach(Part1Label, Range(n1)), 0);
    assert e0 in [e0, e1] && e1 in [e0, e1];
    [e0, e1]
  }

  /** The transition edges added to the check graph: those of `part0` with their
      label-switched copy when the two partitions are isomorphic, and otherwise those of
      `part0` followed by those of `part1`. */
  function TransitionEdges(rs0: seq<seq<Outcome>>, rs1: seq<seq<Outcome>>, n0: nat, n1: nat, isomorphic: bool): seq<Edge>
    requires |rs0| == |SubsetsUpTo(n0, n0)|
    requires !isomorphic ==> |rs1| == |SubsetsUpTo(n1, n1)|
  {
    if isomorphic then WithSwitched(BaseEdges(rs0, n0, Part0Label, Part1Label), true)
    else BaseEdges(rs0, n0, Part0Label, Part1Label) + BaseEdges(rs1, n1, Part1Label, Part0Label)
  }

  /** The whole run for the bipartition `part0`, `part1` of the grid with dimensions
      `dims`. `isomorphic` is the result of the isomorphism test. The answer is the
      least threshold, or `None` for "Error: no checking path found"; the check graph is
      returned beside it, and the search results it was built from as ghosts. */
  method Solve(part0: seq<Vertex>, part1: seq<Vertex>, dims: seq<int>, isomorphic: bool)
    returns (r: Option<nat>, graph: seq<Edge>, ghost rs0: seq<seq<Outcome>>, ghost rs1: seq<seq<Outcome>>)
    requires |part0| > 0 && |part1| > 0 && |dims| > 0
    ensures Searched(part0, part1, |dims|, Even(dims), SubsetsUpTo(|part0|, |part0|), rs0)
    ensures !isomorphic ==> Searched(part1, part0, |dims|, Even(dims), SubsetsUpTo(|part1|, |part1|), rs1)
    ensures graph == StartEdges(|part0|, |part1|) + TransitionEdges(rs0, rs1, |part0|, |part1|, isomorphic)
    ensures r.Some? ==> r.value <= MaxWeight(graph) && LeastThreshold(graph, r.value)
    ensures r.None? <==> forall w: nat :: !Reachable(graph, w, Start, End)
  {
    var product := ComputeProduct(dims);
    var even := product % 2 == 0;
    var edges;
    edges, rs0 := CalcEdges(part0, part1, Part0Label, Part1Label, isomorphic, dims, even);
    rs1 := [];
    if !isomorphic {
      var more;
      more, rs1 := CalcEdges(part1, part0, Part1Label, Part0Label, false, dims, even);
      edges := edges + more;
    }
    graph := StartEdges(|part0|, |part1|) + edges;
    r := FindThreshold(graph);
  }
}
