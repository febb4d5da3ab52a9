# Dynamic foxhole solver — a verified model

The solver finds how many holes a hunter must check each day to be sure of catching a
fox on a grid of foxholes. The fox moves to a neighbouring hole every night. The grid is
split into its two colour classes. `main.py` then does four things:

- For every set of holes in one class where the fox may still be, `findReducingSet`
  searches for the smallest number of checks that shrinks the fox's possible positions
  in the other class, by the parity rule of `reduceByCheckCount`.
- Each search result becomes a weighted edge of a "check graph", built by `createEdges`,
  `switchPartLabels` and `calcEdges`.
- The graph gets a `START` node joined to the two "fox may be anywhere" nodes. An edge
  goes to `END` when nothing is left reachable.
- The reported answer is the least weight `W` at which `END` can be reached from
  `START` using only edges of weight at most `W`.

The Dafny project models that pipeline as written:

| file | module | models |
|---|---|---|
| `util.dfy` | `Util` | `Option`, sortedness, `range`, `list.index`, `sorted`, `list.sort(); [0]` |
| `grid.dfy` | `Grid` | `manhatDist`, the neighbour test `== 1`, `product` and `EVEN` |
| `combinations.dfy` | `Combinations` | `itertools.combinations` as a function, with its order |
| `reduce.dfy` | `Reduce` | `reduceByCheckCount`: a loop method and its specification function |
| `search.dfy` | `Search` | `findReducingSet`: the binary search over check counts |
| `transition.dfy` | `Transition` | nodes, edges, `createEdges`, `switchPartLabels`, `calcEdges` |
| `minimax.dfy` | `Minimax` | `findPathByMaxWeight` as a work-list search, and the threshold loop |
| `pipeline.dfy` | `Pipeline` | the `__main__` block: the `START` edges, both `calcEdges` calls, the answer |

Modelling choices:

- The ε = 0.1 fractions are compared exactly. `(b − 0.1)/|bot| < (t − 0.1)/|top|` becomes
  `(10b − 1)·|top| < (10t − 1)·|bot|`, and `≤` when the product of the dimensions is odd.
  `Reduce.AcceptsIsFractionTest` proves the two tests agree over the reals.
- `lowest` is kept over the same denominator `10·|bot|`, so the initial `10**6` is the
  numerator `10_000_000·|bot|`.
- The accumulation loops are methods:
  - the subset loop of `reduceByCheckCount` is proved equal to the specification
    function `Reduce.ReduceSpec`;
  - the binary search is proved to return `None` only when `t` itself is rejected, and
    otherwise the `reduceByCheckCount` result of a locally least accepting count: one
    that accepts where the count just below it, if in range, does not;
  - the edge loops of `createEdges` and `switchPartLabels` are proved equal to
    `Transition.EdgesFor` and `Transition.Switched`;
  - the loops of `calcEdges` are proved to return the edges of its searches, as
    `Transition.BaseEdges` of search results that it returns as ghosts; those results
    are each proved to be of a locally least accepting count, but no function of the
    inputs is given for them;
  - the two search loops of the threshold query are proved against path reachability.
- What the source promises is proved as lemmas about those functions.
- `reduceByCheckCount` keeps appending accepted outcomes that are worse than the current
  minimum, as long as they come after the last reset. `Reduce.Kept` models this.
- `switchPartLabels` drops every edge with a sentinel endpoint, including every edge
  into `END`. `Transition.Switched` models this.
- The networkx graph is a sequence of `Transition.Edge` values. Path existence is
  `Minimax.Reachable`: there is a sequence of nodes joined by edges of weight at most `W`.
- The search range is `[min(D − 1, t), t]`, as main.py:68-70 computes it.
- The label-switched copy has no edges into `END` (main.py:117-118).
- `GraphError` is never raised.
- Running out of thresholds prints an error (main.py:201-202).

## Model

| member | source | states |
|---|---|---|
| Grid.ManhatDistSymmetric | main.py:27-28 | the distance of `u` to `v` equals that of `v` to `u` |
| Grid.ManhatDistZeroIff | main.py:27-28 | the distance is 0 exactly when the vectors agree on every common position |
| Grid.NotAdjacentToItself | main.py:27-28 | a vertex is at distance 0 from itself, so it is never its own neighbour under `== 1` |
| Grid.ComputeProduct | main.py:16-18 | the loop leaves the left-to-right product of the dimensions |
| Grid.EvenIffSomeAxisEven | main.py:16-19 | `EVEN` holds exactly when some dimension is even |
| Util.IndexOf | main.py:56-57 | `bot_layer.index(v)` is a position holding `v`, and no earlier position does |
| Util.IndicesOf | main.py:56-57 | each listed index is valid and names the corresponding vertex |
| Util.Sort | main.py:58 | `sorted` returns a sorted permutation of its input |
| Util.SortedHead | main.py:96-97 | `reducingCheckCounts.sort(); [0]` is an element no larger than any other |
| Combinations.CombosSound | main.py:35 | over an increasing sequence every enumerated combination has `k` of its elements, in increasing order |
| Combinations.CombosComplete | main.py:35 | every increasing `k`-subsequence of the elements is enumerated |
| Combinations.CombosLexOrdered | main.py:35 | combinations come in strictly increasing lexicographic order, so without repeats |
| Combinations.CombosOfAll | main.py:35 | choosing all `t` elements gives the single combination of all of them |
| Reduce.Remaining | main.py:36-38 | `top_remaining` holds exactly the top vertices at reachable indices that were not checked |
| Reduce.ReachableBot | main.py:40-41 | `reachable_bot` holds exactly the bottom vertices next to a remaining top vertex |
| Reduce.AcceptsIsFractionTest | main.py:32-52 | the integer test agrees with the fraction comparison over the reals: strict when `EVEN`, non-strict otherwise |
| Reduce.OutcomeOfShape | main.py:36-58 | an outcome records `check_count` and a sorted list of the indices of exactly the bottom vertices next to a remaining top vertex; its length is the bottom count |
| Reduce.OutcomeSound | main.py:40-57 | every recorded index is a valid bottom index next to a remaining top vertex |
| Reduce.OutcomeComplete | main.py:40-57 | every bottom vertex next to a remaining top vertex is recorded |
| Reduce.MinCountSpec | main.py:53-55 | the minimum is absent exactly when nothing was accepted; otherwise it is attained and no larger than any accepted count |
| Reduce.KeptStep | main.py:52-58 | one more subset: `result` is unchanged when rejected, restarts on a new strict minimum, and is appended to otherwise |
| Reduce.LoopStep | main.py:52-58 | the same step with the loop's `lowest` comparison as written, and how `lowest` evolves |
| Reduce.ReduceByCheckCount | main.py:31-59 | the loop returns `ReduceSpec(k, q)`, the kept outcomes over all `k`-combinations in enumeration order |
| Reduce.ReduceEntries | main.py:35-58 | every returned pair has first component `check_count` and is the outcome of an accepted `k`-subset |
| Reduce.ReduceEmptyIff | main.py:35-52 | the result is `[]` exactly when no `k`-subset passes the parity rule |
| Reduce.ReduceFirstIsMinimal | main.py:33-58 | a non-empty result starts with the first accepted subset of least bottom count (strictly below every earlier accepted one) and continues with every accepted subset enumerated after it |
| Reduce.KeptEntries | main.py:52-58 | every kept outcome is that of an accepted subset |
| Reduce.KeptEmptyIff | main.py:52-58 | nothing is kept exactly when nothing is accepted |
| Reduce.KeptFirstIsMinimal | main.py:53-58 | the kept list is led by the first accepted evaluation of least count |
| Reduce.CheckingAllIsAccepted | main.py:35-52 | checking all `t` reachable indices yields exactly `[(t, [])]`: nothing is reached, and that passes the rule |
| Search.ReachableTopIdxsShape | main.py:66-67 | the positions behind `top_reachable_nodes` are increasing and are exactly the indices `< len(top)` found in the tuple |
| Search.ReachableTopOfCombination | main.py:66-68 | for an increasing tuple of valid indices, `t` is its length |
| Search.CheckRange | main.py:68-70 | `check_range` runs from `min(D - 1, t)` to `t` |
| Search.MonotoneLocallyLeastIsLeast | main.py:82-98 | if acceptance is monotone in the check count, the count the search settles on is the least accepting one |
| Search.MonotoneNoneAccepts | main.py:82-94 | if acceptance is monotone and `t` fails, no count in the range accepts |
| Search.HitIsLocallyLeast | main.py:89-98 | an accepting probe just above a rejecting one, or at the low end, is locally least |
| Search.FindReducingSet | main.py:62-99 | `None`, standing for the `IndexError` past `check_range`, only when `t` itself fails; otherwise the result for a count in `[min(D - 1, t), t]` that accepts where the count below it, if in range, does not |
| Search.SearchSucceeds | main.py:68-98 | for a non-empty increasing tuple of valid indices, the top count `t` accepts, so the search never indexes past `check_range` |
| Search.SearchResultShape | main.py:62-99 | every entry of such a result has a check count in `[min(D - 1, t), t]` and a sorted list of valid bottom indices |
| Search.SearchTuple | main.py:134-137 | each call made by `calcEdges` returns a search result |
| Transition.EdgesForShape | main.py:102-111 | one edge per pair, in order: origin `(top_label, origin)`, weight the check count, destination `END` exactly when the index list is empty and the reached tuple otherwise |
| Transition.CreateEdges | main.py:102-111 | the loop returns the edge list of the pairs |
| Transition.SwitchPartLabels | main.py:114-124 | the loop returns the label-switched, sentinel-free edge list |
| Transition.SwitchedShape | main.py:116-123 | an edge is switched out exactly when it is the label swap of an input edge with no sentinel endpoint; no switched edge touches `START` or `END` |
| Transition.SwitchedTwice | main.py:114-124 | switching twice gives back exactly the edges without a sentinel endpoint |
| Transition.SwitchedConcat | main.py:114-124 | switching distributes over concatenation |
| Transition.SubsetsSound | main.py:130-133 | every tuple `calcEdges` searches is non-empty, increasing and made of valid indices |
| Transition.SubsetsComplete | main.py:130-133 | every non-empty increasing tuple of valid indices is searched |
| Transition.SubsetsOrdered | main.py:131-133 | tuples are searched by increasing size, and lexicographically within one size |
| Transition.EdgesOfSize | main.py:133-141 | the inner loop searches every `checkCount`-tuple in order and concatenates their edge lists |
| Transition.CalcStep | main.py:132-141 | one round of the outer loop extends the searched tuples and the edges by the next size |
| Transition.CalcEdges | main.py:127-146 | the result is the base edges of all searched tuples, followed by their label switch exactly when `isomorphic` is set |
| Transition.BaseEdgesOfSubsets | main.py:127-146 | every base edge leaves a non-empty increasing tuple of valid top indices, with a weight in `[min(D - 1, n), n]` for tuple size `n`, and leads to `END` or to a non-empty sorted tuple of valid bottom indices |
| Transition.BaseEdgesShape | main.py:133-141 | the same shape for the edges of any list of well-shaped search results |
| Minimax.ReachableStep | main.py:149-155 | a reachable node followed by an allowed edge is reachable |
| Minimax.ClosedContainsReachable | main.py:149-155 | a node set closed under allowed edges holds everything reachable from its members |
| Minimax.ReachableMonotone | main.py:151-152 | raising the weight bound keeps every path |
| Minimax.Expand | main.py:151-154 | one round adds exactly the unseen successors over edges of weight at most the bound |
| Minimax.PathByMaxWeight | main.py:149-155 | the search answers true exactly when the destination is reachable over edges of weight at most the bound |
| Minimax.MaxWeight | main.py:191 | `max_checks` bounds every weight and is the weight of some edge |
| Minimax.ReachableSaturates | main.py:191-193 | a bound at or above `max_checks` reaches exactly what `max_checks` does |
| Minimax.FindThreshold | main.py:191-202 | the reported count is the least bound at which `END` is reachable from `START`, and at most `max_checks`; the error case happens exactly when no bound works |
| Pipeline.StartEdges | main.py:160-172 | `START` has weight-0 edges to both whole-partition nodes, and none of its edges leads to `END` |
| Pipeline.Solve | main.py:158-202 | the check graph is the `START` edges plus the transition edges of both partitions, switched or searched twice; the answer is its least threshold, or the error exactly when none exists |

## Left out

- networkx: `grid_graph`, `bipartite.sets`, `is_isomorphic`, `DiGraph`,
  `edge_subgraph` and `shortest_path` are foreign code.
  - The two partitions are parameters, as sequences of integer vectors.
  - `isomorphic` is a boolean parameter. As written it is always true, because the
    subgraphs compared are taken over grid vertices, which are not nodes of the
    check graph.
  - The shortest path is replaced by a reachability search; only the path's existence
    is used.
- `DiGraph` de-duplication of repeated `(u, v)` pairs: the graph is kept as a sequence.
  Repeated pairs come from one search and carry equal weights, so paths and thresholds
  are unchanged.
- Floating point: the ε fractions are compared exactly. Memoisation by `lru_cache` only
  affects speed.
- Timing and printing, and the `allCheckCounts` debugging list.
- `GraphError`: it is defined but never raised.
- The bare `except`: the threshold loop tests reachability directly.
- The unused `parent_graph` and `graph` parameters, and the global lookups inside
  `findPathByMaxWeight`.
- Search.FindReducingSet: promises a locally least accepting count, not the least one.
  The binary search assumes that acceptance is monotone in the check count, and
  `main.py` does not establish it. Under monotonicity the count is the least one, by
  Search.MonotoneLocallyLeastIsLeast.
- Reduce.ReduceByCheckCount requires non-empty layers and valid reachable indices. With
  an empty layer the source can divide by zero; with an invalid index it can raise
  `IndexError`.
- Search.FindReducingSet, Transition.CalcEdges, Pipeline.Solve require at least one
  dimension and non-empty partitions, which every grid gives.
- Search.FindReducingSet: `None` stands for the `IndexError` at `check_range[check_idx]`.
  Search.SearchSucceeds shows it cannot happen for the tuples `calcEdges` passes.
- Transition.SwitchedShape: as written, no switched edge leads to `END`. The
  label-switched direction therefore never reaches `END` directly.
