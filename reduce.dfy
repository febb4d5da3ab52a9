/** `reduceByCheckCount`: for one check count, try every way of checking that many of
    the reachable top vertices, and keep the outcomes that pass the parity rule. */
module Reduce {
  import opened Util
  import opened Grid
  import opened Combinations

  /** The inputs of one search: the two layers, the indices of the top vertices that
      are still reachable, and the parity flag of the grid (`EVEN`). */
  datatype Query = Query(top: seq<Vertex>, bot: seq<Vertex>, reach: seq<nat>, even: bool)

  /** `(check_count, sorted(bot_reachable_idxs))` */
  datatype Outcome = Outcome(checks: nat, reached: seq<nat>)

  /** Both layers are non-empty (each is a divisor) and every reachable index names a
      top vertex. */
  predicate ValidQuery(q: Query) {
    |q.top| > 0 && |q.bot| > 0 && ValidIdxs(q.reach, |q.top|)
  }

  /** `top_remaining`: the reachable top vertices that were not checked. */
  function Remaining(top: seq<Vertex>, reach: seq<nat>, checked: seq<nat>): (r: seq<Vertex>)
    requires ValidIdxs(reach, |top|)
    ensures forall u :: u in r <==>
      exists i :: 0 <= i < |reach| && reach[i] !in checked && u == top[reach[i]]
  {
    if reach == [] then []
    else
      var rest := Remaining(top, reach[1..], checked);
      assert forall i :: 0 <= i < |reach| - 1 ==> reach[1..][i] == reach[i + 1];
      (if reach[0] in checked then [] else [top[reach[0]]]) + rest
  }

  /** `reachable_bot`: the bottom vertices, in layer order, next to some remaining top vertex. */
  function ReachableBot(bot: seq<Vertex>, remaining: seq<Vertex>): (r: seq<Vertex>)
    ensures |r| <= |bot|
    ensures forall v :: v in r <==> v in bot && exists u :: u in remaining && Adjacent(u, v)
  {
    if bot == [] then []
    else
      (if exists u :: u in remaining && Adjacent(u, bot[0]) then [bot[0]] else [])
        + ReachableBot(bot[1..], remaining)
  }

  /** `len(reachable_bot)` for one checked subset. */
  function BotCount(q: Query, checked: seq<nat>): nat
    requires ValidQuery(q)
  {
    |ReachableBot(q.bot, Remaining(q.top, q.reach, checked))|
  }

  /** The parity rule on `(b - 0.1) / |bot|` against `(t - 0.1) / |top|`, both sides
      multiplied by `10 * |top| * |bot|`: strict when `even`, non-strict otherwise. */
  predicate Accepts(even: bool, reachLen: nat, topLen: nat, botCount: nat, botLen: nat) {
    var lhs := (10 * botCount - 1) * topLen;
    var rhs := (10 * reachLen - 1) * botLen;
    if even then lhs < rhs else lhs <= rhs
  }

  lemma MulPositive(x: real, y: real, z: real)
    requires z > 0.0
    ensures x < y <==> x * z < y * z
    ensures x <= y <==> x * z <= y * z
  {
  }

  /** The integer test is the fraction comparison of main.py in exact arithmetic. */
  lemma AcceptsIsFractionTest(even: bool, reachLen: nat, topLen: nat, botCount: nat, botLen: nat)
    requires topLen > 0 && botLen > 0
    ensures var fracBot := (botCount as real - 0.1) / (botLen as real);
            var fracTop := (reachLen as real - 0.1) / (topLen as real);
            Accepts(even, reachLen, topLen, botCount, botLen) <==>
              if even then fracBot < fracTop else fracBot <= fracTop
  {
    var fracBot := (botCount as real - 0.1) / (botLen as real);
    var fracTop := (reachLen as real - 0.1) / (topLen as real);
    var scale := 10.0 * (topLen as real) * (botLen as real);
    assert fracBot * scale == (10 * botCount - 1) as real * (topLen as real);
    assert fracTop * scale == (10 * reachLen - 1) as real * (botLen as real);
    MulPositive(fracBot, fracTop, scale);
  }

  predicate Accepted(q: Query, checked: seq<nat>)
    requires ValidQuery(q)
  {
    Accepts(q.even, |q.reach|, |q.top|, BotCount(q, checked), |q.bot|)
  }

  /** The outcome recorded for one checked subset. */
  function OutcomeOf(k: nat, q: Query, checked: seq<nat>): Outcome
    requires ValidQuery(q)
  {
    var reachable := ReachableBot(q.bot, Remaining(q.top, q.reach, checked));
    Outcome(k, Sort(IndicesOf(q.bot, reachable)))
  }

  /** Every recorded index names a bottom vertex next to an unchecked reachable top vertex. */
  lemma OutcomeSound(k: nat, q: Query, checked: seq<nat>)
    requires ValidQuery(q)
    ensures forall j :: j in OutcomeOf(k, q, checked).reached ==>
      j < |q.bot| && exists u :: u in Remaining(q.top, q.reach, checked) && Adjacent(u, q.bot[j])
  {
    var remaining := Remaining(q.top, q.reach, checked);
    var reachable := ReachableBot(q.bot, remaining);
    var idxs := IndicesOf(q.bot, reachable);
    var o := OutcomeOf(k, q, checked);
    forall j | j in o.reached
      ensures j < |q.bot| && exists u :: u in remaining && Adjacent(u, q.bot[j])
    {
      assert j in multiset(idxs);
      var i :| 0 <= i < |idxs| && idxs[i] == j;
      assert q.bot[j] == reachable[i] && reachable[i] in reachable;
    }
  }

  /** Every bottom vertex next to an unchecked reachable top vertex is recorded. */
  lemma OutcomeComplete(k: nat, q: Query, checked: seq<nat>)
    requires ValidQuery(q)
    ensures forall v :: v in q.bot && (exists u :: u in Remaining(q.top, q.reach, checked) && Adjacent(u, v)) ==>
      exists j :: j in OutcomeOf(k, q, checked).reached && j < |q.bot| && q.bot[j] == v
  {
    var remaining := Remaining(q.top, q.reach, checked);
    var reachable := ReachableBot(q.bot, remaining);
    var idxs := IndicesOf(q.bot, reachable);
    var o := OutcomeOf(k, q, checked);
    forall v | v in q.bot && (exists u :: u in remaining && Adjacent(u, v))
      ensures exists j :: j in o.reached && j < |q.bot| && q.bot[j] == v
    {
      assert v in reachable;
      var i :| 0 <= i < |reachable| && reachable[i] == v;
      var j := idxs[i];
      assert j in multiset(idxs);
      assert j in o.reached && j < |q.bot| && q.bot[j] == v;
    }
  }

  /** An outcome is a sorted list of bottom indices that names exactly the bottom
      vertices next to an unchecked reachable top vertex. */
  lemma OutcomeOfShape(k: nat, q: Query, checked: seq<nat>)
    requires ValidQuery(q)
    ensures var o := OutcomeOf(k, q, checked);
      && o.checks == k
      && Sorted(o.reached)
      && |o.reached| == BotCount(q, checked)
      && (forall j :: j in o.reached ==>
            (j < |q.bot| && exists u :: u in Remaining(q.top, q.reach, checked) && Adjacent(u, q.bot[j])))
      && (forall v :: v in q.bot && (exists u :: u in Remaining(q.top, q.reach, checked) && Adjacent(u, v)) ==>
            exists j :: j in o.reached && q.bot[j] == v)
  {
    var idxs := IndicesOf(q.bot, ReachableBot(q.bot, Remaining(q.top, q.reach, checked)));
    var o := OutcomeOf(k, q, checked);
    assert |o.reached| == |idxs| by {
      assert |multiset(o.reached)| == |multiset(idxs)|;
    }
    OutcomeSound(k, q, checked);
    OutcomeComplete(k, q, checked);
  }

  /** What the loop computes about one enumerated subset. */
  datatype Eval = Eval(accepted: bool, count: nat, outcome: Outcome)

  function Evaluate(k: nat, q: Query, checked: seq<nat>): Eval
    requires ValidQuery(q)
  {
    Eval(Accepted(q, checked), BotCount(q, checked), OutcomeOf(k, q, checked))
  }

  /** The evaluations of the subsets `cs`, in enumeration order. */
  function Evaluations(k: nat, q: Query, cs: seq<seq<nat>>): (es: seq<Eval>)
    requires ValidQuery(q)
    ensures |es| == |cs|
    decreases cs, 1
  {
    if cs == [] then [] else EvalCons(k, q, cs)
  }
  function EvalCons(k: nat, q: Query, cs: seq<seq<nat>>): (es: seq<Eval>)
    requires ValidQuery(q) && cs != []
    ensures |es| == |cs|
    decreases cs, 0
  {
    [Evaluate(k, q, cs[0])] + Evaluations(k, q, cs[1..])
  }

  lemma {:induction false} EvaluationAt(k: nat, q: Query, cs: seq<seq<nat>>, i: nat)
    requires ValidQuery(q) && i < |cs|
    ensures Evaluations(k, q, cs)[i] == Evaluate(k, q, cs[i])
    decreases i
  {
    if i > 0 {
      EvaluationAt(k, q, cs[1..], i - 1);
    }
  }

  lemma EvaluationsPointwise(k: nat, q: Query, cs: seq<seq<nat>>)
    requires ValidQuery(q)
    ensures forall i :: 0 <= i < |cs| ==> Evaluations(k, q, cs)[i] == Evaluate(k, q, cs[i])
  {
    forall i | 0 <= i < |cs| ensures Evaluations(k, q, cs)[i] == Evaluate(k, q, cs[i]) {
      EvaluationAt(k, q, cs, i);
    }
  }

  /** The minimum count over the accepted evaluations, if any. */
  function MinCount(es: seq<Eval>): Option<nat>
    decreases |es|
  {
    if es == [] then None
    else
      var m := MinCount(es[..|es| - 1]);
      var x := es[|es| - 1];
      if !x.accepted then m
      else if m.None? || x.count < m.value then Some(x.count)
      else m
  }

  /** `MinCount` is absent exactly when nothing is accepted, and otherwise is the count
      of some accepted evaluation and no larger than any other. */
  lemma {:induction false} MinCountSpec(es: seq<Eval>)
    ensures var m := MinCount(es);
      && (m.None? <==> forall i :: 0 <= i < |es| ==> !es[i].accepted)
      && (m.Some? ==> exists i :: 0 <= i < |es| && es[i].accepted && es[i].count == m.value)
      && (m.Some? ==> forall i :: 0 <= i < |es| && es[i].accepted ==> m.value <= es[i].count)
    decreases |es|
  {
    if es != [] {
      var init := es[..|es| - 1];
      MinCountSpec(init);
      assert forall i :: 0 <= i < |init| ==> init[i] == es[i];
    }
  }

  predicate Hits(e: Eval, m: nat) {
    e.accepted && e.count == m
  }

  /** The first position at or after `i` of an accepted evaluation with count `m`,
      or `|es|` when there is none. */
  function FirstWith(es: seq<Eval>, m: nat, i: nat): (j: nat)
    requires i <= |es|
    ensures i <= j <= |es|
    ensures j < |es| ==> Hits(es[j], m)
    ensures forall l :: i <= l < j ==> !Hits(es[l], m)
    decreases |es| - i
  {
    if i == |es| then i else if Hits(es[i], m) then i else FirstWith(es, m, i + 1)
  }

  /** The outcomes of the accepted evaluations, in enumeration order. */
  function AcceptedOutcomes(es: seq<Eval>): seq<Outcome>
    decreases |es|
  {
    if es == [] then []
    else (if es[0].accepted then [es[0].outcome] else []) + AcceptedOutcomes(es[1..])
  }

  lemma {:induction false} AcceptedOutcomesSnoc(es: seq<Eval>, x: Eval)
    ensures AcceptedOutcomes(es + [x]) == AcceptedOutcomes(es) + (if x.accepted then [x.outcome] else [])
    decreases |es|
  {
    if es == [] {
      assert [x][1..] == [];
    } else {
      var e := es + [x];
      var h := if es[0].accepted then [es[0].outcome] else [];
      assert e[0] == es[0] && e[1..] == es[1..] + [x];
      AcceptedOutcomesSnoc(es[1..], x);
      assert AcceptedOutcomes(e) == h + AcceptedOutcomes(es[1..] + [x]);
      assert AcceptedOutcomes(es) == h + AcceptedOutcomes(es[1..]);
    }
  }

  /** Every outcome in the list is that of an accepted evaluation. */
  lemma {:induction false} AcceptedOutcomeFrom(es: seq<Eval>, e: nat)
    requires e < |AcceptedOutcomes(es)|
    ensures exists i :: 0 <= i < |es| && es[i].accepted && AcceptedOutcomes(es)[e] == es[i].outcome
    decreases |es|
  {
    var rest := AcceptedOutcomes(es[1..]);
    if es[0].accepted && e == 0 {
      assert AcceptedOutcomes(es)[0] == es[0].outcome;
    } else {
      var h := if es[0].accepted then 1 else 0;
      assert AcceptedOutcomes(es)[e] == rest[e - h];
      AcceptedOutcomeFrom(es[1..], e - h);
      var i :| 0 <= i < |es[1..]| && es[1..][i].accepted && rest[e - h] == es[1..][i].outcome;
      assert es[1..][i] == es[i + 1];
    }
  }

  /** What the loop of main.py:35-58 leaves in `result` after the evaluations `es`:
      the accepted outcomes from the first one that reaches the minimum count on. */
  function Kept(es: seq<Eval>): seq<Outcome> {
    match MinCount(es)
    case None => []
    case Some(m) => AcceptedOutcomes(es[FirstWith(es, m, 0)..])
  }

  /** The value `reduceByCheckCount(k, top, bot, reach)` returns. */
  function ReduceSpec(k: nat, q: Query): seq<Outcome>
    requires ValidQuery(q)
  {
    Kept(Evaluations(k, q, Combos(q.reach, k)))
  }

  lemma MinCountSnoc(p: seq<Eval>, x: Eval)
    ensures var m := MinCount(p);
      MinCount(p + [x]) ==
        if x.accepted && (m.None? || x.count < m.value) then Some(x.count) else m
  {
    assert (p + [x])[..|p|] == p;
  }

  lemma FirstWithSnoc(p: seq<Eval>, x: Eval, m: nat)
    requires exists j :: 0 <= j < |p| && Hits(p[j], m)
    ensures FirstWith(p + [x], m, 0) == FirstWith(p, m, 0)
  {
    var p' := p + [x];
    var f, g := FirstWith(p', m, 0), FirstWith(p, m, 0);
    assert g < |p|;
    assert p'[g] == p[g];
  }

  lemma FirstWithNew(p: seq<Eval>, x: Eval)
    requires x.accepted
    requires forall j :: 0 <= j < |p| ==> !Hits(p[j], x.count)
    ensures FirstWith(p + [x], x.count, 0) == |p|
  {
    var p' := p + [x];
    var f := FirstWith(p', x.count, 0);
    assert p'[|p|] == x;
  }

  /** A new strict minimum restarts the kept list with its own outcome. */
  lemma KeptRestart(p: seq<Eval>, x: Eval)
    requires x.accepted && (MinCount(p).None? || x.count < MinCount(p).value)
    ensures Kept(p + [x]) == [x.outcome]
  {
    var p' := p + [x];
    MinCountSpec(p);
    MinCountSnoc(p, x);
    FirstWithNew(p, x);
    assert p'[|p|..] == [x];
    assert [x][1..] == [];
    assert AcceptedOutcomes([x]) == [x.outcome] + AcceptedOutcomes([]);
  }

  /** Otherwise, once something was accepted, the kept list is extended by the new
      evaluation when it is accepted. */
  lemma KeptExtend(p: seq<Eval>, x: Eval)
    requires MinCount(p).Some? && !(x.accepted && x.count < MinCount(p).value)
    ensures Kept(p + [x]) == Kept(p) + (if x.accepted then [x.outcome] else [])
  {
    var p' := p + [x];
    var m := MinCount(p).value;
    MinCountSpec(p);
    MinCountSnoc(p, x);
    FirstWithSnoc(p, x, m);
    var g := FirstWith(p, m, 0);
    assert p'[g..] == p[g..] + [x];
    AcceptedOutcomesSnoc(p[g..], x);
  }

  /** How `result` evolves when one more subset is evaluated: unchanged when it fails
      the rule, restarted on a new strict minimum, otherwise appended to. */
  lemma KeptStep(p: seq<Eval>, x: Eval)
    ensures var m := MinCount(p);
      Kept(p + [x]) ==
        if !x.accepted then Kept(p)
        else if m.None? || x.count < m.value then [x.outcome]
        else Kept(p) + [x.outcome]
  {
    var m := MinCount(p);
    if x.accepted && (m.None? || x.count < m.value) {
      KeptRestart(p, x);
    } else if m.Some? {
      KeptExtend(p, x);
    } else {
      MinCountSnoc(p, x);
    }
  }

  /** The loop's `lowest`, scaled by `10 * |bot|`: the initial `10**6` until an
      evaluation is accepted, then `10 * m - 1` for the minimum count `m`. */
  function Lowest(es: seq<Eval>, botLen: nat): int {
    match MinCount(es)
    case None => 10_000_000 * botLen
    case Some(m) => 10 * m - 1
  }

  /** One iteration of the loop over evaluation `i`, with the comparison against
      `lowest` as written. */
  lemma LoopStep(es: seq<Eval>, i: nat, botLen: nat)
    requires i < |es| && es[i].count <= botLen
    ensures var lowest, x := Lowest(es[..i], botLen), es[i];
      && Kept(es[..i + 1]) ==
           (if !x.accepted then Kept(es[..i])
            else if 10 * x.count - 1 < lowest then [x.outcome]
            else Kept(es[..i]) + [x.outcome])
      && Lowest(es[..i + 1], botLen) ==
           (if x.accepted && 10 * x.count - 1 < lowest then 10 * x.count - 1 else lowest)
  {
    assert es[..i + 1] == es[..i] + [es[i]];
    KeptStep(es[..i], es[i]);
    MinCountSnoc(es[..i], es[i]);
  }

  /** `reduceByCheckCount` (main.py:31-59). `even` is the module-level `EVEN`. */
  method ReduceByCheckCount(checkCount: nat, top: seq<Vertex>, bot: seq<Vertex>, reach: seq<nat>, even: bool)
    returns (result: seq<Outcome>)
    requires |top| > 0 && |bot| > 0 && ValidIdxs(reach, |top|)
    ensures result == ReduceSpec(checkCount, Query(top, bot, reach, even))
  {
    var q := Query(top, bot, reach, even);
    var cs := Combos(reach, checkCount);
    ghost var es := Evaluations(checkCount, q, cs);
    // Fractions over the common denominator 10 * |bot|: the bottom fraction of a subset
    // is (10 * b - 1) / (10 * |bot|), and the initial `lowest = 10**6` is
    // (10_000_000 * |bot|) / (10 * |bot|).
    var lowest: int := 10_000_000 * |bot|;
    result := [];
    var i := 0;
    assert es[..0] == [];
    while i < |cs|
      invariant 0 <= i <= |cs|
      invariant result == Kept(es[..i])
      invariant lowest == Lowest(es[..i], |bot|)
    {
      var checked := cs[i];
      var remaining := Remaining(top, reach, checked);
      var reachableBot := ReachableBot(bot, remaining);
      var b := |reachableBot|;
      var accepted := Accepts(even, |reach|, |top|, b, |bot|);
      ghost var x := es[i];
      EvaluationAt(checkCount, q, cs, i);
      assert x == Eval(accepted, b, OutcomeOf(checkCount, q, checked));
      LoopStep(es, i, |bot|);
      if accepted {
        if 10 * b - 1 < lowest {
          result := [];
          lowest := 10 * b - 1;
        }
        var botReachableIdxs := IndicesOf(bot, reachableBot);
        assert Outcome(checkCount, Sort(botReachableIdxs)) == x.outcome;
        result := result + [Outcome(checkCount, Sort(botReachableIdxs))];
      }
      ghost var done := es[..i + 1];
      assert result == Kept(done) && lowest == Lowest(done, |bot|);
      i := i + 1;
      assert done == es[..i];
    }
    assert es[..|cs|] == es;
  }

  /** Every kept outcome is that of an accepted evaluation. */
  lemma KeptEntries(es: seq<Eval>)
    ensures forall o :: o in Kept(es) ==> exists i :: 0 <= i < |es| && es[i].accepted && es[i].outcome == o
  {
    var m := MinCount(es);
    if m.Some? {
      var f := FirstWith(es, m.value, 0);
      var tail := es[f..];
      forall o | o in Kept(es) ensures exists i :: 0 <= i < |es| && es[i].accepted && es[i].outcome == o {
        var e :| 0 <= e < |Kept(es)| && Kept(es)[e] == o;
        AcceptedOutcomeFrom(tail, e);
        var i :| 0 <= i < |tail| && tail[i].accepted && o == tail[i].outcome;
        assert tail[i] == es[f + i];
      }
    }
  }

  /** Nothing is kept exactly when no evaluation is accepted. */
  lemma KeptEmptyIff(es: seq<Eval>)
    ensures Kept(es) == [] <==> forall i :: 0 <= i < |es| ==> !es[i].accepted
  {
    var m := MinCount(es);
    MinCountSpec(es);
    if m.Some? {
      var f := FirstWith(es, m.value, 0);
      assert f < |es|;
      assert es[f..][0] == es[f];
      assert Kept(es)[0] == es[f].outcome;
    }
  }

  /** Evaluation `f` is the first accepted one with the least count, and the kept
      outcomes are its outcome followed by those of every accepted evaluation after it. */
  predicate LeadsKept(es: seq<Eval>, f: nat) {
    && f < |es| && es[f].accepted
    && Kept(es) == [es[f].outcome] + AcceptedOutcomes(es[f + 1..])
    && (forall j :: 0 <= j < |es| && es[j].accepted ==> es[f].count <= es[j].count)
    && (forall j :: 0 <= j < f && es[j].accepted ==> es[f].count < es[j].count)
  }

  lemma KeptFirstIsMinimal(es: seq<Eval>)
    requires Kept(es) != []
    ensures exists f :: LeadsKept(es, f)
  {
    var m := MinCount(es);
    MinCountSpec(es);
    var f := FirstWith(es, m.value, 0);
    assert f < |es|;
    assert es[f..] == [es[f]] + es[f + 1..];
    forall j | 0 <= j < f && es[j].accepted ensures es[f].count < es[j].count {
      assert !Hits(es[j], m.value);
    }
    assert LeadsKept(es, f);
  }

  /** Every entry of `reduceByCheckCount(k, ...)` records `k` checks and is the outcome
      of an accepted `k`-subset of the reachable indices. */
  lemma ReduceEntries(k: nat, q: Query)
    requires ValidQuery(q)
    ensures forall o :: o in ReduceSpec(k, q) ==>
      (o.checks == k && exists c :: c in Combos(q.reach, k) && Accepted(q, c) && o == OutcomeOf(k, q, c))
  {
    var cs := Combos(q.reach, k);
    var es := Evaluations(k, q, cs);
    KeptEntries(es);
    forall o | o in Kept(es)
      ensures o.checks == k && exists c :: c in cs && Accepted(q, c) && o == OutcomeOf(k, q, c)
    {
      var i :| 0 <= i < |es| && es[i].accepted && es[i].outcome == o;
      EvaluationAt(k, q, cs, i);
      assert cs[i] in cs;
    }
  }

  /** The result is empty exactly when no `k`-subset passes the parity rule. */
  lemma ReduceEmptyIff(k: nat, q: Query)
    requires ValidQuery(q)
    ensures ReduceSpec(k, q) == [] <==> forall c :: c in Combos(q.reach, k) ==> !Accepted(q, c)
  {
    var cs := Combos(q.reach, k);
    var es := Evaluations(k, q, cs);
    KeptEmptyIff(es);
    EvaluationsPointwise(k, q, cs);
    if Kept(es) == [] {
      forall c | c in cs ensures !Accepted(q, c) {
        var i :| 0 <= i < |cs| && cs[i] == c;
        assert !es[i].accepted;
      }
    } else {
      var i :| 0 <= i < |es| && es[i].accepted;
      assert cs[i] in cs;
    }
  }

  /** Subset `cs[f]` is the first enumerated accepted subset with the least bottom
      count, and `r` is its outcome followed by the outcomes of the accepted subsets
      enumerated after it, in order. */
  predicate LeadsWith(k: nat, q: Query, cs: seq<seq<nat>>, r: seq<Outcome>, f: nat)
    requires ValidQuery(q)
  {
    && f < |cs| && Accepted(q, cs[f])
    && r == [OutcomeOf(k, q, cs[f])] + AcceptedOutcomes(Evaluations(k, q, cs[f + 1..]))
    && (forall j :: 0 <= j < |cs| && Accepted(q, cs[j]) ==> BotCount(q, cs[f]) <= BotCount(q, cs[j]))
    && (forall j :: 0 <= j < f && Accepted(q, cs[j]) ==> BotCount(q, cs[f]) < BotCount(q, cs[j]))
  }

  lemma {:induction false} EvaluationsSuffix(k: nat, q: Query, cs: seq<seq<nat>>, i: nat)
    requires ValidQuery(q) && i <= |cs|
    ensures Evaluations(k, q, cs)[i..] == Evaluations(k, q, cs[i..])
    decreases i
  {
    if i > 0 {
      EvaluationsSuffix(k, q, cs[1..], i - 1);
      assert cs[1..][i - 1..] == cs[i..];
    }
  }

  /** A bound on the counts of the accepted evaluations among the first `n`, restated
      on the subsets themselves. */
  lemma LiftCounts(k: nat, q: Query, cs: seq<seq<nat>>, f: nat, n: nat, strict: bool)
    requires ValidQuery(q) && f < |cs| && n <= |cs|
    requires var es := Evaluations(k, q, cs);
      forall j :: 0 <= j < n && es[j].accepted ==>
        if strict then es[f].count < es[j].count else es[f].count <= es[j].count
    ensures forall j :: 0 <= j < n && Accepted(q, cs[j]) ==>
      if strict then BotCount(q, cs[f]) < BotCount(q, cs[j]) else BotCount(q, cs[f]) <= BotCount(q, cs[j])
  {
    EvaluationAt(k, q, cs, f);
    forall j | 0 <= j < n && Accepted(q, cs[j])
      ensures if strict then BotCount(q, cs[f]) < BotCount(q, cs[j]) else BotCount(q, cs[f]) <= BotCount(q, cs[j])
    {
      EvaluationAt(k, q, cs, j);
    }
  }

  /** A non-empty result is led by the first accepted subset of least bottom count and
      continues with every accepted subset enumerated after it. */
  lemma ReduceFirstIsMinimal(k: nat, q: Query)
    requires ValidQuery(q)
    requires ReduceSpec(k, q) != []
    ensures exists f :: LeadsWith(k, q, Combos(q.reach, k), ReduceSpec(k, q), f)
  {
    var cs := Combos(q.reach, k);
    var es := Evaluations(k, q, cs);
    var r := Kept(es);
    KeptFirstIsMinimal(es);
    var f: nat :| LeadsKept(es, f);
    assert LeadsWith(k, q, cs, r, f) by {
      EvaluationAt(k, q, cs, f);
      EvaluationsSuffix(k, q, cs, f + 1);
      LiftCounts(k, q, cs, f, |cs|, false);
      LiftCounts(k, q, cs, f, f, true);
    }
  }

  lemma {:induction false} NothingRemainsWhenAllChecked(top: seq<Vertex>, reach: seq<nat>, checked: seq<nat>)
    requires ValidIdxs(reach, |top|)
    requires forall i :: 0 <= i < |reach| ==> reach[i] in checked
    ensures Remaining(top, reach, checked) == []
  {
    if reach != [] {
      NothingRemainsWhenAllChecked(top, reach[1..], checked);
    }
  }

  lemma {:induction false} NothingReachedFromNothing(bot: seq<Vertex>)
    ensures ReachableBot(bot, []) == []
  {
    if bot != [] {
      NothingReachedFromNothing(bot[1..]);
    }
  }

  /** Checking every reachable index always passes: nothing is left, so the bottom
      fraction is negative (the base case findReducingSet relies on). */
  lemma CheckingAllIsAccepted(q: Query)
    requires ValidQuery(q) && |q.reach| > 0
    ensures ReduceSpec(|q.reach|, q) == [Outcome(|q.reach|, [])]
  {
    var t := |q.reach|;
    var cs := Combos(q.reach, t);
    CombosOfAll(q.reach);
    AllCheckedEvaluation(q);
    var es := Evaluations(t, q, cs);
    EvaluationAt(t, q, cs, 0);
    assert es == [Eval(true, 0, Outcome(t, []))];
    KeptSingle(es[0]);
  }

  /** Checking the whole reachable set leaves no bottom vertex reached, which passes. */
  lemma AllCheckedEvaluation(q: Query)
    requires ValidQuery(q) && |q.reach| > 0
    ensures Evaluate(|q.reach|, q, q.reach) == Eval(true, 0, Outcome(|q.reach|, []))
  {
    var t := |q.reach|;
    NothingRemainsWhenAllChecked(q.top, q.reach, q.reach);
    NothingReachedFromNothing(q.bot);
    assert BotCount(q, q.reach) == 0;
    assert (10 * t - 1) * |q.bot| >= 9 * |q.bot|;
    assert Accepted(q, q.reach);
    assert OutcomeOf(t, q, q.reach) == Outcome(t, []);
  }

  lemma KeptSingle(e: Eval)
    requires e.accepted
    ensures Kept([e]) == [e.outcome]
  {
    var es := [e];
    assert es[..0] == [];
    assert MinCount(es) == Some(e.count);
    assert FirstWith(es, e.count, 0) == 0;
    assert es[0..] == es && es[1..] == [];
    assert AcceptedOutcomes(es) == [e.outcome] + AcceptedOutcomes([]);
  }
}
