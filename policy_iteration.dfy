/**
 * PolicyIterationAgent: a value table `policyValues` and a policy
 * `curPolicy`, evaluated by in-place (Gauss-Seidel) sweeps and improved by a
 * one-step lookahead, alternated by `train`.
 *
 * The model follows the code where it departs from its doc-comments:
 *  - evaluatePolicy loops WHILE the largest change is below delta and never
 *    resets it, so it stops after the first sweep that moved some value by at
 *    least delta, and never stops on a table that is already a fixed point
 *    (FixedPointNeverExits);
 *  - improvePolicy ranks the outcomes of the state's CURRENT move and adopts
 *    the move recorded in the best one, so when outcomes record the action
 *    that produced them it never changes anything (ImproveKeepsRecordedMoves).
 *
 * Neither loop is guaranteed to end, so evaluation and training take fuel.
 */
module PolicyIteration {
  import opened Mdp
  import opened Scan

  // ---------------------------------------------------------------------
  // calculateStateValue

  /** calculateStateValue: the expected one-step return of g under the policy,
      0 when g has no policy move or the model gives no transition list. */
  function StateValue<S, A>(v: map<S, real>, policy: map<S, A>, model: Model<S, A>, g: S): real
  {
    if g !in policy then 0.0
    else
      match model.trans(g, policy[g])
      case None => 0.0
      case Some(ts) => Backup(ts, v, model.discount)
  }

  /** The successors whose values the state's value reads: those of the
      outcomes of its policy move (none without a move or a list). */
  function PolicySuccessors<S, A>(policy: map<S, A>, model: Model<S, A>, g: S): set<S>
  {
    if g in policy && model.trans(g, policy[g]).Some? then Successors(model.trans(g, policy[g]).value) else {}
  }

  /** The value of a state depends on the table only through the values,
      read with getOrDefault, of the successors of its policy move; in
      particular it is 0 whatever the table when it has no policy move or
      the model gives no list. */
  lemma StateValueFrame<S, A>(v: map<S, real>, w: map<S, real>, policy: map<S, A>, model: Model<S, A>, g: S)
    requires forall s :: s in PolicySuccessors(policy, model, g) ==> Get(v, s) == Get(w, s)
    ensures StateValue(v, policy, model, g) == StateValue(w, policy, model, g)
  {
    if g in policy && model.trans(g, policy[g]).Some? {
      BackupFrame(model.trans(g, policy[g]).value, v, w, model.discount);
    }
  }

  // ---------------------------------------------------------------------
  // evaluatePolicy

  ghost predicate Distinct<S>(order: seq<S>)
  {
    forall i, j :: 0 <= i < j < |order| ==> order[i] != order[j]
  }

  /** `order` lists every key of the table exactly once (a keySet iteration order). */
  ghost predicate IsEnumeration<S>(order: seq<S>, keys: set<S>)
  {
    Distinct(order) && (forall i :: 0 <= i < |order| ==> order[i] in keys) && (forall g :: g in keys ==> g in order)
  }

  /** The value table and the running `maxChange` of evaluatePolicy. */
  datatype Eval<S> = Eval(values: map<S, real>, maxChange: real)

  /** Lines 154-159 for one key: recompute its value from the table as it is
      now, store it, and fold the size of the change into maxChange. */
  function EvalStep<S, A>(e: Eval<S>, policy: map<S, A>, model: Model<S, A>, g: S): (r: Eval<S>)
    requires g in e.values
    ensures r.values.Keys == e.values.Keys
    ensures r.values[g] == StateValue(e.values, policy, model, g)
    ensures forall k :: k in e.values && k != g ==> r.values[k] == e.values[k]
    ensures r.maxChange == Max(e.maxChange, Abs(r.values[g] - e.values[g]))
  {
    var newValue := StateValue(e.values, policy, model, g);
    Eval(e.values[g := newValue], Max(e.maxChange, Abs(newValue - e.values[g])))
  }

  /** The first n steps of one in-place sweep over `order`. */
  function SweepPrefix<S, A>(e: Eval<S>, order: seq<S>, policy: map<S, A>, model: Model<S, A>, n: nat): (r: Eval<S>)
    requires n <= |order| && forall g :: g in order ==> g in e.values
    ensures r.values.Keys == e.values.Keys
    ensures r.maxChange >= e.maxChange
    decreases n
  {
    if n == 0 then e
    else EvalStep(SweepPrefix(e, order, policy, model, n - 1), policy, model, order[n - 1])
  }

  /** One full pass of the `for (Game game : policyValues.keySet())` loop. */
  function Sweep<S, A>(e: Eval<S>, order: seq<S>, policy: map<S, A>, model: Model<S, A>): (r: Eval<S>)
    requires forall g :: g in order ==> g in e.values
    ensures r.values.Keys == e.values.Keys
    ensures r.maxChange >= e.maxChange
  {
    SweepPrefix(e, order, policy, model, |order|)
  }

  /** A key written at step i keeps its value for the rest of the sweep. */
  lemma {:induction false} SweepPrefixKeeps<S, A>(e: Eval<S>, order: seq<S>, policy: map<S, A>, model: Model<S, A>, i: nat, n: nat)
    requires Distinct(order) && forall g :: g in order ==> g in e.values
    requires i < n <= |order|
    ensures SweepPrefix(e, order, policy, model, n).values[order[i]]
         == SweepPrefix(e, order, policy, model, i + 1).values[order[i]]
    decreases n
  {
    if n > i + 1 {
      assert order[i] != order[n - 1];
      SweepPrefixKeeps(e, order, policy, model, i, n - 1);
    }
  }

  /** A key not yet visited still holds its value from before the sweep. */
  lemma {:induction false} SweepPrefixUntouched<S, A>(e: Eval<S>, order: seq<S>, policy: map<S, A>, model: Model<S, A>, n: nat, k: S)
    requires forall g :: g in order ==> g in e.values
    requires n <= |order| && k in e.values && k !in order[..n]
    ensures SweepPrefix(e, order, policy, model, n).values[k] == e.values[k]
    decreases n
  {
    if n > 0 {
      assert order[..n - 1] <= order[..n];
      assert order[n - 1] in order[..n];
      SweepPrefixUntouched(e, order, policy, model, n - 1, k);
    }
  }

  /** The sweep is in place: the state at position i is recomputed from a
      table that already holds this sweep's new values for the states before
      it and the previous values for every other state. */
  lemma SweepInPlace<S, A>(e: Eval<S>, order: seq<S>, policy: map<S, A>, model: Model<S, A>, i: nat)
    requires Distinct(order) && forall g :: g in order ==> g in e.values
    requires i < |order|
    ensures var before := SweepPrefix(e, order, policy, model, i).values;
            var after := Sweep(e, order, policy, model).values;
            && after[order[i]] == StateValue(before, policy, model, order[i])
            && (forall j :: 0 <= j < i ==> before[order[j]] == after[order[j]])
            && (forall k :: k in e.values && k !in order[..i] ==> before[k] == e.values[k])
  {
    SweepPrefixKeeps(e, order, policy, model, i, |order|);
    forall j | 0 <= j < i
      ensures SweepPrefix(e, order, policy, model, i).values[order[j]]
           == Sweep(e, order, policy, model).values[order[j]]
    {
      SweepPrefixKeeps(e, order, policy, model, j, i);
      SweepPrefixKeeps(e, order, policy, model, j, |order|);
    }
    forall k | k in e.values && k !in order[..i]
      ensures SweepPrefix(e, order, policy, model, i).values[k] == e.values[k]
    {
      SweepPrefixUntouched(e, order, policy, model, i, k);
    }
  }

  /** Repeated sweeps while maxChange < delta, at most `fuel` of them: the
      table, the final maxChange and the number of sweeps run. */
  function EvalRun<S, A>(e: Eval<S>, order: seq<S>, policy: map<S, A>, model: Model<S, A>, delta: real, fuel: nat): (r: (Eval<S>, nat))
    requires forall g :: g in order ==> g in e.values
    ensures r.0.values.Keys == e.values.Keys
    ensures r.1 <= fuel
    decreases fuel
  {
    if !(e.maxChange < delta) || fuel == 0 then (e, 0)
    else
      var next := EvalRun(Sweep(e, order, policy, model), order, policy, model, delta, fuel - 1);
      (next.0, next.1 + 1)
  }

  /** One more sweep, when the loop condition holds. */
  lemma EvalRunStep<S, A>(e: Eval<S>, order: seq<S>, policy: map<S, A>, model: Model<S, A>, delta: real, fuel: nat, rest: nat)
    requires forall g :: g in order ==> g in e.values
    requires e.maxChange < delta && fuel == rest + 1
    ensures var r := EvalRun(Sweep(e, order, policy, model), order, policy, model, delta, rest);
            EvalRun(e, order, policy, model, delta, fuel) == (r.0, r.1 + 1)
  {
  }

  /** The evaluation loop stops early only on its exit condition: either
      some single update moved a value by at least delta, or the fuel ran
      out. maxChange is never reset, so it only grows. */
  lemma {:induction false} EvalRunExit<S, A>(e: Eval<S>, order: seq<S>, policy: map<S, A>, model: Model<S, A>, delta: real, fuel: nat)
    requires forall g :: g in order ==> g in e.values
    ensures var r := EvalRun(e, order, policy, model, delta, fuel);
            && r.0.maxChange >= e.maxChange
            && (r.0.maxChange >= delta || r.1 == fuel)
            && (r.1 > 0 ==> e.maxChange < delta)
    decreases fuel
  {
    if e.maxChange < delta && fuel > 0 {
      EvalRunExit(Sweep(e, order, policy, model), order, policy, model, delta, fuel - 1);
    }
  }

  /** A sweep over a table whose every listed state already equals its
      recomputed value changes nothing. */
  lemma {:induction false} SweepPrefixFixed<S, A>(e: Eval<S>, order: seq<S>, policy: map<S, A>, model: Model<S, A>, n: nat)
    requires forall g :: g in order ==> g in e.values
    requires forall g :: g in order ==> StateValue(e.values, policy, model, g) == e.values[g]
    requires e.maxChange >= 0.0 && n <= |order|
    ensures SweepPrefix(e, order, policy, model, n) == e
    decreases n
  {
    if n > 0 {
      SweepPrefixFixed(e, order, policy, model, n - 1);
      var g := order[n - 1];
      assert e.values[g := e.values[g]] == e.values;
    }
  }

  /** The loop condition of evaluatePolicy is inverted with respect to its
      documentation: on a table that is already the policy's fixed point no
      update changes anything, maxChange stays 0 and, for any positive delta,
      the loop never exits, however much fuel it gets. */
  lemma {:induction false} FixedPointNeverExits<S, A>(v: map<S, real>, order: seq<S>, policy: map<S, A>, model: Model<S, A>, delta: real, fuel: nat)
    requires forall g :: g in order ==> g in v
    requires forall g :: g in order ==> StateValue(v, policy, model, g) == v[g]
    requires delta > 0.0
    ensures EvalRun(Eval(v, 0.0), order, policy, model, delta, fuel) == (Eval(v, 0.0), fuel)
    decreases fuel
  {
    if fuel > 0 {
      SweepPrefixFixed(Eval(v, 0.0), order, policy, model, |order|);
      FixedPointNeverExits(v, order, policy, model, delta, fuel - 1);
    }
  }

  // ---------------------------------------------------------------------
  // improvePolicy

  /** Line 218: only non-null outcomes that carry a move are ranked. */
  predicate Ranked<S, A>(t: TransitionProb<S, A>)
  {
    t.outcome.Some? && t.outcome.value.move.Some?
  }

  /** Line 220 unboxes policyValues.get(outcome.sPrime): the pass over state
      g with move m throws unless the model gives a list and every ranked
      outcome has a successor that is a key of the table. */
  ghost predicate ImproveDefined<S, A>(model: Model<S, A>, keys: set<S>, g: S, m: A)
  {
    && model.trans(g, m).Some?
    && forall t :: t in model.trans(g, m).value && Ranked(t) ==>
         t.outcome.value.sPrime.Some? && t.outcome.value.sPrime.value in keys
  }

  /** ImproveDefined for every state of the policy with its current move:
      what one improvePolicy pass needs. */
  ghost predicate PolicyDefined<S, A>(model: Model<S, A>, keys: set<S>, policy: map<S, A>)
  {
    forall g :: g in policy ==> ImproveDefined(model, keys, g, policy[g])
  }

  /** Improvement never leads a state of `states` out of ImproveDefined:
      every move that a ranked outcome of a defined move records is defined
      too. What train needs besides PolicyDefined, since improvePolicy
      adopts exactly such recorded moves. */
  ghost predicate RecordedMovesDefined<S, A(!new)>(model: Model<S, A>, keys: set<S>, states: set<S>)
  {
    forall g, m :: g in states && ImproveDefined(model, keys, g, m) ==>
      forall t :: t in model.trans(g, m).value && Ranked(t) ==> ImproveDefined(model, keys, g, t.outcome.value.move.value)
  }

  /** Line 221: p * (r + discount * V(s')) for a ranked outcome. Where
      ImproveDefined fails (and Java throws) a missing successor reads as 0. */
  function OutcomeValue<S, A>(t: TransitionProb<S, A>, v: map<S, real>, discount: real): real
    requires Ranked(t)
  {
    var next := t.outcome.value.sPrime;
    t.prob * (t.outcome.value.localReward + discount * (if next.Some? then Get(v, next.value) else 0.0))
  }

  /** The candidate values of the scan at lines 215-228 (None: skipped). */
  function Scores<S, A>(ts: seq<TransitionProb<S, A>>, v: map<S, real>, discount: real): seq<Option<real>>
  {
    seq(|ts|, i requires 0 <= i < |ts| => if Ranked(ts[i]) then Some(OutcomeValue(ts[i], v, discount)) else None)
  }

  /** The move improvePolicy leaves for state g whose current move is m. */
  function ImprovedMove<S, A>(v: map<S, real>, model: Model<S, A>, g: S, m: A): A
  {
    match model.trans(g, m)
    case None => m
    case Some(ts) =>
      var vals := Scores(ts, v, model.discount);
      var i := FirstMax(vals, None);
      FirstMaxIsFirstMax(vals, None);
      if i < 0 then m else ts[i].outcome.value.move.value
  }

  /** improvePolicy keeps m when no outcome of m is ranked; otherwise it
      adopts the move recorded in a ranked outcome of m whose value is the
      largest, the first such one when several tie. */
  lemma ImprovedMoveIsFirstBest<S, A>(v: map<S, real>, model: Model<S, A>, g: S, m: A)
    requires model.trans(g, m).Some?
    ensures var ts := model.trans(g, m).value;
            var r := ImprovedMove(v, model, g, m);
            && ((forall i :: 0 <= i < |ts| ==> !Ranked(ts[i])) ==> r == m)
            && ((exists i :: 0 <= i < |ts| && Ranked(ts[i])) ==>
                  exists i :: 0 <= i < |ts| && Ranked(ts[i]) && r == ts[i].outcome.value.move.value
                    && (forall j :: 0 <= j < |ts| && Ranked(ts[j]) ==>
                          OutcomeValue(ts[j], v, model.discount) <= OutcomeValue(ts[i], v, model.discount))
                    && (forall j :: 0 <= j < i && Ranked(ts[j]) ==>
                          OutcomeValue(ts[j], v, model.discount) < OutcomeValue(ts[i], v, model.discount)))
  {
    var ts := model.trans(g, m).value;
    var vals := Scores(ts, v, model.discount);
    var i := FirstMax(vals, None);
    FirstMaxIsFirstMax(vals, None);
    if i >= 0 {
      assert Ranked(ts[i]);
      assert forall j :: 0 <= j < |ts| && Ranked(ts[j]) ==>
        OutcomeValue(ts[j], v, model.discount) <= OutcomeValue(ts[i], v, model.discount) by {
        forall j | 0 <= j < |ts| && Ranked(ts[j])
          ensures OutcomeValue(ts[j], v, model.discount) <= OutcomeValue(ts[i], v, model.discount)
        {
          if j < i { assert Beats(vals[i], vals[j]); }
          else if j > i { assert !Beats(vals[j], vals[i]); }
        }
      }
      assert forall j :: 0 <= j < i && Ranked(ts[j]) ==>
        OutcomeValue(ts[j], v, model.discount) < OutcomeValue(ts[i], v, model.discount) by {
        forall j | 0 <= j < i && Ranked(ts[j])
          ensures OutcomeValue(ts[j], v, model.discount) < OutcomeValue(ts[i], v, model.discount)
        {
          assert Beats(vals[i], vals[j]);
        }
      }
    } else {
      forall j | 0 <= j < |ts| ensures !Ranked(ts[j]) {
        assert !Beats(vals[j], None);
      }
    }
  }

  /** The policy after one improvePolicy pass: same keys, each entry
      replaced by its ImprovedMove. */
  function Improved<S, A>(policy: map<S, A>, v: map<S, real>, model: Model<S, A>): (r: map<S, A>)
    ensures r.Keys == policy.Keys
  {
    map g | g in policy :: ImprovedMove(v, model, g, policy[g])
  }

  /** An improvement pass keeps the policy inside the domain where the next
      pass runs without a NullPointerException. */
  lemma ImprovedStaysDefined<S, A(!new)>(policy: map<S, A>, v: map<S, real>, model: Model<S, A>, keys: set<S>)
    requires PolicyDefined(model, keys, policy) && RecordedMovesDefined(model, keys, policy.Keys)
    ensures PolicyDefined(model, keys, Improved(policy, v, model))
  {
    forall g | g in policy ensures ImproveDefined(model, keys, g, ImprovedMove(v, model, g, policy[g])) {
      ImprovedMoveIsFirstBest(v, model, g, policy[g]);
      var ts := model.trans(g, policy[g]).value;
      if exists i :: 0 <= i < |ts| && Ranked(ts[i]) && ImprovedMove(v, model, g, policy[g]) == ts[i].outcome.value.move.value {
        var i :| 0 <= i < |ts| && Ranked(ts[i]) && ImprovedMove(v, model, g, policy[g]) == ts[i].outcome.value.move.value;
        assert ts[i] in ts;
      }
    }
  }

  /** No entry of the policy would change in an improvePolicy pass. */
  ghost predicate IsStable<S, A>(policy: map<S, A>, v: map<S, real>, model: Model<S, A>)
  {
    forall g :: g in policy ==> ImprovedMove(v, model, g, policy[g]) == policy[g]
  }

  /** A stable policy is exactly a fixed point of the improvement pass. */
  lemma StableIsFixedPoint<S, A>(policy: map<S, A>, v: map<S, real>, model: Model<S, A>)
    ensures IsStable(policy, v, model) <==> Improved(policy, v, model) == policy
  {
    if Improved(policy, v, model) == policy {
      forall g | g in policy ensures ImprovedMove(v, model, g, policy[g]) == policy[g] {
        assert Improved(policy, v, model)[g] == policy[g];
      }
    }
  }

  /** Outcomes record the action that produced them (or no action). */
  ghost predicate RecordsAction<S(!new), A(!new)>(model: Model<S, A>)
  {
    forall g, m, t :: model.trans(g, m).Some? && t in model.trans(g, m).value && Ranked(t) ==>
      t.outcome.value.move.value == m
  }

  /** Because improvePolicy looks only at the outcomes of the current move,
      a model whose outcomes record their action makes it a no-op. */
  lemma ImproveKeepsRecordedMoves<S(!new), A(!new)>(policy: map<S, A>, v: map<S, real>, model: Model<S, A>)
    requires RecordsAction(model)
    ensures IsStable(policy, v, model) && Improved(policy, v, model) == policy
  {
    forall g | g in policy ensures ImprovedMove(v, model, g, policy[g]) == policy[g] {
      if model.trans(g, policy[g]).Some? {
        var ts := model.trans(g, policy[g]).value;
        var i := FirstMax(Scores(ts, v, model.discount), None);
        FirstMaxIsFirstMax(Scores(ts, v, model.discount), None);
        if i >= 0 {
          assert ts[i] in ts;
        }
      }
    }
    StableIsFixedPoint(policy, v, model);
  }

  // ---------------------------------------------------------------------
  // train

  /** The outcome of train: the policy and table it leaves, and whether it
      ended because improvePolicy reported no change. */
  datatype TrainResult<S, A> = TrainResult(policy: map<S, A>, values: map<S, real>, converged: bool)

  /** How one pass of the train loop ends: the loop goes on from a new
      policy and table, or stops with a result. */
  datatype Round<S, A> = Continue(policy: map<S, A>, values: map<S, real>) | Stop(result: TrainResult<S, A>)

  /** One pass of `while (improvePolicy()) evaluatePolicy(delta);`: improve;
      stop, converged, when nothing changed; otherwise evaluate the improved
      policy with at most `evalFuel` sweeps, unless this is the `last` round
      allowed, and give up when the evaluation does not reach its exit
      condition. */
  ghost function TrainRound<S, A>(policy: map<S, A>, v: map<S, real>, order: seq<S>, model: Model<S, A>,
                                  delta: real, last: bool, evalFuel: nat): (r: Round<S, A>)
    requires forall g :: g in order ==> g in v
    ensures last ==> r.Stop?
    ensures r.Continue? ==> r.policy.Keys == policy.Keys && r.values.Keys == v.Keys
    ensures r.Stop? ==> r.result.policy.Keys == policy.Keys && r.result.values.Keys == v.Keys
  {
    if IsStable(policy, v, model) then Stop(TrainResult(policy, v, true))
    else if last then Stop(TrainResult(Improved(policy, v, model), v, false))
    else
      var improved := Improved(policy, v, model);
      var run := EvalRun(Eval(v, 0.0), order, improved, model, delta, evalFuel);
      if run.0.maxChange < delta then Stop(TrainResult(improved, run.0.values, false))
      else Continue(improved, run.0.values)
  }

  /** The whole train loop, with at most `rounds` evaluations. */
  ghost function TrainRun<S, A>(policy: map<S, A>, v: map<S, real>, order: seq<S>, model: Model<S, A>,
                                delta: real, rounds: nat, evalFuel: nat): (r: TrainResult<S, A>)
    requires forall g :: g in order ==> g in v
    ensures r.policy.Keys == policy.Keys && r.values.Keys == v.Keys
    decreases rounds
  {
    match TrainRound(policy, v, order, model, delta, rounds == 0, evalFuel)
    case Stop(result) => result
    case Continue(improved, evaluated) => TrainRun(improved, evaluated, order, model, delta, rounds - 1, evalFuel)
  }

  /** The loop goes on after a round that continues. */
  lemma TrainRunContinues<S, A>(policy: map<S, A>, v: map<S, real>, order: seq<S>, model: Model<S, A>,
                                delta: real, rounds: nat, rest: nat, evalFuel: nat)
    requires forall g :: g in order ==> g in v
    requires TrainRound(policy, v, order, model, delta, rounds == 0, evalFuel).Continue? && rounds == rest + 1
    ensures var next := TrainRound(policy, v, order, model, delta, rounds == 0, evalFuel);
            TrainRun(policy, v, order, model, delta, rounds, evalFuel)
              == TrainRun(next.policy, next.values, order, model, delta, rest, evalFuel)
  {
  }

  /** When train ends normally, the policy is stable against the final
      table: one more improvePolicy pass would change nothing. */
  lemma {:induction false} TrainConverged<S, A>(policy: map<S, A>, v: map<S, real>, order: seq<S>, model: Model<S, A>,
                                               delta: real, rounds: nat, evalFuel: nat)
    requires forall g :: g in order ==> g in v
    ensures var r := TrainRun(policy, v, order, model, delta, rounds, evalFuel);
            r.converged ==> IsStable(r.policy, r.values, model)
    decreases rounds
  {
    var round := TrainRound(policy, v, order, model, delta, rounds == 0, evalFuel);
    if round.Continue? {
      TrainConverged(round.policy, round.values, order, model, delta, rounds - 1, evalFuel);
    }
  }

  /** With a model whose outcomes record their action, train converges at
      once: no evaluation runs and both tables are returned unchanged. */
  lemma TrainStopsAtOnce<S(!new), A(!new)>(policy: map<S, A>, v: map<S, real>, order: seq<S>, model: Model<S, A>,
                                          delta: real, rounds: nat, evalFuel: nat)
    requires forall g :: g in order ==> g in v
    requires RecordsAction(model)
    ensures TrainRun(policy, v, order, model, delta, rounds, evalFuel) == TrainResult(policy, v, true)
  {
    ImproveKeepsRecordedMoves(policy, v, model);
  }

  // ---------------------------------------------------------------------
  // The agent

  class PolicyIterationAgent<S(==), A(==,!new)> {
    /** State values under the current policy. */
    var policyValues: map<S, real>
    /** The current policy. */
    var curPolicy: map<S, A>
    /** The policy handed to the game (Agent.policy). */
    var policy: map<S, A>
    const model: Model<S, A>
    /** The convergence threshold of evaluatePolicy. */
    const delta: real

    constructor (model: Model<S, A>)
      ensures this.model == model && delta == 0.1
      ensures policyValues == map[] && curPolicy == map[] && policy == map[]
    {
      this.model := model;
      delta := 0.1;
      policyValues := map[];
      curPolicy := map[];
      policy := map[];
    }

    /** initValues: every enumerated state gets value 0. */
    method InitValues(allGames: seq<S>)
      modifies this`policyValues
      ensures policyValues == old(policyValues) + map g | g in allGames :: 0.0
    {
      var i := 0;
      while i < |allGames|
        invariant 0 <= i <= |allGames|
        invariant policyValues == old(policyValues) + map g | g in allGames[..i] :: 0.0
      {
        policyValues := policyValues[allGames[i] := 0.0];
        i := i + 1;
        assert allGames[..i] == allGames[..i - 1] + [allGames[i - 1]];
      }
      assert allGames[..i] == allGames;
    }

    /** initRandomPolicy: every enumerated state with a legal move gets the
        move at its injected random index; terminal states get no entry. */
    method InitRandomPolicy(allGames: seq<S>, pick: S -> nat)
      requires forall g :: g in allGames && model.moves(g) != [] ==> pick(g) < |model.moves(g)|
      modifies this`curPolicy
      ensures curPolicy.Keys == old(curPolicy).Keys + NonTerminal(allGames, model.moves)
      ensures forall g :: g in curPolicy ==>
                curPolicy[g] == if g in NonTerminal(allGames, model.moves) then model.moves(g)[pick(g)] else old(curPolicy)[g]
      ensures forall g :: g in NonTerminal(allGames, model.moves) ==> curPolicy[g] in model.moves(g)
    {
      var i := 0;
      while i < |allGames|
        invariant 0 <= i <= |allGames|
        invariant curPolicy.Keys == old(curPolicy).Keys + NonTerminal(allGames[..i], model.moves)
        invariant forall g :: g in curPolicy ==>
                    curPolicy[g] == if g in NonTerminal(allGames[..i], model.moves) then model.moves(g)[pick(g)] else old(curPolicy)[g]
      {
        var g := allGames[i];
        var possibleMoves := model.moves(g);
        if possibleMoves != [] {
          curPolicy := curPolicy[g := possibleMoves[pick(g)]];
        }
        i := i + 1;
        assert allGames[..i] == allGames[..i - 1] + [g];
      }
      assert allGames[..i] == allGames;
    }

    /** calculateStateValue: the guarded accumulation loop of lines 184-195. */
    method CalculateStateValue(game: S) returns (newValue: real)
      ensures newValue == StateValue(policyValues, curPolicy, model, game)
    {
      if game !in curPolicy {
        return 0.0;
      }
      var currentMove := curPolicy[game];
      var transitions := model.trans(game, currentMove);
      if transitions.None? {
        return 0.0;
      }
      var ts := transitions.value;
      newValue := 0.0;
      var j := 0;
      while j < |ts|
        invariant 0 <= j <= |ts|
        invariant newValue + Backup(ts[j..], policyValues, model.discount) == Backup(ts, policyValues, model.discount)
      {
        var transition := ts[j];
        BackupAt(ts, j, policyValues, model.discount);
        var outcome := transition.outcome;
        if outcome.Some? {
          var probability := transition.prob;
          if outcome.value.sPrime.Some? {
            var nextStateValue := Get(policyValues, outcome.value.sPrime.value);
            newValue := newValue + probability * (outcome.value.localReward + model.discount * nextStateValue);
          }
        }
        j := j + 1;
      }
    }

    /** Lines 153-160: one pass of the keySet loop, in order `order`,
        folding every change into maxChange. */
    method SweepValues(order: seq<S>, maxChange: real) returns (newMaxChange: real)
      requires forall g :: g in order ==> g in policyValues
      modifies this`policyValues
      ensures Eval(policyValues, newMaxChange) == Sweep(Eval(old(policyValues), maxChange), order, curPolicy, model)
    {
      ghost var start := Eval(policyValues, maxChange);
      newMaxChange := maxChange;
      var i := 0;
      while i < |order|
        invariant 0 <= i <= |order|
        invariant SweepPrefix(start, order, curPolicy, model, i) == Eval(policyValues, newMaxChange)
      {
        var game := order[i];
        var oldValue := policyValues[game];
        var newValue := CalculateStateValue(game);
        policyValues := policyValues[game := newValue];
        newMaxChange := Max(newMaxChange, Abs(newValue - oldValue));
        i := i + 1;
      }
    }

    /** evaluatePolicy: in-place sweeps in keySet order `order` while the
        largest change seen so far is below delta, at most `fuel` sweeps. */
    method EvaluatePolicy(delta: real, order: seq<S>, fuel: nat) returns (exited: bool, sweeps: nat)
      requires IsEnumeration(order, policyValues.Keys)
      modifies this`policyValues
      ensures var r := EvalRun(Eval(old(policyValues), 0.0), order, curPolicy, model, delta, fuel);
              policyValues == r.0.values && sweeps == r.1 && (exited <==> r.0.maxChange >= delta)
    {
      ghost var e0 := Eval(policyValues, 0.0);
      ghost var left: nat := fuel;
      var maxChange := 0.0;
      sweeps := 0;
      while maxChange < delta && sweeps < fuel
        invariant sweeps + left == fuel
        invariant forall g :: g in order ==> g in policyValues
        invariant var r := EvalRun(Eval(policyValues, maxChange), order, curPolicy, model, delta, left);
                  EvalRun(e0, order, curPolicy, model, delta, fuel) == (r.0, r.1 + sweeps)
        decreases left
      {
        ghost var start := Eval(policyValues, maxChange);
        maxChange := SweepValues(order, maxChange);
        ghost var budget := left;
        sweeps, left := sweeps + 1, left - 1;
        EvalRunStep(start, order, curPolicy, model, delta, budget, left);
      }
      exited := !(maxChange < delta);
    }

    /** Lines 211-228: the scan over the outcomes of the current move m of
        `game` for the outcome of largest value; None when no outcome is
        ranked. Either way the move the pass leaves is ImprovedMove. */
    method BestMove(game: S, m: A) returns (bestMove: Option<A>)
      requires ImproveDefined(model, policyValues.Keys, game, m)
      ensures ImprovedMove(policyValues, model, game, m) == if bestMove.Some? then bestMove.value else m
    {
      var transitions := model.trans(game, m).value;
      ghost var vals := Scores(transitions, policyValues, model.discount);
      ghost var best := -1;
      var maxExpectedValue: Option<real> := None;
      bestMove := None;
      var j := 0;
      while j < |transitions|
        invariant 0 <= j <= |transitions|
        invariant IsFirstMax(vals, None, j, best)
        invariant maxExpectedValue == Held(vals, None, best)
        invariant bestMove == if best < 0 then None else transitions[best].outcome.value.move
      {
        ScanStep(vals, None, j, best);
        var transition := transitions[j];
        var outcome := transition.outcome;
        if outcome.Some? && outcome.value.move.Some? {
          assert transition in transitions;
          var nextStateValue := policyValues[outcome.value.sPrime.value];
          var expectedValue := transition.prob * (outcome.value.localReward + model.discount * nextStateValue);
          assert Ranked(transitions[j]);
          assert OutcomeValue(transitions[j], policyValues, model.discount) == expectedValue;
          if maxExpectedValue.None? || expectedValue > maxExpectedValue.value {
            maxExpectedValue := Some(expectedValue);
            bestMove := outcome.value.move;
            best := j;
          }
        }
        j := j + 1;
      }
      FirstMaxIsFirstMax(vals, None);
      FirstMaxUnique(vals, None, |vals|, best, FirstMax(vals, None));
      if best >= 0 {
        assert Beats(vals[best], None);
      }
    }

    /** Lines 210-233 for one state: adopt the best move when there is one
        and it differs from the current move. */
    method ImproveState(game: S) returns (changed: bool)
      requires game in curPolicy && ImproveDefined(model, policyValues.Keys, game, curPolicy[game])
      modifies this`curPolicy
      ensures curPolicy == old(curPolicy)[game := ImprovedMove(policyValues, model, game, old(curPolicy)[game])]
      ensures changed <==> ImprovedMove(policyValues, model, game, old(curPolicy)[game]) != old(curPolicy)[game]
    {
      var currentMove := curPolicy[game];
      var bestMove := BestMove(game, currentMove);
      changed := false;
      if bestMove.Some? && bestMove.value != currentMove {
        curPolicy := curPolicy[game := bestMove.value];
        changed := true;
      } else {
        assert curPolicy[game := currentMove] == curPolicy;
      }
    }

    /** improvePolicy: one pass over the policy's keys, each replaced by its
        improved move; reports whether any entry changed. */
    method ImprovePolicy() returns (policyImproved: bool)
      requires PolicyDefined(model, policyValues.Keys, curPolicy)
      modifies this`curPolicy
      ensures curPolicy == Improved(old(curPolicy), policyValues, model)
      ensures policyImproved <==> !IsStable(old(curPolicy), policyValues, model)
    {
      ghost var p0 := curPolicy;
      ghost var changedState: Option<S> := None;
      policyImproved := false;
      var remaining := curPolicy.Keys;
      while remaining != {}
        invariant remaining <= p0.Keys && curPolicy.Keys == p0.Keys
        invariant forall g :: g in p0 ==>
                    curPolicy[g] == if g in remaining then p0[g] else ImprovedMove(policyValues, model, g, p0[g])
        invariant !policyImproved ==> curPolicy == p0
        invariant policyImproved ==>
                    && changedState.Some? && changedState.value in p0
                    && ImprovedMove(policyValues, model, changedState.value, p0[changedState.value]) != p0[changedState.value]
        decreases remaining
      {
        var game :| game in remaining;
        var changed := ImproveState(game);
        if changed {
          changedState := Some(game);
        }
        policyImproved := policyImproved || changed;
        remaining := remaining - {game};
      }
      StableIsFixedPoint(p0, policyValues, model);
    }

    /** One pass of the train loop: improvePolicy, then, when the policy
        changed and this is not the `last` round, evaluatePolicy. */
    method TrainStep(order: seq<S>, last: bool, evalFuel: nat) returns (done: bool, converged: bool)
      requires IsEnumeration(order, policyValues.Keys)
      requires PolicyDefined(model, policyValues.Keys, curPolicy)
      requires RecordedMovesDefined(model, policyValues.Keys, curPolicy.Keys)
      modifies this`curPolicy, this`policyValues
      ensures var r := TrainRound(old(curPolicy), old(policyValues), order, model, delta, last, evalFuel);
              if done then r == Stop(TrainResult(curPolicy, policyValues, converged))
              else r == Continue(curPolicy, policyValues)
      ensures !done ==> PolicyDefined(model, policyValues.Keys, curPolicy)
    {
      ghost var p0 := curPolicy;
      var improved := ImprovePolicy();
      ImprovedStaysDefined(p0, policyValues, model, policyValues.Keys);
      if !improved {
        return true, true;
      }
      if last {
        return true, false;
      }
      var exited, _ := EvaluatePolicy(delta, order, evalFuel);
      done, converged := !exited, false;
    }

    /** train: `while (improvePolicy()) evaluatePolicy(delta);` with at most
        `rounds` evaluations of at most `evalFuel` sweeps each; the policy is
        published only when the loop ends because nothing changed. */
    method Train(order: seq<S>, rounds: nat, evalFuel: nat) returns (converged: bool)
      requires IsEnumeration(order, policyValues.Keys)
      requires PolicyDefined(model, policyValues.Keys, curPolicy)
      requires RecordedMovesDefined(model, policyValues.Keys, curPolicy.Keys)
      modifies this`curPolicy, this`policyValues, this`policy
      ensures var r := TrainRun(old(curPolicy), old(policyValues), order, model, delta, rounds, evalFuel);
              curPolicy == r.policy && policyValues == r.values && converged == r.converged
      ensures policy == if converged then curPolicy else old(policy)
    {
      ghost var goal := TrainRun(curPolicy, policyValues, order, model, delta, rounds, evalFuel);
      ghost var keys := policyValues.Keys;
      ghost var states := curPolicy.Keys;
      var left := rounds;
      while true
        invariant policyValues.Keys == keys && curPolicy.Keys == states
        invariant PolicyDefined(model, policyValues.Keys, curPolicy)
        invariant TrainRun(curPolicy, policyValues, order, model, delta, left, evalFuel) == goal
        invariant policy == old(policy)
        decreases left
      {
        ghost var before, values, budget := curPolicy, policyValues, left;
        var done, stable := TrainStep(order, left == 0, evalFuel);
        if done {
          converged := stable;
          break;
        }
        left := left - 1;
        TrainRunContinues(before, values, order, model, delta, budget, left, evalFuel);
      }
      if converged {
        policy := curPolicy;
      }
    }
  }
}
