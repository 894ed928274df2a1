/**
 * ValueIterationAgent: a value table `valueFunction` refined by k
 * synchronous (Jacobi) Bellman sweeps, then a greedy policy read off it.
 *
 * Two details of the code shape what is proved here:
 *  - each sweep starts the running maximum of state s at its OLD value, so
 *    the new value is max(V(s), max_a Q(s, a)): values never decrease and a
 *    state without moves keeps its value (SweepBounds, IterateNeverDecreases);
 *  - extractPolicy re-runs its greedy pass until a pass changes nothing; as
 *    the table is frozen, the second pass never changes anything, so the loop
 *    runs at most two passes (GreedySweepIdempotent).
 */
module ValueIteration {
  import opened Mdp
  import opened Scan

  // ---------------------------------------------------------------------
  // calculateQValue

  /** Move a of state s is one calculateQValue accepts against a table with
      keys `keys`: the model gives a list, no outcome is null and every
      successor is a key (line 136 unboxes valueFunction.get(sPrime)). */
  ghost predicate Accepts<S, A>(model: Model<S, A>, keys: set<S>, s: S, a: A)
  {
    && model.trans(s, a).Some?
    && forall t :: t in model.trans(s, a).value ==>
         t.outcome.Some? && t.outcome.value.sPrime.Some? && t.outcome.value.sPrime.value in keys
  }

  /** Every legal move of every key is accepted: what iterate and
      extractPolicy need to run without a NullPointerException. */
  ghost predicate Closed<S, A>(model: Model<S, A>, keys: set<S>)
  {
    forall s, a {:trigger Accepts(model, keys, s, a)} :: s in keys && a in model.moves(s) ==> Accepts(model, keys, s, a)
  }

  /** Q(s, a) = sum of p * (r + discount * V(s')) over the transitions of a,
      total: where Java would throw it reads as the shared backup does. */
  function QValue<S, A>(v: map<S, real>, model: Model<S, A>, s: S, a: A): real
  {
    match model.trans(s, a)
    case None => 0.0
    case Some(ts) => Backup(ts, v, model.discount)
  }

  /** The sum written with strict lookups, as lines 132-140 compute it. */
  function LiteralSum<S, A>(ts: seq<TransitionProb<S, A>>, v: map<S, real>, discount: real): real
    requires forall t :: t in ts ==> t.outcome.Some? && t.outcome.value.sPrime.Some? && t.outcome.value.sPrime.value in v
  {
    if ts == [] then 0.0
    else
      var o := ts[0].outcome.value;
      ts[0].prob * (o.localReward + discount * v[o.sPrime.value]) + LiteralSum(ts[1..], v, discount)
  }

  /** On the transitions calculateQValue accepts, the total backup is the
      sum the Java loop computes. */
  lemma {:induction false} BackupIsLiteralSum<S, A>(ts: seq<TransitionProb<S, A>>, v: map<S, real>, discount: real)
    requires forall t :: t in ts ==> t.outcome.Some? && t.outcome.value.sPrime.Some? && t.outcome.value.sPrime.value in v
    ensures Backup(ts, v, discount) == LiteralSum(ts, v, discount)
  {
    if ts != [] {
      assert ts[0] in ts;
      assert forall t :: t in ts[1..] ==> t in ts;
      BackupIsLiteralSum(ts[1..], v, discount);
    }
  }

  // ---------------------------------------------------------------------
  // iterate

  /** The candidates of the scan at lines 111-118: Q(s, a) for every legal a. */
  function QValues<S, A>(v: map<S, real>, model: Model<S, A>, s: S): seq<Option<real>>
  {
    seq(|model.moves(s)|, i requires 0 <= i < |model.moves(s)| => Some(QValue(v, model, s, model.moves(s)[i])))
  }

  /** The value one sweep gives state s: the running maximum of line 115
      started at the old value of s. */
  function BestValue<S, A>(v: map<S, real>, model: Model<S, A>, s: S): real
  {
    var vals := QValues(v, model, s);
    var i := FirstMax(vals, Some(Get(v, s)));
    if i < 0 then Get(v, s) else vals[i].value
  }

  /** The new value is max(V(s), max over legal a of Q(s, a)): no smaller
      than either, and equal to one of them. */
  lemma BestValueIsMax<S, A>(v: map<S, real>, model: Model<S, A>, s: S)
    ensures BestValue(v, model, s) >= Get(v, s)
    ensures forall a :: a in model.moves(s) ==> BestValue(v, model, s) >= QValue(v, model, s, a)
    ensures BestValue(v, model, s) == Get(v, s) || exists a :: a in model.moves(s) && BestValue(v, model, s) == QValue(v, model, s, a)
    ensures model.moves(s) == [] ==> BestValue(v, model, s) == Get(v, s)
  {
    var vals := QValues(v, model, s);
    var start := Some(Get(v, s));
    var i := FirstMax(vals, start);
    FirstMaxIsFirstMax(vals, start);
    HeldIsMax(vals, start, i);
    forall a | a in model.moves(s) ensures BestValue(v, model, s) >= QValue(v, model, s, a) {
      var j :| 0 <= j < |model.moves(s)| && model.moves(s)[j] == a;
      assert vals[j].Some?;
    }
    if i >= 0 {
      assert model.moves(s)[i] in model.moves(s);
    }
  }

  /** One synchronous sweep (lines 106-123): every key gets its BestValue,
      computed from the old table only. */
  function Sweep<S, A>(v: map<S, real>, model: Model<S, A>): (r: map<S, real>)
    ensures r.Keys == v.Keys
  {
    map s | s in v :: BestValue(v, model, s)
  }

  /** iterate: n sweeps (none when n <= 0). */
  function IterateN<S, A>(v: map<S, real>, model: Model<S, A>, n: int): (r: map<S, real>)
    ensures r.Keys == v.Keys
    decreases n
  {
    if n <= 0 then v else Sweep(IterateN(v, model, n - 1), model)
  }

  /** A non-positive count performs no sweep. */
  lemma IterateNone<S, A>(v: map<S, real>, model: Model<S, A>, n: int)
    requires n <= 0
    ensures IterateN(v, model, n) == v
  {
  }

  /** The (rest + 1)-th sweep applies to the table after rest sweeps. */
  lemma IterateNStep<S, A>(v: map<S, real>, model: Model<S, A>, n: int, rest: int)
    requires rest >= 0 && n == rest + 1
    ensures IterateN(v, model, n) == Sweep(IterateN(v, model, rest), model)
  {
  }

  /** The share of a transition whose successor is in the table, as
      calculateQValue computes it (lines 133-139). */
  lemma AcceptedContribution<S, A>(t: TransitionProb<S, A>, v: map<S, real>, discount: real)
    requires t.outcome.Some? && t.outcome.value.sPrime.Some? && t.outcome.value.sPrime.value in v
    ensures Contribution(t, v, discount) == t.prob * (t.outcome.value.localReward + discount * v[t.outcome.value.sPrime.value])
  {
  }

  /** A counted loop from 0 that stops once i < n fails has performed n
      sweeps, none when n <= 0. */
  lemma IterateExit<S, A>(v: map<S, real>, model: Model<S, A>, n: int, i: int)
    requires 0 <= i <= (if n < 0 then 0 else n) && !(i < n)
    ensures IterateN(v, model, i) == IterateN(v, model, n)
  {
    if n < 0 {
      IterateNone(v, model, n);
      IterateNone(v, model, i);
    }
  }

  /** A sweep never lowers a value, leaves every value at or above each
      Q-value of its state, and keeps the value of a state without moves. */
  lemma SweepBounds<S, A>(v: map<S, real>, model: Model<S, A>)
    ensures forall s :: s in v ==> Sweep(v, model)[s] >= v[s]
    ensures forall s, a :: s in v && a in model.moves(s) ==> Sweep(v, model)[s] >= QValue(v, model, s, a)
    ensures forall s :: s in v && model.moves(s) == [] ==> Sweep(v, model)[s] == v[s]
  {
    forall s | s in v
      ensures Sweep(v, model)[s] >= v[s]
      ensures forall a :: a in model.moves(s) ==> Sweep(v, model)[s] >= QValue(v, model, s, a)
      ensures model.moves(s) == [] ==> Sweep(v, model)[s] == v[s]
    {
      BestValueIsMax(v, model, s);
    }
  }

  /** Over any number of sweeps, no value ever decreases. */
  lemma {:induction false} IterateNeverDecreases<S, A>(v: map<S, real>, model: Model<S, A>, n: int)
    ensures forall s :: s in v ==> IterateN(v, model, n)[s] >= v[s]
    decreases n
  {
    if n > 0 {
      var rest := n - 1;
      var before := IterateN(v, model, rest);
      IterateNeverDecreases(v, model, rest);
      IterateNStep(v, model, n, rest);
      SweepBounds(before, model);
    }
  }

  /** Terminal states (no legal move) keep their initial value through
      every sweep. */
  lemma {:induction false} TerminalKept<S, A>(v: map<S, real>, model: Model<S, A>, n: int, s: S)
    requires s in v && model.moves(s) == []
    ensures IterateN(v, model, n)[s] == v[s]
    decreases n
  {
    if n > 0 {
      var rest := n - 1;
      var before := IterateN(v, model, rest);
      TerminalKept(v, model, rest, s);
      IterateNStep(v, model, n, rest);
      BestValueIsMax(before, model, s);
      assert Sweep(before, model)[s] == BestValue(before, model, s);
    }
  }

  /** Probabilities and discount are non-negative. */
  ghost predicate NonNegative<S(!new), A(!new)>(model: Model<S, A>)
  {
    && model.discount >= 0.0
    && forall s, a, i :: model.trans(s, a).Some? && 0 <= i < |model.trans(s, a).value| ==>
         model.trans(s, a).value[i].prob >= 0.0
  }

  /** With non-negative probabilities and discount, a sweep is monotone:
      a pointwise larger table sweeps to a pointwise larger table. */
  lemma SweepMonotone<S(!new), A(!new)>(v: map<S, real>, w: map<S, real>, model: Model<S, A>)
    requires NonNegative(model)
    requires v.Keys == w.Keys
    requires forall s :: Get(v, s) <= Get(w, s)
    ensures forall s :: s in v ==> Sweep(v, model)[s] <= Sweep(w, model)[s]
  {
    forall s | s in v ensures Sweep(v, model)[s] <= Sweep(w, model)[s] {
      BestValueIsMax(v, model, s);
      BestValueIsMax(w, model, s);
      forall a | a in model.moves(s) ensures QValue(v, model, s, a) <= QValue(w, model, s, a) {
        if model.trans(s, a).Some? {
          BackupMonotone(model.trans(s, a).value, v, w, model.discount);
        }
      }
    }
  }

  // ---------------------------------------------------------------------
  // extractPolicy

  /** Lines 165-172: each key with a legal move gets the move at its random
      index; keys without moves get no entry. */
  function RandomPolicy<S, A>(keys: set<S>, model: Model<S, A>, draw: S -> real): (r: map<S, A>)
    requires forall s :: s in keys ==> 0.0 <= draw(s) < 1.0
    ensures r.Keys == set s | s in keys && model.moves(s) != []
    ensures forall s :: s in r ==> r[s] in model.moves(s)
  {
    map s | s in keys && model.moves(s) != [] :: model.moves(s)[RandomIndex(draw(s), |model.moves(s)|)]
  }

  /** Lines 185-197: the move state s holds after one greedy pass from move m;
      the running maximum starts at Q(s, m). */
  function GreedyMove<S, A>(v: map<S, real>, model: Model<S, A>, s: S, m: A): A
  {
    var i := FirstMax(QValues(v, model, s), Some(QValue(v, model, s, m)));
    if i < 0 then m else model.moves(s)[i]
  }

  /** The greedy move maximises Q over the legal moves and differs from m
      only when it is strictly better; a move that replaces m is the first
      legal move of its value, every earlier one being strictly worse (the
      strict `>` of line 192). */
  lemma GreedyMoveIsArgmax<S, A>(v: map<S, real>, model: Model<S, A>, s: S, m: A)
    requires m in model.moves(s)
    ensures var r := GreedyMove(v, model, s, m);
            && r in model.moves(s)
            && (forall a :: a in model.moves(s) ==> QValue(v, model, s, a) <= QValue(v, model, s, r))
            && (r == m || QValue(v, model, s, r) > QValue(v, model, s, m))
            && (r != m ==>
                  exists i :: 0 <= i < |model.moves(s)| && model.moves(s)[i] == r
                    && forall j :: 0 <= j < i ==> QValue(v, model, s, model.moves(s)[j]) < QValue(v, model, s, r))
  {
    var vals := QValues(v, model, s);
    var start := Some(QValue(v, model, s, m));
    var i := FirstMax(vals, start);
    FirstMaxIsFirstMax(vals, start);
    HeldIsMax(vals, start, i);
    var r := GreedyMove(v, model, s, m);
    forall a | a in model.moves(s) ensures QValue(v, model, s, a) <= QValue(v, model, s, r) {
      var j :| 0 <= j < |model.moves(s)| && model.moves(s)[j] == a;
      assert vals[j].Some?;
    }
    if i >= 0 {
      forall j | 0 <= j < i ensures QValue(v, model, s, model.moves(s)[j]) < QValue(v, model, s, r) {
        assert Beats(vals[i], vals[j]);
      }
    }
  }

  /** From a move that is already greedy, the pass keeps it. */
  lemma GreedyMoveStable<S, A>(v: map<S, real>, model: Model<S, A>, s: S, m: A)
    requires m in model.moves(s)
    ensures GreedyMove(v, model, s, GreedyMove(v, model, s, m)) == GreedyMove(v, model, s, m)
  {
    var r := GreedyMove(v, model, s, m);
    GreedyMoveIsArgmax(v, model, s, m);
    var vals := QValues(v, model, s);
    var start := Some(QValue(v, model, s, r));
    var i := FirstMax(vals, start);
    FirstMaxIsFirstMax(vals, start);
  }

  /** One pass of the while loop at line 176 over a policy whose keys are
      the states with moves. */
  function GreedySweep<S, A>(policy: map<S, A>, v: map<S, real>, model: Model<S, A>): (r: map<S, A>)
    ensures r.Keys == policy.Keys
  {
    map s | s in policy :: GreedyMove(v, model, s, policy[s])
  }

  /** A policy of legal moves. */
  ghost predicate Legal<S, A>(policy: map<S, A>, model: Model<S, A>)
  {
    forall s :: s in policy ==> policy[s] in model.moves(s)
  }

  /** Every entry maximises Q over the legal moves of its state. */
  ghost predicate Greedy<S, A>(policy: map<S, A>, v: map<S, real>, model: Model<S, A>)
  {
    forall s, a :: s in policy && a in model.moves(s) ==> QValue(v, model, s, a) <= QValue(v, model, s, policy[s])
  }

  /** A pass over a legal policy yields a legal, greedy policy. */
  lemma GreedySweepIsGreedy<S, A>(policy: map<S, A>, v: map<S, real>, model: Model<S, A>)
    requires Legal(policy, model)
    ensures Legal(GreedySweep(policy, v, model), model)
    ensures Greedy(GreedySweep(policy, v, model), v, model)
  {
    forall s | s in policy
      ensures GreedyMove(v, model, s, policy[s]) in model.moves(s)
      ensures forall a :: a in model.moves(s) ==>
                QValue(v, model, s, a) <= QValue(v, model, s, GreedyMove(v, model, s, policy[s]))
    {
      GreedyMoveIsArgmax(v, model, s, policy[s]);
    }
  }

  /** The second pass changes nothing: the pass is idempotent, so the loop at
      line 176 ends after at most two passes. */
  lemma GreedySweepIdempotent<S, A>(policy: map<S, A>, v: map<S, real>, model: Model<S, A>)
    requires Legal(policy, model)
    ensures GreedySweep(GreedySweep(policy, v, model), v, model) == GreedySweep(policy, v, model)
  {
    var once := GreedySweep(policy, v, model);
    forall s | s in once ensures GreedyMove(v, model, s, once[s]) == once[s] {
      GreedyMoveStable(v, model, s, policy[s]);
    }
  }

  /** What extractPolicy returns: one greedy pass over the random policy. */
  ghost function Extracted<S, A>(v: map<S, real>, model: Model<S, A>, draw: S -> real): map<S, A>
    requires forall s :: s in v ==> 0.0 <= draw(s) < 1.0
  {
    GreedySweep(RandomPolicy(v.Keys, model, draw), v, model)
  }

  // ---------------------------------------------------------------------
  // The agent

  class ValueIterationAgent<S(==), A(==)> {
    /** The state values. */
    var valueFunction: map<S, real>
    /** The policy handed to the game (Agent.policy). */
    var policy: map<S, A>
    /** The number of sweeps iterate performs. */
    var k: int
    const model: Model<S, A>

    /** Lines 22-37: an empty table, k = 10; the model carries the discount. */
    constructor (model: Model<S, A>)
      ensures this.model == model && k == 10
      ensures valueFunction == map[] && policy == map[]
    {
      this.model := model;
      k := 10;
      valueFunction := map[];
      policy := map[];
    }

    /** initValues: every enumerated state gets value 0. */
    method InitValues(allGames: seq<S>)
      modifies this`valueFunction
      ensures valueFunction == old(valueFunction) + map g | g in allGames :: 0.0
    {
      var i := 0;
      while i < |allGames|
        invariant 0 <= i <= |allGames|
        invariant valueFunction == old(valueFunction) + map g | g in allGames[..i] :: 0.0
      {
        valueFunction := valueFunction[allGames[i] := 0.0];
        i := i + 1;
        assert allGames[..i] == allGames[..i - 1] + [allGames[i - 1]];
      }
      assert allGames[..i] == allGames;
    }

    /** calculateQValue: the loop of lines 130-142 over the transitions of
        move `action` of `state`. */
    method CalculateQValue(state: S, action: A, transitions: seq<TransitionProb<S, A>>) returns (qValue: real)
      requires forall t :: t in transitions ==>
                 t.outcome.Some? && t.outcome.value.sPrime.Some? && t.outcome.value.sPrime.value in valueFunction
      ensures qValue == Backup(transitions, valueFunction, model.discount)
    {
      qValue := 0.0;
      var j := 0;
      while j < |transitions|
        invariant 0 <= j <= |transitions|
        invariant qValue + Backup(transitions[j..], valueFunction, model.discount) == Backup(transitions, valueFunction, model.discount)
      {
        var transitionProb := transitions[j];
        assert transitionProb in transitions;
        var outcome := transitionProb.outcome.value;
        var transitionProbability := transitionProb.prob;
        var reward := outcome.localReward;
        var discountedFutureValue := model.discount * valueFunction[outcome.sPrime.value];
        BackupAt(transitions, j, valueFunction, model.discount);
        AcceptedContribution(transitionProb, valueFunction, model.discount);
        qValue := qValue + transitionProbability * (reward + discountedFutureValue);
        j := j + 1;
      }
    }

    /** Lines 109-118: the new value of one state. */
    method MaxQValue(state: S) returns (maxQValue: real)
      requires state in valueFunction
      requires forall a :: a in model.moves(state) ==> Accepts(model, valueFunction.Keys, state, a)
      ensures maxQValue == BestValue(valueFunction, model, state)
    {
      ghost var vals := QValues(valueFunction, model, state);
      ghost var start := Some(valueFunction[state]);
      ghost var best := -1;
      maxQValue := valueFunction[state];
      var possibleMoves := model.moves(state);
      var j := 0;
      while j < |possibleMoves|
        invariant 0 <= j <= |possibleMoves|
        invariant IsFirstMax(vals, start, j, best)
        invariant Some(maxQValue) == Held(vals, start, best)
      {
        ScanStep(vals, start, j, best);
        var action := possibleMoves[j];
        assert Accepts(model, valueFunction.Keys, state, action);
        var transitions := model.trans(state, action).value;
        var qValue := CalculateQValue(state, action, transitions);
        if qValue > maxQValue {
          maxQValue := qValue;
          best := j;
        }
        j := j + 1;
      }
      FirstMaxIsFirstMax(vals, start);
      FirstMaxUnique(vals, start, |vals|, best, FirstMax(vals, start));
    }

    /** Lines 106-121: the new table of one sweep, read from the old one. */
    method NewValues() returns (newValues: map<S, real>)
      requires Closed(model, valueFunction.Keys)
      ensures newValues == Sweep(valueFunction, model)
    {
      newValues := map[];
      var remaining := valueFunction.Keys;
      while remaining != {}
        invariant remaining <= valueFunction.Keys
        invariant newValues.Keys == valueFunction.Keys - remaining
        invariant forall s :: s in newValues ==> newValues[s] == BestValue(valueFunction, model, s)
        decreases remaining
      {
        var state :| state in remaining;
        var maxQValue := MaxQValue(state);
        newValues := newValues[state := maxQValue];
        remaining := remaining - {state};
      }
    }

    /** iterate: k sweeps, each replacing the whole table. */
    method Iterate()
      requires Closed(model, valueFunction.Keys)
      modifies this`valueFunction
      ensures valueFunction == IterateN(old(valueFunction), model, k)
    {
      ghost var v0 := valueFunction;
      var sweeps := k;
      var i := 0;
      while i < sweeps
        invariant 0 <= i <= if sweeps < 0 then 0 else sweeps
        invariant valueFunction == IterateN(v0, model, i)
        invariant valueFunction.Keys == v0.Keys
      {
        var newValues := NewValues();
        IterateNStep(v0, model, i + 1, i);
        valueFunction := newValues;
        i := i + 1;
      }
      IterateExit(v0, model, sweeps, i);
    }

    /** Lines 165-172: the random starting policy. */
    method InitialPolicy(draw: S -> real) returns (policy: map<S, A>)
      requires forall s :: s in valueFunction ==> 0.0 <= draw(s) < 1.0
      ensures policy == RandomPolicy(valueFunction.Keys, model, draw)
    {
      policy := map[];
      var remaining := valueFunction.Keys;
      while remaining != {}
        invariant remaining <= valueFunction.Keys
        invariant policy.Keys == (set s | s in valueFunction && model.moves(s) != []) - remaining
        invariant forall s :: s in policy ==> policy[s] == model.moves(s)[RandomIndex(draw(s), |model.moves(s)|)]
        decreases remaining
      {
        var state :| state in remaining;
        var possibleMoves := model.moves(state);
        if possibleMoves != [] {
          var randomMove := possibleMoves[RandomIndex(draw(state), |possibleMoves|)];
          policy := policy[state := randomMove];
        }
        remaining := remaining - {state};
      }
    }

    /** Lines 185-197: the scan of one state from its current move. */
    method BestAction(state: S, currentBestMove: A) returns (bestMove: A, changed: bool)
      requires currentBestMove in model.moves(state)
      requires forall a :: a in model.moves(state) ==> Accepts(model, valueFunction.Keys, state, a)
      ensures bestMove == GreedyMove(valueFunction, model, state, currentBestMove)
      ensures changed <==> bestMove != currentBestMove
    {
      ghost var vals := QValues(valueFunction, model, state);
      assert Accepts(model, valueFunction.Keys, state, currentBestMove);
      var maxQValue := CalculateQValue(state, currentBestMove, model.trans(state, currentBestMove).value);
      ghost var start := Some(maxQValue);
      ghost var best := -1;
      bestMove := currentBestMove;
      changed := false;
      var possibleMoves := model.moves(state);
      var j := 0;
      while j < |possibleMoves|
        invariant 0 <= j <= |possibleMoves|
        invariant IsFirstMax(vals, start, j, best)
        invariant Some(maxQValue) == Held(vals, start, best)
        invariant bestMove == if best < 0 then currentBestMove else possibleMoves[best]
        invariant changed <==> best >= 0
      {
        ScanStep(vals, start, j, best);
        var action := possibleMoves[j];
        assert Accepts(model, valueFunction.Keys, state, action);
        var qValue := CalculateQValue(state, action, model.trans(state, action).value);
        if qValue > maxQValue {
          maxQValue := qValue;
          bestMove := action;
          changed := true;
          best := j;
        }
        j := j + 1;
      }
      FirstMaxIsFirstMax(vals, start);
      FirstMaxUnique(vals, start, |vals|, best, FirstMax(vals, start));
      if best >= 0 {
        assert Beats(vals[best], start);
      }
    }

    /** Lines 178-199: one pass of the extraction loop. */
    method GreedyPass(policy: map<S, A>) returns (newPolicy: map<S, A>, policyChanged: bool)
      requires Closed(model, valueFunction.Keys)
      requires policy.Keys == set s | s in valueFunction && model.moves(s) != []
      requires Legal(policy, model)
      ensures newPolicy == GreedySweep(policy, valueFunction, model)
      ensures policyChanged <==> newPolicy != policy
    {
      newPolicy := policy;
      policyChanged := false;
      ghost var changedState: Option<S> := None;
      var remaining := valueFunction.Keys;
      while remaining != {}
        invariant remaining <= valueFunction.Keys
        invariant newPolicy.Keys == policy.Keys
        invariant forall s :: s in policy ==>
                    newPolicy[s] == if s in remaining then policy[s] else GreedyMove(valueFunction, model, s, policy[s])
        invariant !policyChanged ==> newPolicy == policy
        invariant policyChanged ==> changedState.Some? && changedState.value in policy && newPolicy[changedState.value] != policy[changedState.value]
        decreases remaining
      {
        var state :| state in remaining;
        var possibleMoves := model.moves(state);
        if possibleMoves != [] {
          var currentBestMove := newPolicy[state];
          var bestMove, changed := BestAction(state, currentBestMove);
          if changed {
            newPolicy := newPolicy[state := bestMove];
            policyChanged := true;
            changedState := Some(state);
          }
        }
        remaining := remaining - {state};
      }
    }

    /** extractPolicy: greedy passes from the random policy until one
        changes nothing; the second pass never does. */
    method ExtractPolicy(draw: S -> real) returns (policy: map<S, A>)
      requires Closed(model, valueFunction.Keys)
      requires forall s :: s in valueFunction ==> 0.0 <= draw(s) < 1.0
      ensures policy == Extracted(valueFunction, model, draw)
    {
      ghost var initial := RandomPolicy(valueFunction.Keys, model, draw);
      policy := InitialPolicy(draw);
      var policyChanged := true;
      ghost var passes := 0;
      while policyChanged
        invariant passes <= 2
        invariant passes == 0 ==> policy == initial && policyChanged
        invariant passes >= 1 ==> policy == GreedySweep(initial, valueFunction, model)
        invariant passes == 2 ==> !policyChanged
        decreases 2 - passes
      {
        GreedySweepIsGreedy(initial, valueFunction, model);
        policy, policyChanged := GreedyPass(policy);
        GreedySweepIdempotent(initial, valueFunction, model);
        passes := passes + 1;
      }
    }

    /** train: iterate, then publish the extracted policy. */
    method Train(draw: S -> real)
      requires Closed(model, valueFunction.Keys)
      requires forall s :: s in valueFunction ==> 0.0 <= draw(s) < 1.0
      modifies this`valueFunction, this`policy
      ensures valueFunction == IterateN(old(valueFunction), model, k)
      ensures policy == Extracted(valueFunction, model, draw)
    {
      Iterate();
      policy := ExtractPolicy(draw);
    }
  }

  /** What train leaves: every state with a legal move, and only those, gets
      a legal move of largest Q-value against the final table. */
  lemma ExtractedIsGreedy<S, A>(v: map<S, real>, model: Model<S, A>, draw: S -> real)
    requires forall s :: s in v ==> 0.0 <= draw(s) < 1.0
    ensures Extracted(v, model, draw).Keys == set s | s in v && model.moves(s) != []
    ensures Legal(Extracted(v, model, draw), model)
    ensures Greedy(Extracted(v, model, draw), v, model)
  {
    GreedySweepIsGreedy(RandomPolicy(v.Keys, model, draw), v, model);
  }
}
