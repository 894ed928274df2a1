/**
 * QLearningAgent: a Q-table filled by epsilon-greedy episodes against an
 * environment, and a greedy policy read off it.
 *
 * calculateMaxQValue starts its running maximum at Double.NEGATIVE_INFINITY,
 * so for a successor without legal moves (the end of an episode, when the
 * environment treats such a state as terminal) it returns -infinity.
 * updateQValue then writes NaN (0 * -infinity) when alpha or the discount
 * is 0, when the cell holds NaN, or when alpha is 1 and the cell holds
 * -infinity; otherwise it writes -infinity.
 * Q-values are therefore Ext: a real, -infinity, or NaN.
 * The scans compare with `>` (Gt), which neither -infinity nor NaN ever
 * passes, so they reach Scan as skipped (None) candidates (GtIsBeats).
 *
 * The environment (TTTEnvironment), whose source is not part of this model,
 * is an abstract state E with injected reset, isTerminal,
 * getCurrentGameState and executeMove; the opponent's randomness lives in E.
 * Math.random is an injected pair of draws per step.
 */
module QLearning {
  import opened Mdp
  import opened Scan

  // ---------------------------------------------------------------------
  // Q-values

  /** A double as it can arise in the table: finite, -infinity or NaN. */
  datatype Ext = NegInf | NaN | Fin(value: real)

  /** What a `q > best` scan sees of a Q-value: its finite part. */
  function Finite(x: Ext): Option<real>
  {
    if x.Fin? then Some(x.value) else None
  }

  /** Java's double sum, for operands that are not +infinity. */
  function Plus(x: Ext, y: Ext): Ext
  {
    if x.NaN? || y.NaN? then NaN
    else if x.NegInf? || y.NegInf? then NegInf
    else Fin(x.value + y.value)
  }

  /** Java's product with a non-negative finite factor: 0 * -infinity is NaN. */
  function Times(c: real, x: Ext): Ext
    requires c >= 0.0
  {
    match x
    case Fin(v) => Fin(c * v)
    case NegInf => if c == 0.0 then NaN else NegInf
    case NaN => NaN
  }

  /** The running maximum of a scan as the double Java holds: -infinity
      until some value beat it. */
  function FromMax(m: Option<real>): Ext
  {
    if m.Some? then Fin(m.value) else NegInf
  }

  /** Java's `x > y` on doubles of these kinds: every comparison with NaN
      is false, and nothing is below -infinity. */
  predicate Gt(x: Ext, y: Ext)
  {
    x.Fin? && (y.NegInf? || (y.Fin? && x.value > y.value))
  }

  /** `q > best` against a running maximum that started at -infinity is
      Scan's Beats on the finite part of q: -infinity and NaN never beat,
      and a finite q beats -infinity. */
  lemma GtIsBeats(x: Ext, held: Option<real>)
    ensures Gt(x, FromMax(held)) <==> Beats(Finite(x), held)
  {
  }

  // ---------------------------------------------------------------------
  // The Q-table

  /** QTable (not part of this model): state -> move -> value; a state is a
      key once some value of it has been added. */
  type Table<S, A> = map<S, map<A, Ext>>

  /** qTable.getQValue: a missing cell reads as 0. */
  function Lookup<S, A>(q: Table<S, A>, s: S, a: A): Ext
  {
    if s in q && a in q[s] then q[s][a] else Fin(0.0)
  }

  /** qTable.addQValue: sets one cell, adding the state if it is new. */
  function Store<S, A>(q: Table<S, A>, s: S, a: A, x: Ext): (r: Table<S, A>)
    ensures r.Keys == q.Keys + {s}
  {
    q[s := (if s in q then q[s] else map[])[a := x]]
  }

  /** addQValue writes exactly its cell: it reads back, and no other cell
      changes. */
  lemma StoreWritesOneCell<S, A>(q: Table<S, A>, s: S, a: A, x: Ext)
    ensures Lookup(Store(q, s, a, x), s, a) == x
    ensures forall g, m :: (g != s || m != a) ==> Lookup(Store(q, s, a, x), g, m) == Lookup(q, g, m)
  {
  }

  /** Q(s, m) as the scans see it, for every legal move m of s. */
  function Candidates<S, A>(q: Table<S, A>, moves: S -> seq<A>, s: S): seq<Option<real>>
  {
    seq(|moves(s)|, i requires 0 <= i < |moves(s)| => Finite(Lookup(q, s, moves(s)[i])))
  }

  // ---------------------------------------------------------------------
  // initQTable

  /** The inner loop of initQTable: Q(g, m) := 0 for each m of ms in turn. */
  function ZeroMoves<S, A>(q: Table<S, A>, g: S, ms: seq<A>): (r: Table<S, A>)
    decreases |ms|
  {
    if ms == [] then q else Store(ZeroMoves(q, g, ms[..|ms| - 1]), g, ms[|ms| - 1], Fin(0.0))
  }

  /** initQTable over the enumerated states gs in turn. */
  function ZeroAll<S, A>(q: Table<S, A>, gs: seq<S>, moves: S -> seq<A>): (r: Table<S, A>)
    decreases |gs|
  {
    if gs == [] then q else ZeroMoves(ZeroAll(q, gs[..|gs| - 1], moves), gs[|gs| - 1], moves(gs[|gs| - 1]))
  }

  /** The inner loop sets exactly the cells (g, m) with m in ms to 0 and
      adds g as a state when ms is not empty. */
  lemma {:induction false} ZeroMovesCells<S, A>(q: Table<S, A>, g: S, ms: seq<A>)
    ensures ZeroMoves(q, g, ms).Keys == q.Keys + (if ms == [] then {} else {g})
    ensures forall h, a :: Lookup(ZeroMoves(q, g, ms), h, a) == if h == g && a in ms then Fin(0.0) else Lookup(q, h, a)
    decreases |ms|
  {
    if ms != [] {
      var init := ms[..|ms| - 1];
      ZeroMovesCells(q, g, init);
      StoreWritesOneCell(ZeroMoves(q, g, init), g, ms[|ms| - 1], Fin(0.0));
      assert ms == init + [ms[|ms| - 1]];
      forall h, a ensures Lookup(ZeroMoves(q, g, ms), h, a) == if h == g && a in ms then Fin(0.0) else Lookup(q, h, a) {
        assert a in ms <==> a in init || a == ms[|ms| - 1];
      }
    }
  }

  /** initQTable sets Q(g, m) = 0 for every enumerated g and legal m, keeps
      every other cell, and adds exactly the enumerated states with moves. */
  lemma {:induction false} ZeroAllCells<S, A>(q: Table<S, A>, gs: seq<S>, moves: S -> seq<A>)
    ensures ZeroAll(q, gs, moves).Keys == q.Keys + NonTerminal(gs, moves)
    ensures forall h, a :: Lookup(ZeroAll(q, gs, moves), h, a) ==
              if h in gs && a in moves(h) then Fin(0.0) else Lookup(q, h, a)
    decreases |gs|
  {
    if gs != [] {
      var init := gs[..|gs| - 1];
      var g := gs[|gs| - 1];
      ZeroAllCells(q, init, moves);
      ZeroMovesCells(ZeroAll(q, init, moves), g, moves(g));
      assert gs == init + [g];
      assert NonTerminal(gs, moves) == NonTerminal(init, moves) + (if moves(g) == [] then {} else {g});
      forall h, a ensures Lookup(ZeroAll(q, gs, moves), h, a) ==
                          if h in gs && a in moves(h) then Fin(0.0) else Lookup(q, h, a) {
        assert h in gs <==> h in init || h == g;
      }
    }
  }

  // ---------------------------------------------------------------------
  // calculateMaxQValue

  /** calculateMaxQValue: the largest finite Q(s, m) over the legal moves,
      None for the -infinity it returns when there is none. */
  function MaxQ<S, A>(q: Table<S, A>, moves: S -> seq<A>, s: S): Option<real>
  {
    var vals := Candidates(q, moves, s);
    Held(vals, None, FirstMax(vals, None))
  }

  /** The result is -infinity exactly when no legal move has a finite value,
      in particular for a state with no moves; otherwise it is the largest
      finite value. */
  lemma MaxQIsMax<S, A>(q: Table<S, A>, moves: S -> seq<A>, s: S)
    ensures MaxQ(q, moves, s).None? <==> forall m :: m in moves(s) ==> !Lookup(q, s, m).Fin?
    ensures moves(s) == [] ==> MaxQ(q, moves, s).None?
    ensures MaxQ(q, moves, s).Some? ==>
              && (exists m :: m in moves(s) && Lookup(q, s, m) == Fin(MaxQ(q, moves, s).value))
              && (forall m :: m in moves(s) && Lookup(q, s, m).Fin? ==> Lookup(q, s, m).value <= MaxQ(q, moves, s).value)
  {
    var vals := Candidates(q, moves, s);
    var i := FirstMax(vals, None);
    FirstMaxIsFirstMax(vals, None);
    HeldIsMax(vals, None, i);
    forall m | m in moves(s) && Lookup(q, s, m).Fin?
      ensures MaxQ(q, moves, s).Some? && Lookup(q, s, m).value <= MaxQ(q, moves, s).value
    {
      var j :| 0 <= j < |moves(s)| && moves(s)[j] == m;
      assert vals[j].Some?;
    }
    if i >= 0 {
      assert moves(s)[i] in moves(s);
    }
  }

  // ---------------------------------------------------------------------
  // epsilonGreedyPolicy and extractPolicy

  /** The exploit scan (lines 164-175, and 220-230 of extractPolicy): the
      first legal move with the largest finite value, None (null) when no
      move has a finite value. */
  function Greedy<S, A>(q: Table<S, A>, moves: S -> seq<A>, s: S): Option<A>
  {
    var i := FirstMax(Candidates(q, moves, s), None);
    if i < 0 then None else Some(moves(s)[i])
  }

  /** The greedy move is legal, of largest finite value, and the first legal
      move of that value; it is null exactly when no legal move has a finite
      value. */
  lemma GreedyIsFirstArgmax<S, A>(q: Table<S, A>, moves: S -> seq<A>, s: S)
    ensures Greedy(q, moves, s).None? <==> forall m :: m in moves(s) ==> !Lookup(q, s, m).Fin?
    ensures Greedy(q, moves, s).Some? ==>
              exists i :: 0 <= i < |moves(s)| && moves(s)[i] == Greedy(q, moves, s).value
                && Lookup(q, s, moves(s)[i]).Fin?
                && (forall j :: 0 <= j < |moves(s)| && Lookup(q, s, moves(s)[j]).Fin? ==>
                      Lookup(q, s, moves(s)[j]).value <= Lookup(q, s, moves(s)[i]).value)
                && (forall j :: 0 <= j < i && Lookup(q, s, moves(s)[j]).Fin? ==>
                      Lookup(q, s, moves(s)[j]).value < Lookup(q, s, moves(s)[i]).value)
  {
    var vals := Candidates(q, moves, s);
    var i := FirstMax(vals, None);
    FirstMaxIsFirstMax(vals, None);
    if i >= 0 {
      forall j | 0 <= j < |moves(s)| && Lookup(q, s, moves(s)[j]).Fin?
        ensures Lookup(q, s, moves(s)[j]).value <= Lookup(q, s, moves(s)[i]).value
      {
        if j < i { assert Beats(vals[i], vals[j]); }
        else if j > i { assert !Beats(vals[j], vals[i]); }
      }
      forall j | 0 <= j < i && Lookup(q, s, moves(s)[j]).Fin?
        ensures Lookup(q, s, moves(s)[j]).value < Lookup(q, s, moves(s)[i]).value
      {
        assert Beats(vals[i], vals[j]);
      }
    } else {
      forall m | m in moves(s) ensures !Lookup(q, s, m).Fin? {
        var j :| 0 <= j < |moves(s)| && moves(s)[j] == m;
        assert !Beats(vals[j], None);
      }
    }
  }

  /** epsilonGreedyPolicy with draws (explore, index): explore below epsilon
      takes the legal move at the random index (None where Java's get would
      throw on an empty list), otherwise the greedy move. */
  function EpsilonGreedy<S, A>(q: Table<S, A>, moves: S -> seq<A>, s: S, epsilon: real, explore: real, index: real): Option<A>
  {
    if explore < epsilon then
      if moves(s) != [] && 0.0 <= index < 1.0 then Some(moves(s)[RandomIndex(index, |moves(s)|)]) else None
    else Greedy(q, moves, s)
  }

  /** A chosen move is always legal; with a legal move and a draw below
      epsilon there always is one. */
  lemma EpsilonGreedyLegal<S, A>(q: Table<S, A>, moves: S -> seq<A>, s: S, epsilon: real, explore: real, index: real)
    ensures EpsilonGreedy(q, moves, s, epsilon, explore, index).Some? ==>
              EpsilonGreedy(q, moves, s, epsilon, explore, index).value in moves(s)
    ensures explore < epsilon && moves(s) != [] && 0.0 <= index < 1.0 ==>
              EpsilonGreedy(q, moves, s, epsilon, explore, index).Some?
  {
    var i := FirstMax(Candidates(q, moves, s), None);
    if explore >= epsilon && i >= 0 {
      assert moves(s)[i] in moves(s);
    }
  }

  /** With epsilon <= 0 it never explores: for any draw in [0, 1) it is the
      greedy choice. */
  lemma EpsilonZeroExploits<S, A>(q: Table<S, A>, moves: S -> seq<A>, s: S, epsilon: real, explore: real, index: real)
    requires epsilon <= 0.0 && 0.0 <= explore < 1.0
    ensures EpsilonGreedy(q, moves, s, epsilon, explore, index) == Greedy(q, moves, s)
  {
  }

  /** With epsilon >= 1 it always explores: for any draws in [0, 1) and a
      state with moves, the move at the random index whatever the table. */
  lemma EpsilonOneExplores<S, A>(q: Table<S, A>, moves: S -> seq<A>, s: S, epsilon: real, explore: real, index: real)
    requires epsilon >= 1.0 && 0.0 <= explore < 1.0 && 0.0 <= index < 1.0 && moves(s) != []
    ensures EpsilonGreedy(q, moves, s, epsilon, explore, index) == Some(moves(s)[RandomIndex(index, |moves(s)|)])
  {
  }

  /** extractPolicy: an entry for exactly the table's states with moves,
      each the greedy move (None for a stored null). */
  function Extracted<S, A>(q: Table<S, A>, moves: S -> seq<A>): (r: map<S, Option<A>>)
  {
    map s | s in q && moves(s) != [] :: Greedy(q, moves, s)
  }

  /** The extracted policy covers exactly the table states that have moves;
      every entry is a legal move of largest finite value, or null when the
      state has no finite value. */
  lemma ExtractedIsGreedy<S, A>(q: Table<S, A>, moves: S -> seq<A>)
    ensures Extracted(q, moves).Keys == set s | s in q && moves(s) != []
    ensures forall s :: s in Extracted(q, moves) && Extracted(q, moves)[s].Some? ==>
              var a := Extracted(q, moves)[s].value;
              && a in moves(s) && Lookup(q, s, a).Fin?
              && forall m :: m in moves(s) && Lookup(q, s, m).Fin? ==> Lookup(q, s, m).value <= Lookup(q, s, a).value
    ensures forall s :: s in Extracted(q, moves) && Extracted(q, moves)[s].None? ==>
              forall m :: m in moves(s) ==> !Lookup(q, s, m).Fin?
  {
    forall s | s in Extracted(q, moves)
      ensures Extracted(q, moves)[s].Some? ==>
                var a := Extracted(q, moves)[s].value;
                && a in moves(s) && Lookup(q, s, a).Fin?
                && forall m :: m in moves(s) && Lookup(q, s, m).Fin? ==> Lookup(q, s, m).value <= Lookup(q, s, a).value
      ensures Extracted(q, moves)[s].None? ==> forall m :: m in moves(s) ==> !Lookup(q, s, m).Fin?
    {
      GreedyIsFirstArgmax(q, moves, s);
      if Greedy(q, moves, s).Some? {
        var i :| 0 <= i < |moves(s)| && moves(s)[i] == Greedy(q, moves, s).value
                 && Lookup(q, s, moves(s)[i]).Fin?
                 && (forall j :: 0 <= j < |moves(s)| && Lookup(q, s, moves(s)[j]).Fin? ==>
                       Lookup(q, s, moves(s)[j]).value <= Lookup(q, s, moves(s)[i]).value);
        forall m | m in moves(s) && Lookup(q, s, m).Fin?
          ensures Lookup(q, s, m).value <= Lookup(q, s, moves(s)[i]).value
        {
          var j :| 0 <= j < |moves(s)| && moves(s)[j] == m;
        }
      }
    }
  }

  // ---------------------------------------------------------------------
  // updateQValue

  /** Line 202: (1 - alpha) * Q + alpha * (r + discount * maxQ(s')). */
  function NewQValue(current: Ext, reward: real, maxNext: Ext, alpha: real, discount: real): Ext
    requires 0.0 <= alpha <= 1.0 && discount >= 0.0
  {
    Plus(Times(1.0 - alpha, current), Times(alpha, Plus(Fin(reward), Times(discount, maxNext))))
  }

  /** From finite values the update is the temporal-difference rule over
      the reals. */
  lemma NewQValueFinite(current: real, reward: real, maxNext: real, alpha: real, discount: real)
    requires 0.0 <= alpha <= 1.0 && discount >= 0.0
    ensures NewQValue(Fin(current), reward, Fin(maxNext), alpha, discount)
            == Fin((1.0 - alpha) * current + alpha * (reward + discount * maxNext))
  {
  }

  /** A move into a state without moves (the last move of an episode)
      writes -infinity, whatever the reward, where the textbook rule would
      continue from 0: when alpha and the discount are positive and the cell
      holds a finite value, or -infinity with alpha below 1. */
  lemma TerminalStepWritesNegInf(current: Ext, reward: real, alpha: real, discount: real)
    requires 0.0 < alpha <= 1.0 && discount > 0.0 && !current.NaN?
    requires alpha == 1.0 ==> current.Fin?
    ensures NewQValue(current, reward, NegInf, alpha, discount) == NegInf
  {
  }

  /** The same step writes NaN exactly when a factor 0 meets -infinity
      (alpha or the discount is 0, or alpha is 1 on a cell holding
      -infinity) or the cell already holds NaN; it writes -infinity in
      every other case. */
  lemma TerminalStepWritesNaN(current: Ext, reward: real, alpha: real, discount: real)
    requires 0.0 <= alpha <= 1.0 && discount >= 0.0
    ensures NewQValue(current, reward, NegInf, alpha, discount) == NaN
            <==> alpha == 0.0 || discount == 0.0 || current.NaN? || (alpha == 1.0 && current.NegInf?)
    ensures NewQValue(current, reward, NegInf, alpha, discount) != NaN
            ==> NewQValue(current, reward, NegInf, alpha, discount) == NegInf
  {
  }

  // ---------------------------------------------------------------------
  // train

  /** TTTEnvironment as injected functions over its state E: reset,
      isTerminal, getCurrentGameState, and executeMove, which gives the next
      environment state and the outcome, or None when it throws the
      IllegalMoveException that train catches. */
  datatype Env<!E, !S, !A> = Env(
    reset: E -> E,
    isTerminal: E -> bool,
    current: E -> S,
    execute: (E, Option<A>) -> (E, Option<Outcome<S, A>>))

  /** The agent's parameters: Game.getPossibleMoves, alpha, discount, epsilon. */
  datatype Params<!S, A> = Params(moves: S -> seq<A>, alpha: real, discount: real, epsilon: real)

  /** Alpha in its documented range [0, 1] (line 22) and a non-negative
      discount: together they keep +infinity out of the update. */
  predicate ValidRates<S, A>(p: Params<S, A>)
  {
    0.0 <= p.alpha <= 1.0 && p.discount >= 0.0
  }

  /** What train carries from step to step: the environment, the table and
      the published policy. */
  datatype Learner<E, S, A> = Learner(env: E, table: Table<S, A>, policy: map<S, Option<A>>)

  /** updateQValue on a table: the new value of cell (s, a) from the
      outcome, reading maxQ(s') before the write. The function is total: an
      outcome without a successor (a NullPointerException in Java) or rates
      outside ValidRates, which the agent's methods exclude, leave the table
      as it is. */
  function Update<S, A>(q: Table<S, A>, p: Params<S, A>, s: S, a: A, o: Outcome<S, A>): Table<S, A>
  {
    if o.sPrime.None? || !ValidRates(p) then q
    else Store(q, s, a, NewQValue(Lookup(q, s, a), o.localReward, FromMax(MaxQ(q, p.moves, o.sPrime.value)), p.alpha, p.discount))
  }

  /** The update writes the temporal-difference value, computed from the
      table before the write (a missing cell counting as 0), into cell
      (s, a), and no other cell changes. */
  lemma UpdateWritesOneCell<S, A>(q: Table<S, A>, p: Params<S, A>, s: S, a: A, o: Outcome<S, A>)
    requires o.sPrime.Some? && ValidRates(p)
    ensures Lookup(Update(q, p, s, a, o), s, a)
            == NewQValue(Lookup(q, s, a), o.localReward, FromMax(MaxQ(q, p.moves, o.sPrime.value)), p.alpha, p.discount)
    ensures forall g, m :: (g != s || m != a) ==> Lookup(Update(q, p, s, a, o), g, m) == Lookup(q, g, m)
    ensures Update(q, p, s, a, o).Keys == q.Keys + {s}
  {
    StoreWritesOneCell(q, s, a, NewQValue(Lookup(q, s, a), o.localReward, FromMax(MaxQ(q, p.moves, o.sPrime.value)), p.alpha, p.discount));
  }

  /** Lines 124-138: one step with draws (explore, index): select, execute,
      update; nothing is updated when executeMove throws. */
  function Step<E, S, A>(l: Learner<E, S, A>, env: Env<E, S, A>, p: Params<S, A>, draw: (real, real)): Learner<E, S, A>
  {
    var s := env.current(l.env);
    var m := EpsilonGreedy(l.table, p.moves, s, p.epsilon, draw.0, draw.1);
    var (next, outcome) := env.execute(l.env, m);
    if outcome.Some? && m.Some? then Learner(next, Update(l.table, p, s, m.value, outcome.value), l.policy)
    else Learner(next, l.table, l.policy)
  }

  /** Lines 122-139: steps until the environment is terminal, step k of
      episode e using draws(e, k); at most `fuel` steps. The flag says the
      episode reached a terminal state. */
  function Episode<E, S, A>(l: Learner<E, S, A>, env: Env<E, S, A>, p: Params<S, A>,
                           draws: (nat, nat) -> (real, real), episode: nat, step: nat, fuel: nat): (r: (Learner<E, S, A>, bool))
    decreases fuel
  {
    if env.isTerminal(l.env) then (l, true)
    else if fuel == 0 then (l, false)
    else Episode(Step(l, env, p, draws(episode, step)), env, p, draws, episode, step + 1, fuel - 1)
  }

  /** The (rest + 1)-th remaining step of an episode is Step. */
  lemma EpisodeStep<E, S, A>(l: Learner<E, S, A>, env: Env<E, S, A>, p: Params<S, A>,
                             draws: (nat, nat) -> (real, real), episode: nat, step: nat, fuel: nat, rest: nat)
    requires !env.isTerminal(l.env) && fuel == rest + 1
    ensures Episode(l, env, p, draws, episode, step, fuel)
            == Episode(Step(l, env, p, draws(episode, step)), env, p, draws, episode, step + 1, rest)
  {
  }

  /** Lines 120-148: one episode from reset; when it reaches a terminal
      state the policy is re-extracted from the table. */
  function EpisodeRound<E, S, A>(l: Learner<E, S, A>, env: Env<E, S, A>, p: Params<S, A>,
                                 draws: (nat, nat) -> (real, real), episode: nat, fuel: nat): (r: (Learner<E, S, A>, bool))
  {
    var run := Episode(l.(env := env.reset(l.env)), env, p, draws, episode, 0, fuel);
    if run.1 then (run.0.(policy := Extracted(run.0.table, p.moves)), true) else run
  }

  /** Lines 118-150: `left` episodes from episode number `episode`;
      training stops, incomplete, at an episode that runs out of fuel. */
  function Episodes<E, S, A>(l: Learner<E, S, A>, env: Env<E, S, A>, p: Params<S, A>,
                            draws: (nat, nat) -> (real, real), episode: nat, left: nat, fuel: nat): (r: (Learner<E, S, A>, bool))
    decreases left
  {
    if left == 0 then (l, true)
    else
      var round := EpisodeRound(l, env, p, draws, episode, fuel);
      if !round.1 then round
      else Episodes(round.0, env, p, draws, episode + 1, left - 1, fuel)
  }

  /** After a completed round, the remaining rest episodes follow. */
  lemma EpisodesContinue<E, S, A>(l: Learner<E, S, A>, env: Env<E, S, A>, p: Params<S, A>,
                                  draws: (nat, nat) -> (real, real), episode: nat, left: nat, rest: nat, fuel: nat)
    requires left == rest + 1 && EpisodeRound(l, env, p, draws, episode, fuel).1
    ensures Episodes(l, env, p, draws, episode, left, fuel)
            == Episodes(EpisodeRound(l, env, p, draws, episode, fuel).0, env, p, draws, episode + 1, rest, fuel)
  {
  }

  /** When training completes at least one episode, the published policy is
      the one extracted from the final table (line 142 runs after every
      episode, the last one included). */
  lemma {:induction false} TrainPublishesFinalPolicy<E, S, A>(l: Learner<E, S, A>, env: Env<E, S, A>, p: Params<S, A>,
                                                            draws: (nat, nat) -> (real, real), episode: nat, left: nat, fuel: nat)
    requires left > 0
    ensures var r := Episodes(l, env, p, draws, episode, left, fuel);
            r.1 ==> r.0.policy == Extracted(r.0.table, p.moves)
    decreases left
  {
    var round := EpisodeRound(l, env, p, draws, episode, fuel);
    if round.1 && left > 1 {
      TrainPublishesFinalPolicy(round.0, env, p, draws, episode + 1, left - 1, fuel);
    }
  }

  /** One step writes at most the cell of the move it took in the state it
      observed, and never removes a state from the table. */
  lemma StepWritesOneCell<E, S, A>(l: Learner<E, S, A>, env: Env<E, S, A>, p: Params<S, A>, draw: (real, real))
    ensures var s := env.current(l.env);
            var m := EpsilonGreedy(l.table, p.moves, s, p.epsilon, draw.0, draw.1);
            var q := Step(l, env, p, draw).table;
            && l.table.Keys <= q.Keys
            && forall g, a :: (g != s || m != Some(a)) ==> Lookup(q, g, a) == Lookup(l.table, g, a)
  {
    var s := env.current(l.env);
    var m := EpsilonGreedy(l.table, p.moves, s, p.epsilon, draw.0, draw.1);
    var outcome := env.execute(l.env, m).1;
    if outcome.Some? && m.Some? && outcome.value.sPrime.Some? && ValidRates(p) {
      var o := outcome.value;
      StoreWritesOneCell(l.table, s, m.value,
        NewQValue(Lookup(l.table, s, m.value), o.localReward, FromMax(MaxQ(l.table, p.moves, o.sPrime.value)), p.alpha, p.discount));
    }
  }

  /** The table's states only grow over an episode. */
  lemma {:induction false} EpisodeKeepsStates<E, S, A>(l: Learner<E, S, A>, env: Env<E, S, A>, p: Params<S, A>,
                                                     draws: (nat, nat) -> (real, real), episode: nat, step: nat, fuel: nat)
    ensures l.table.Keys <= Episode(l, env, p, draws, episode, step, fuel).0.table.Keys
    decreases fuel
  {
    if !env.isTerminal(l.env) && fuel > 0 {
      StepWritesOneCell(l, env, p, draws(episode, step));
      EpisodeKeepsStates(Step(l, env, p, draws(episode, step)), env, p, draws, episode, step + 1, fuel - 1);
    }
  }

  /** What train needs of the environment: a state it does not report
      terminal has a legal move (the exploring branch indexes the move list),
      every outcome has a successor (calculateMaxQValue dereferences it), and
      a null move is refused with IllegalMoveException. */
  ghost predicate WellBehaved<E(!new), S, A(!new)>(env: Env<E, S, A>, moves: S -> seq<A>)
  {
    && (forall e :: !env.isTerminal(e) ==> moves(env.current(e)) != [])
    && (forall e, m :: env.execute(e, m).1.Some? ==> env.execute(e, m).1.value.sPrime.Some?)
    && (forall e :: env.execute(e, None).1.None?)
  }

  /** Math.random: every draw lies in [0, 1). */
  ghost predicate UnitDraws(draws: (nat, nat) -> (real, real))
  {
    forall i, j :: 0.0 <= draws(i, j).0 < 1.0 && 0.0 <= draws(i, j).1 < 1.0
  }

  // ---------------------------------------------------------------------
  // The agent

  class QLearningAgent<E(!new), S(==), A(==, !new)> {
    /** The Q-table. */
    var qTable: Table<S, A>
    /** The policy handed to the game (Agent.policy); a null move is None. */
    var policy: map<S, Option<A>>
    /** The state of the environment (TTTEnvironment). */
    var env: E
    /** The environment's operations. */
    const environment: Env<E, S, A>
    /** Game.getPossibleMoves */
    const moves: S -> seq<A>
    const alpha: real
    const numEpisodes: int
    const discount: real
    const epsilon: real

    /** Lines 64-69 and 24-40: the given rates and episode count,
        epsilon = 0.1, an empty table. */
    constructor (environment: Env<E, S, A>, env: E, moves: S -> seq<A>, learningRate: real, numEpisodes: int, discount: real)
      ensures this.environment == environment && this.env == env && this.moves == moves
      ensures alpha == learningRate && this.numEpisodes == numEpisodes && this.discount == discount && epsilon == 0.1
      ensures qTable == map[] && policy == map[]
    {
      this.environment := environment;
      this.env := env;
      this.moves := moves;
      alpha := learningRate;
      this.numEpisodes := numEpisodes;
      this.discount := discount;
      epsilon := 0.1;
      qTable := map[];
      policy := map[];
    }

    /** The parameters the specification functions take. */
    function Rates(): Params<S, A>
    {
      Params(moves, alpha, discount, epsilon)
    }

    /** Lines 84-90: the inner loop of initQTable for state g. */
    method InitState(g: S)
      modifies this`qTable
      ensures qTable == ZeroMoves(old(qTable), g, moves(g))
    {
      var ms := moves(g);
      var j := 0;
      while j < |ms|
        invariant 0 <= j <= |ms|
        invariant qTable == ZeroMoves(old(qTable), g, ms[..j])
      {
        qTable := Store(qTable, g, ms[j], Fin(0.0));
        j := j + 1;
        assert ms[..j][..j - 1] == ms[..j - 1];
      }
      assert ms[..j] == ms;
    }

    /** initQTable: Q(g, m) = 0 for every enumerated g and legal m. */
    method InitQTable(allGames: seq<S>)
      modifies this`qTable
      ensures qTable == ZeroAll(old(qTable), allGames, moves)
    {
      var i := 0;
      while i < |allGames|
        invariant 0 <= i <= |allGames|
        invariant qTable == ZeroAll(old(qTable), allGames[..i], moves)
      {
        InitState(allGames[i]);
        i := i + 1;
        assert allGames[..i][..i - 1] == allGames[..i - 1];
      }
      assert allGames[..i] == allGames;
    }

    /** The strict-`>` scan from -infinity over the legal moves of `state`
        (lines 164-175 and 220-230). */
    method BestMove(state: S) returns (bestMove: Option<A>)
      ensures bestMove == Greedy(qTable, moves, state)
    {
      ghost var vals := Candidates(qTable, moves, state);
      ghost var best := -1;
      bestMove := None;
      var bestQValue := NegInf;
      var possibleMoves := moves(state);
      var j := 0;
      while j < |possibleMoves|
        invariant 0 <= j <= |possibleMoves|
        invariant IsFirstMax(vals, None, j, best)
        invariant bestQValue == FromMax(Held(vals, None, best))
        invariant bestMove == if best < 0 then None else Some(possibleMoves[best])
      {
        ScanStep(vals, None, j, best);
        var move := possibleMoves[j];
        var qValue := Lookup(qTable, state, move);
        GtIsBeats(qValue, Held(vals, None, best));
        if Gt(qValue, bestQValue) {
          bestQValue := qValue;
          bestMove := Some(move);
          best := j;
        }
        j := j + 1;
      }
      FirstMaxIsFirstMax(vals, None);
      FirstMaxUnique(vals, None, |vals|, best, FirstMax(vals, None));
    }

    /** epsilonGreedyPolicy with the draws of its two Math.random calls. */
    method EpsilonGreedyPolicy(currentState: S, explore: real, index: real) returns (move: Option<A>)
      requires 0.0 <= explore < 1.0 && 0.0 <= index < 1.0
      requires explore < epsilon ==> moves(currentState) != []
      ensures move == EpsilonGreedy(qTable, moves, currentState, epsilon, explore, index)
    {
      var possibleMoves := moves(currentState);
      if explore < epsilon {
        move := Some(possibleMoves[RandomIndex(index, |possibleMoves|)]);
      } else {
        move := BestMove(currentState);
      }
    }

    /** calculateMaxQValue; None is the -infinity it starts from. */
    method CalculateMaxQValue(gameState: S) returns (maxQValue: Ext)
      ensures maxQValue == FromMax(MaxQ(qTable, moves, gameState))
    {
      ghost var vals := Candidates(qTable, moves, gameState);
      ghost var best := -1;
      maxQValue := NegInf;
      var ms := moves(gameState);
      var j := 0;
      while j < |ms|
        invariant 0 <= j <= |ms|
        invariant IsFirstMax(vals, None, j, best)
        invariant maxQValue == FromMax(Held(vals, None, best))
      {
        ScanStep(vals, None, j, best);
        var qValue := Lookup(qTable, gameState, ms[j]);
        GtIsBeats(qValue, Held(vals, None, best));
        if Gt(qValue, maxQValue) {
          maxQValue := qValue;
          best := j;
        }
        j := j + 1;
      }
      FirstMaxIsFirstMax(vals, None);
      FirstMaxUnique(vals, None, |vals|, best, FirstMax(vals, None));
    }

    /** updateQValue: writes the temporal-difference value into cell
        (currentState, selectedMove) only. */
    method UpdateQValue(currentState: S, selectedMove: A, outcome: Outcome<S, A>)
      requires outcome.sPrime.Some? && ValidRates(Rates())
      modifies this`qTable
      ensures qTable == Update(old(qTable), Rates(), currentState, selectedMove, outcome)
    {
      var maxNextQValue := CalculateMaxQValue(outcome.sPrime.value);
      var currentQValue := Lookup(qTable, currentState, selectedMove);
      var newQValue := NewQValue(currentQValue, outcome.localReward, maxNextQValue, alpha, discount);
      qTable := Store(qTable, currentState, selectedMove, newQValue);
    }

    /** extractPolicy: a fresh policy from the table. */
    method ExtractPolicy() returns (policy: map<S, Option<A>>)
      ensures policy == Extracted(qTable, moves)
    {
      policy := map[];
      var remaining := qTable.Keys;
      while remaining != {}
        invariant remaining <= qTable.Keys
        invariant policy.Keys == (set s | s in qTable && moves(s) != []) - remaining
        invariant forall s :: s in policy ==> policy[s] == Greedy(qTable, moves, s)
        decreases remaining
      {
        var state :| state in remaining;
        var possibleMoves := moves(state);
        if possibleMoves != [] {
          var bestMove := BestMove(state);
          policy := policy[state := bestMove];
        }
        remaining := remaining - {state};
      }
    }

    /** Lines 124-138: one step of an episode. */
    method TrainStep(draw: (real, real))
      requires !environment.isTerminal(env)
      requires 0.0 <= draw.0 < 1.0 && 0.0 <= draw.1 < 1.0
      requires WellBehaved(environment, moves) && ValidRates(Rates())
      modifies this`env, this`qTable
      ensures Learner(env, qTable, policy) == Step(Learner(old(env), old(qTable), policy), environment, Rates(), draw)
    {
      var currentState := environment.current(env);
      var selectedMove := EpsilonGreedyPolicy(currentState, draw.0, draw.1);
      var result := environment.execute(env, selectedMove);
      env := result.0;
      if result.1.Some? {
        UpdateQValue(currentState, selectedMove.value, result.1.value);
      }
    }

    /** Lines 120-139: an episode from reset, at most `fuel` steps; reports
        whether it reached a terminal state. */
    method RunEpisode(draws: (nat, nat) -> (real, real), episode: nat, fuel: nat) returns (done: bool)
      requires UnitDraws(draws) && WellBehaved(environment, moves) && ValidRates(Rates())
      modifies this`env, this`qTable
      ensures (Learner(env, qTable, policy), done)
              == Episode(Learner(environment.reset(old(env)), old(qTable), policy), environment, Rates(), draws, episode, 0, fuel)
    {
      env := environment.reset(env);
      ghost var goal := Episode(Learner(env, qTable, policy), environment, Rates(), draws, episode, 0, fuel);
      var step := 0;
      ghost var left := fuel;
      while !environment.isTerminal(env)
        invariant step + left == fuel
        invariant Episode(Learner(env, qTable, policy), environment, Rates(), draws, episode, step, left) == goal
        decreases left
      {
        if step == fuel {
          return false;
        }
        ghost var before := Learner(env, qTable, policy);
        TrainStep(draws(episode, step));
        ghost var budget := left;
        left := left - 1;
        EpisodeStep(before, environment, Rates(), draws, episode, step, budget, left);
        step := step + 1;
      }
      done := true;
    }

    /** train: numEpisodes episodes, the policy re-extracted after each;
        stops, reporting false, at an episode that runs out of fuel. */
    method Train(draws: (nat, nat) -> (real, real), fuel: nat) returns (completed: bool)
      requires UnitDraws(draws) && WellBehaved(environment, moves) && ValidRates(Rates())
      modifies this`env, this`qTable, this`policy
      ensures var n := if numEpisodes < 0 then 0 else numEpisodes;
              var r := Episodes(Learner(old(env), old(qTable), old(policy)), environment, Rates(), draws, 0, n, fuel);
              env == r.0.env && qTable == r.0.table && policy == r.0.policy && completed == r.1
    {
      ghost var n: nat := if numEpisodes < 0 then 0 else numEpisodes;
      ghost var goal := Episodes(Learner(env, qTable, policy), environment, Rates(), draws, 0, n, fuel);
      ghost var left := n;
      var episode := 0;
      while episode < numEpisodes
        invariant episode + left == n
        invariant Episodes(Learner(env, qTable, policy), environment, Rates(), draws, episode, left, fuel) == goal
        decreases left
      {
        ghost var before := Learner(env, qTable, policy);
        var done := RunEpisode(draws, episode, fuel);
        if !done {
          return false;
        }
        policy := ExtractPolicy();
        ghost var budget := left;
        left := left - 1;
        EpisodesContinue(before, environment, Rates(), draws, episode, budget, left, fuel);
        episode := episode + 1;
      }
      completed := true;
    }
  }
}
