/**
 * Shared vocabulary of the three tic-tac-toe MDP solvers: the values a
 * transition model hands back, with Java's nullable references made explicit.
 *
 * Game and Move stay abstract (type parameters S and A everywhere);
 * Game.getPossibleMoves becomes a parameter `moves: S -> seq<A>` and
 * TTTMDP.generateTransitions a parameter
 * `trans: (S, A) -> Option<seq<TransitionProb<S, A>>>`, where None is a null list.
 */
module Mdp {

  datatype Option<+T> = None | Some(value: T)

  /** One concrete result of an action: the move it records, the immediate
      reward and the successor state. Java may leave `move` or `sPrime` null. */
  datatype Outcome<S, A> = Outcome(move: Option<A>, localReward: real, sPrime: Option<S>)

  /** A (probability, outcome) pair; the outcome reference may be null. */
  datatype TransitionProb<S, A> = TransitionProb(prob: real, outcome: Option<Outcome<S, A>>)

  /** The transition model and the agent's discount factor: Game.getPossibleMoves,
      TTTMDP.generateTransitions (None for a null list) and gamma. */
  datatype Model<!S, !A> = Model(
    moves: S -> seq<A>,
    trans: (S, A) -> Option<seq<TransitionProb<S, A>>>,
    discount: real)

  /** HashMap.getOrDefault(s, 0.0) on a value table. */
  function Get<S>(v: map<S, real>, s: S): (r: real)
    ensures s in v ==> r == v[s]
    ensures s !in v ==> r == 0.0
  {
    if s in v then v[s] else 0.0
  }

  /** Math.abs */
  function Abs(x: real): (r: real)
    ensures r >= 0.0 && (r == x || r == -x)
  {
    if x < 0.0 then -x else x
  }

  /** Math.max */
  function Max(x: real, y: real): (r: real)
    ensures r >= x && r >= y && (r == x || r == y)
  {
    if x < y then y else x
  }

  /** Scaling by a non-negative factor keeps the order. */
  lemma MulMonotone(p: real, a: real, b: real)
    requires p >= 0.0 && a <= b
    ensures p * a <= p * b
  {
    assert p * b - p * a == p * (b - a);
  }

  /** What one transition adds to the expected one-step return
      p * (r + discount * V(s')): nothing for a null outcome or a null
      successor; an unseen successor counts as 0. */
  function Contribution<S, A>(t: TransitionProb<S, A>, v: map<S, real>, discount: real): real
  {
    match t.outcome
    case None => 0.0
    case Some(o) =>
      match o.sPrime
      case None => 0.0
      case Some(next) => t.prob * (o.localReward + discount * Get(v, next))
  }

  /** The expected one-step return of a transition list: the accumulation
      loop of PolicyIterationAgent.calculateStateValue and, on the
      transitions it accepts, of ValueIterationAgent.calculateQValue. */
  function Backup<S, A>(ts: seq<TransitionProb<S, A>>, v: map<S, real>, discount: real): real
  {
    if ts == [] then 0.0 else Contribution(ts[0], v, discount) + Backup(ts[1..], v, discount)
  }

  /** The sum from position j on is the j-th contribution plus the sum
      after it: one turn of an accumulation loop. */
  lemma BackupAt<S, A>(ts: seq<TransitionProb<S, A>>, j: nat, v: map<S, real>, discount: real)
    requires j < |ts|
    ensures Backup(ts[j..], v, discount) == Contribution(ts[j], v, discount) + Backup(ts[j + 1..], v, discount)
  {
    assert ts[j..][1..] == ts[j + 1..];
  }

  /** The successor states whose values a transition list reads. */
  function Successors<S, A>(ts: seq<TransitionProb<S, A>>): set<S>
  {
    set i | 0 <= i < |ts| && ts[i].outcome.Some? && ts[i].outcome.value.sPrime.Some? :: ts[i].outcome.value.sPrime.value
  }

  /** The backup reads the table only at the successors of its outcomes, and
      reads a missing successor as 0. */
  lemma {:induction false} BackupFrame<S, A>(ts: seq<TransitionProb<S, A>>, v: map<S, real>, w: map<S, real>, discount: real)
    requires forall s :: s in Successors(ts) ==> Get(v, s) == Get(w, s)
    ensures Backup(ts, v, discount) == Backup(ts, w, discount)
  {
    if ts != [] {
      assert Successors(ts[1..]) <= Successors(ts) by {
        forall s | s in Successors(ts[1..]) ensures s in Successors(ts) {
          var i :| 0 <= i < |ts[1..]| && ts[1..][i].outcome.Some? && ts[1..][i].outcome.value.sPrime.Some?
                   && s == ts[1..][i].outcome.value.sPrime.value;
          assert ts[i + 1] == ts[1..][i];
        }
      }
      BackupFrame(ts[1..], v, w, discount);
      if ts[0].outcome.Some? && ts[0].outcome.value.sPrime.Some? {
        assert ts[0].outcome.value.sPrime.value in Successors(ts);
      }
    }
  }

  /** With non-negative probabilities and discount, a pointwise larger table
      gives a larger backup. */
  lemma {:induction false} BackupMonotone<S, A>(ts: seq<TransitionProb<S, A>>, v: map<S, real>, w: map<S, real>, discount: real)
    requires discount >= 0.0
    requires forall i :: 0 <= i < |ts| ==> ts[i].prob >= 0.0
    requires forall s :: Get(v, s) <= Get(w, s)
    ensures Backup(ts, v, discount) <= Backup(ts, w, discount)
  {
    if ts != [] {
      BackupMonotone(ts[1..], v, w, discount);
      ContributionMonotone(ts[0], v, w, discount);
    }
  }

  /** One transition's share of BackupMonotone. */
  lemma ContributionMonotone<S, A>(t: TransitionProb<S, A>, v: map<S, real>, w: map<S, real>, discount: real)
    requires discount >= 0.0 && t.prob >= 0.0
    requires forall s :: Get(v, s) <= Get(w, s)
    ensures Contribution(t, v, discount) <= Contribution(t, w, discount)
  {
    if t.outcome.Some? && t.outcome.value.sPrime.Some? {
      var o := t.outcome.value;
      var next := o.sPrime.value;
      MulMonotone(discount, Get(v, next), Get(w, next));
      MulMonotone(t.prob, o.localReward + discount * Get(v, next), o.localReward + discount * Get(w, next));
    }
  }

  /** Java's `(int) (Math.random() * n)`: an index below n from a draw in [0, 1). */
  function RandomIndex(draw: real, n: nat): (r: nat)
    requires 0.0 <= draw < 1.0 && n > 0
    ensures r < n
  {
    MulMonotone(n as real, draw, 1.0);
    (draw * n as real).Floor
  }

  /** The enumerated states that are not terminal, i.e. have at least one legal move. */
  function NonTerminal<S, A>(games: seq<S>, moves: S -> seq<A>): set<S>
  {
    set g | g in games && moves(g) != []
  }
}
