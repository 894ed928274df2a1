/**
 * The running-maximum scan that every agent writes inline:
 *
 *   best = <incumbent>;  for each candidate c: if (value(c) > best) { best = value(c); winner = c; }
 *
 * Candidates are visited left to right and replace the holder only when
 * strictly greater, so ties keep the earlier holder. A candidate value of None
 * is one the scan skips (an outcome without a move, a Q-value of -infinity or
 * NaN, which never compare greater); an incumbent of None is
 * Double.NEGATIVE_INFINITY, which every finite candidate beats.
 * The scan's result is an index into the candidates, or -1 when the
 * incumbent survives.
 */
module Scan {
  import opened Mdp

  /** `v > held` in Java, for a candidate that is not skipped. */
  predicate Beats(v: Option<real>, held: Option<real>)
  {
    v.Some? && (held.None? || v.value > held.value)
  }

  /** The value the scan holds when `best` is the current winner (-1: the incumbent). */
  function Held(vals: seq<Option<real>>, start: Option<real>, best: int): Option<real>
    requires -1 <= best < |vals|
  {
    if best < 0 then start else vals[best]
  }

  /** `best` is what the scan holds after visiting vals[..n]: the first
      candidate that beats the incumbent and is not beaten by any other. */
  ghost predicate IsFirstMax(vals: seq<Option<real>>, start: Option<real>, n: nat, best: int)
    requires n <= |vals|
  {
    && -1 <= best < n
    && (best < 0 ==> forall j :: 0 <= j < n ==> !Beats(vals[j], start))
    && (best >= 0 ==>
          && Beats(vals[best], start)
          && (forall j :: 0 <= j < best ==> Beats(vals[best], vals[j]))
          && (forall j :: best < j < n ==> !Beats(vals[j], vals[best])))
  }

  /** One step of the scan keeps IsFirstMax. */
  lemma ScanStep(vals: seq<Option<real>>, start: Option<real>, i: nat, best: int)
    requires i < |vals| && IsFirstMax(vals, start, i, best)
    ensures IsFirstMax(vals, start, i + 1, if Beats(vals[i], Held(vals, start, best)) then i else best)
  {
  }

  /** The scan, from position i with current winner best. */
  function ScanFrom(vals: seq<Option<real>>, start: Option<real>, i: nat, best: int): (r: int)
    requires i <= |vals| && -1 <= best < i
    ensures -1 <= r < |vals|
    ensures r == best || i <= r
    decreases |vals| - i
  {
    if i == |vals| then best
    else ScanFrom(vals, start, i + 1, if Beats(vals[i], Held(vals, start, best)) then i else best)
  }

  /** The scan keeps IsFirstMax from position i to the end. */
  lemma {:induction false} ScanFromIsFirstMax(vals: seq<Option<real>>, start: Option<real>, i: nat, best: int)
    requires i <= |vals| && IsFirstMax(vals, start, i, best)
    ensures IsFirstMax(vals, start, |vals|, ScanFrom(vals, start, i, best))
    decreases |vals| - i
  {
    if i < |vals| {
      ScanStep(vals, start, i, best);
      ScanFromIsFirstMax(vals, start, i + 1, if Beats(vals[i], Held(vals, start, best)) then i else best);
    }
  }

  /** The whole scan from the incumbent `start`. */
  function FirstMax(vals: seq<Option<real>>, start: Option<real>): (r: int)
    ensures -1 <= r < |vals|
  {
    ScanFrom(vals, start, 0, -1)
  }

  /** The whole scan ends on the first maximal candidate that beats the
      incumbent, or on the incumbent when none does. */
  lemma FirstMaxIsFirstMax(vals: seq<Option<real>>, start: Option<real>)
    ensures IsFirstMax(vals, start, |vals|, FirstMax(vals, start))
  {
    ScanFromIsFirstMax(vals, start, 0, -1);
  }

  /** IsFirstMax determines the winner: a loop that keeps it as an
      invariant ends where FirstMax does. */
  lemma FirstMaxUnique(vals: seq<Option<real>>, start: Option<real>, n: nat, r1: int, r2: int)
    requires n <= |vals| && IsFirstMax(vals, start, n, r1) && IsFirstMax(vals, start, n, r2)
    ensures r1 == r2
  {
  }

  /** The value held at the end bounds every candidate and the incumbent. */
  lemma HeldIsMax(vals: seq<Option<real>>, start: Option<real>, r: int)
    requires IsFirstMax(vals, start, |vals|, r)
    ensures start.Some? ==> Held(vals, start, r).Some? && start.value <= Held(vals, start, r).value
    ensures forall j :: 0 <= j < |vals| && vals[j].Some? ==>
              Held(vals, start, r).Some? && vals[j].value <= Held(vals, start, r).value
    ensures Held(vals, start, r).None? <==> start.None? && forall j :: 0 <= j < |vals| ==> vals[j].None?
  {
  }
}
