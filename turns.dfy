/** Turn classification and the four-slot tally (countTurn and totalTurns). */
module Turns {
  import opened Events

  // Indices of the four kinds of turn in the tally, named as the source's constants name them.
  const U_TURN: int := 0
  const LEFT_TURN: int := 1
  const STRAIGHT: int := 2
  const RIGHT_TURN: int := 3

  /**
   * `a % NUM_LANES` with JavaScript's `%`: the remainder of division truncated toward zero,
   * so it takes the sign of `a` (Dafny's own `%` never goes negative).
   */
  function TruncRem(a: int): (r: int)
    ensures a >= 0 ==> 0 <= r < NUM_LANES
    ensures a < 0 ==> -NUM_LANES < r <= 0
    ensures a >= 0 ==> (a - r) % NUM_LANES == 0
    ensures a < 0 ==> (-a + r) % NUM_LANES == 0
  {
    if a >= 0 then a % NUM_LANES else -((-a) % NUM_LANES)
  }

  /** The tally slot of a transit: the circular offset of the exit from the entrance. */
  function TurnIndex(entranceRegion: int, exitRegion: int): (t: int)
    requires entranceRegion <= NUM_LANES < exitRegion
    ensures 0 <= t < NUM_LANES
    ensures (exitRegion - entranceRegion - t) % NUM_LANES == 0
  {
    TruncRem(exitRegion - entranceRegion)
  }

  /** The tally as initialised: one zero count for each of the four kinds of turn. */
  function InitialTally(): (m: map<int, int>)
    ensures m.Keys == {U_TURN, LEFT_TURN, STRAIGHT, RIGHT_TURN}
    ensures forall k :: k in m ==> m[k] == 0
  {
    map[U_TURN := 0, LEFT_TURN := 0, STRAIGHT := 0, RIGHT_TURN := 0]
  }

  /** One completed pass through the intersection, with the three values countTurn receives. */
  datatype Transit = Transit(entranceRegion: int, exitRegion: int, vehicle: Vehicle)

  predicate WellFormed(tr: Transit) {
    tr.entranceRegion <= NUM_LANES < tr.exitRegion
  }

  ghost predicate AllWellFormed(ts: seq<Transit>) {
    forall i :: 0 <= i < |ts| ==> WellFormed(ts[i])
  }

  function Kind(tr: Transit): int
    requires WellFormed(tr)
  {
    TurnIndex(tr.entranceRegion, tr.exitRegion)
  }

  /** How many of the transits are of kind k. */
  function CountOf(ts: seq<Transit>, k: int): nat
    requires AllWellFormed(ts)
  {
    if ts == [] then 0
    else CountOf(ts[..|ts| - 1], k) + (if Kind(ts[|ts| - 1]) == k then 1 else 0)
  }

  /** A tally holds, for each kind, the number of transits of that kind. */
  ghost predicate TallyOf(totals: map<int, int>, ts: seq<Transit>) {
    && AllWellFormed(ts)
    && totals.Keys == {U_TURN, LEFT_TURN, STRAIGHT, RIGHT_TURN}
    && forall k :: 0 <= k < NUM_LANES ==> totals[k] == CountOf(ts, k)
  }

  function Sum(totals: map<int, int>): int
    requires totals.Keys == {U_TURN, LEFT_TURN, STRAIGHT, RIGHT_TURN}
  {
    totals[U_TURN] + totals[LEFT_TURN] + totals[STRAIGHT] + totals[RIGHT_TURN]
  }

  /** What countTurn does to the tally: the slot of the transit's kind goes up by one. */
  function AddTurn(totals: map<int, int>, entranceRegion: int, exitRegion: int): (r: map<int, int>)
    requires totals.Keys == {U_TURN, LEFT_TURN, STRAIGHT, RIGHT_TURN}
    requires entranceRegion <= NUM_LANES < exitRegion
    ensures r.Keys == totals.Keys
    ensures r[TurnIndex(entranceRegion, exitRegion)] == totals[TurnIndex(entranceRegion, exitRegion)] + 1
    ensures forall k :: k in r && k != TurnIndex(entranceRegion, exitRegion) ==> r[k] == totals[k]
    ensures Sum(r) == Sum(totals) + 1
  {
    var t := TurnIndex(entranceRegion, exitRegion);
    totals[t := totals[t] + 1]
  }

  /** On the inputs the tracker lets through, the truncating remainder is the Euclidean one. */
  lemma TurnIndexIsEuclidean(entranceRegion: int, exitRegion: int)
    requires entranceRegion <= NUM_LANES < exitRegion
    ensures TurnIndex(entranceRegion, exitRegion) == (exitRegion - entranceRegion) % NUM_LANES
  {
  }

  /**
   * On well-formed regions the source's plain subtraction agrees with the lane-normalised,
   * sign-corrected offset ((exitLane - entranceLane) % 4 + 4) % 4, exitLane = exitRegion - 4.
   */
  lemma TurnIndexIsCircularOffset(entranceRegion: int, exitRegion: int)
    requires 1 <= entranceRegion <= NUM_LANES < exitRegion <= 2 * NUM_LANES
    ensures TurnIndex(entranceRegion, exitRegion)
         == TruncRem(TruncRem(exitRegion - NUM_LANES - entranceRegion) + NUM_LANES)
  {
  }

  /** The exit region that gives kind k from the given entrance. */
  function ExitFor(entranceRegion: int, k: int): int {
    NUM_LANES + 1 + (entranceRegion - 1 + k) % NUM_LANES
  }

  /**
   * For each entrance lane, the four exit lanes fall into the four kinds one each:
   * kind k is reached by exactly one exit in 5..8.
   */
  lemma KindsPartitionExits(entranceRegion: int, k: int, exitRegion: int)
    requires 1 <= entranceRegion <= NUM_LANES && 0 <= k < NUM_LANES
    requires NUM_LANES < exitRegion <= 2 * NUM_LANES
    ensures NUM_LANES < ExitFor(entranceRegion, k) <= 2 * NUM_LANES
    ensures TurnIndex(entranceRegion, ExitFor(entranceRegion, k)) == k
    ensures TurnIndex(entranceRegion, exitRegion) == k <==> exitRegion == ExitFor(entranceRegion, k)
  {
  }

  /** From entrance 1, exits 5, 6, 7, 8 land in slots 0, 1, 2, 3. */
  lemma EastEntranceSlots()
    ensures TurnIndex(1, 5) == U_TURN
    ensures TurnIndex(1, 6) == LEFT_TURN
    ensures TurnIndex(1, 7) == STRAIGHT
    ensures TurnIndex(1, 8) == RIGHT_TURN
  {
  }

  /** The four counts add up to the number of transits. */
  lemma {:induction false} CountsSumToLength(ts: seq<Transit>)
    requires AllWellFormed(ts)
    ensures CountOf(ts, U_TURN) + CountOf(ts, LEFT_TURN) + CountOf(ts, STRAIGHT) + CountOf(ts, RIGHT_TURN) == |ts|
  {
    if ts != [] {
      CountsSumToLength(ts[..|ts| - 1]);
    }
  }

  lemma TallySum(totals: map<int, int>, ts: seq<Transit>)
    requires TallyOf(totals, ts)
    ensures Sum(totals) == |ts|
  {
    CountsSumToLength(ts);
  }

  /** Appending one transit and bumping its slot keeps the tally the histogram of the transits. */
  lemma AddTurnKeepsTally(totals: map<int, int>, ts: seq<Transit>, tr: Transit)
    requires TallyOf(totals, ts) && WellFormed(tr)
    ensures TallyOf(AddTurn(totals, tr.entranceRegion, tr.exitRegion), ts + [tr])
  {
    var ts' := ts + [tr];
    assert ts'[..|ts'| - 1] == ts;
  }
}
