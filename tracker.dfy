/**
 * The transit tracker of CountTurns.js as a function of its state: checkTurnProgress applied
 * to one event (Track) and to the events in the order the walk visits them (Walk).
 */
module Tracker {
  import opened Events
  import opened Turns

  /**
   * What one run keeps: the in-transit table (vehicle to its open entrance event), the tally,
   * and, for stating what the tally means, the transits counted so far.
   */
  datatype TrackerState = TrackerState(inProgressTurns: map<Vehicle, Event>, totalTurns: map<int, int>, completed: seq<Transit>)

  /** The globals before the walk: nobody in the intersection, four zero counts, nothing counted. */
  function Initial(): (r: TrackerState)
    ensures Inv(r)
    ensures r.inProgressTurns == map[] && r.completed == []
    ensures r.totalTurns.Keys == {U_TURN, LEFT_TURN, STRAIGHT, RIGHT_TURN}
    ensures forall k :: k in r.totalTurns ==> r.totalTurns[k] == 0
  {
    TrackerState(map[], InitialTally(), [])
  }

  /**
   * The tally is the histogram of the counted transits, and the table holds only entrance
   * events, each under its own vehicle.
   */
  ghost predicate Inv(t: TrackerState) {
    && TallyOf(t.totalTurns, t.completed)
    && forall v :: v in t.inProgressTurns ==>
         t.inProgressTurns[v].vehicle == v && IsEntrance(t.inProgressTurns[v])
  }

  /** An event the tracker ignores with a warning: an entrance while inside, an exit while outside. */
  predicate Ignored(t: TrackerState, e: Event) {
    if e.vehicle in t.inProgressTurns then IsEntrance(e) else IsExit(e)
  }

  /** An exit that closes the vehicle's open entrance. */
  predicate MatchedExit(t: TrackerState, e: Event) {
    e.vehicle in t.inProgressTurns && IsExit(e)
  }

  /** checkTurnProgress: one event against the in-transit table. */
  function Track(t: TrackerState, e: Event): (r: TrackerState)
    requires Inv(t)
    ensures Inv(r)
    // no other vehicle's entry changes
    ensures forall w :: w != e.vehicle ==> Lookup(r.inProgressTurns, w) == Lookup(t.inProgressTurns, w)
    // an ignored event changes nothing at all
    ensures Ignored(t, e) ==> r == t
    // an entrance of a vehicle outside opens its transit and counts nothing
    ensures !Ignored(t, e) && !MatchedExit(t, e) ==>
              Lookup(r.inProgressTurns, e.vehicle) == Some(e) && r.totalTurns == t.totalTurns
    // an exit of a vehicle inside closes its transit and counts the turn from its stored entrance
    ensures MatchedExit(t, e) ==>
              && Lookup(r.inProgressTurns, e.vehicle) == None
              && r.totalTurns == AddTurn(t.totalTurns, t.inProgressTurns[e.vehicle].region, e.region)
    // exactly the matched exits are counted, with the stored entrance region and this exit region
    ensures r.completed == t.completed +
              if MatchedExit(t, e) then [Transit(t.inProgressTurns[e.vehicle].region, e.region, e.vehicle)] else []
    ensures Sum(r.totalTurns) == Sum(t.totalTurns) + if MatchedExit(t, e) then 1 else 0
    ensures forall k :: k in t.totalTurns ==> t.totalTurns[k] <= r.totalTurns[k]
  {
    var v := e.vehicle;
    if v in t.inProgressTurns then
      if IsEntrance(e) then t
      else
        var entrance := t.inProgressTurns[v];
        var tr := Transit(entrance.region, e.region, v);
        AddTurnKeepsTally(t.totalTurns, t.completed, tr);
        TrackerState(t.inProgressTurns - {v}, AddTurn(t.totalTurns, entrance.region, e.region), t.completed + [tr])
    else if IsExit(e) then t
    else t.(inProgressTurns := t.inProgressTurns[v := e])
  }

  /** sortedData.each(checkTurnProgress): the events in the order given. */
  function Walk(t: TrackerState, es: seq<Event>): (r: TrackerState)
    requires Inv(t)
    ensures Inv(r)
  {
    if es == [] then t
    else Track(Walk(t, es[..|es| - 1]), es[|es| - 1])
  }

  /** How many of the events are exits that close an open entrance, along the walk. */
  function Matches(t: TrackerState, es: seq<Event>): nat
    requires Inv(t)
  {
    if es == [] then 0
    else
      var before := es[..|es| - 1];
      Matches(t, before) + if MatchedExit(Walk(t, before), es[|es| - 1]) then 1 else 0
  }

  /** Along the walk the tally grows by exactly one per exit that matched an open entrance. */
  lemma {:induction false} WalkTallySum(t: TrackerState, es: seq<Event>)
    requires Inv(t)
    ensures Sum(Walk(t, es).totalTurns) == Sum(t.totalTurns) + Matches(t, es)
    ensures Sum(Walk(t, es).totalTurns) == |Walk(t, es).completed|
  {
    if es != [] {
      WalkTallySum(t, es[..|es| - 1]);
    }
    TallySum(Walk(t, es).totalTurns, Walk(t, es).completed);
  }

  /** Tallies never decrease, and the transits counted so far stay counted. */
  lemma {:induction false} WalkTalliesGrow(t: TrackerState, es: seq<Event>)
    requires Inv(t)
    ensures |t.completed| <= |Walk(t, es).completed| && Walk(t, es).completed[..|t.completed|] == t.completed
    ensures forall k :: k in t.totalTurns ==> t.totalTurns[k] <= Walk(t, es).totalTurns[k]
  {
    if es != [] {
      WalkTalliesGrow(t, es[..|es| - 1]);
      var mid := Walk(t, es[..|es| - 1]);
      assert Walk(t, es).completed[..|mid.completed|] == mid.completed;
      assert mid.completed[..|t.completed|] == t.completed;
    }
  }

  /** Every counted transit goes from an entrance lane to an exit lane. */
  lemma WalkCountsOnlyTransits(t: TrackerState, es: seq<Event>)
    requires Inv(t)
    ensures forall i :: 0 <= i < |Walk(t, es).completed| ==> WellFormed(Walk(t, es).completed[i])
  {
  }

  // ----- One vehicle on its own -----

  /** The two states of a vehicle: outside, or inside with its open entrance. */
  datatype Status = Outside | Inside(entrance: Event)

  function StatusOf(table: map<Vehicle, Event>, v: Vehicle): Status {
    if v in table then Inside(table[v]) else Outside
  }

  datatype VehicleRun = VehicleRun(status: Status, transits: seq<Transit>)

  /** One event of the vehicle's own: the new state and the transit it completes, if any. */
  function Step(st: Status, e: Event): VehicleRun {
    match st
    case Outside =>
      if IsEntrance(e) then VehicleRun(Inside(e), []) else VehicleRun(Outside, [])
    case Inside(entrance) =>
      if IsEntrance(e) then VehicleRun(st, [])
      else VehicleRun(Outside, [Transit(entrance.region, e.region, e.vehicle)])
  }

  /** The per-vehicle two-state machine over one vehicle's own events, without any shared table. */
  function RunVehicle(st: Status, es: seq<Event>): VehicleRun {
    if es == [] then VehicleRun(st, [])
    else
      var before := RunVehicle(st, es[..|es| - 1]);
      var step := Step(before.status, es[|es| - 1]);
      VehicleRun(step.status, before.transits + step.transits)
  }

  /** For the vehicle of the event, Track is the vehicle's own step. */
  lemma TrackIsStep(t: TrackerState, e: Event)
    requires Inv(t)
    ensures StatusOf(Track(t, e).inProgressTurns, e.vehicle) == Step(StatusOf(t.inProgressTurns, e.vehicle), e).status
    ensures Track(t, e).completed == t.completed + Step(StatusOf(t.inProgressTurns, e.vehicle), e).transits
  {
  }

  function EventsOf(es: seq<Event>, v: Vehicle): seq<Event> {
    if es == [] then []
    else EventsOf(es[..|es| - 1], v) + if es[|es| - 1].vehicle == v then [es[|es| - 1]] else []
  }

  function TransitsOf(ts: seq<Transit>, v: Vehicle): seq<Transit> {
    if ts == [] then []
    else TransitsOf(ts[..|ts| - 1], v) + if ts[|ts| - 1].vehicle == v then [ts[|ts| - 1]] else []
  }

  lemma {:induction false} TransitsOfAppend(ts: seq<Transit>, extra: seq<Transit>, v: Vehicle)
    requires |extra| <= 1
    ensures TransitsOf(ts + extra, v) == TransitsOf(ts, v) + TransitsOf(extra, v)
  {
    if extra != [] {
      assert (ts + extra)[..|ts + extra| - 1] == ts;
      assert extra[..0] == [];
      assert TransitsOf(extra, v) == TransitsOf([], v) + if extra[0].vehicle == v then [extra[0]] else [];
    } else {
      assert ts + extra == ts;
    }
  }

  /** Track leaves every other vehicle's state and counted transits as they were. */
  lemma TrackOtherVehicle(t: TrackerState, e: Event, v: Vehicle)
    requires Inv(t) && e.vehicle != v
    ensures StatusOf(Track(t, e).inProgressTurns, v) == StatusOf(t.inProgressTurns, v)
    ensures TransitsOf(Track(t, e).completed, v) == TransitsOf(t.completed, v)
  {
    var r := Track(t, e);
    assert Lookup(r.inProgressTurns, v) == Lookup(t.inProgressTurns, v);
    var extra := if MatchedExit(t, e) then [Transit(t.inProgressTurns[e.vehicle].region, e.region, e.vehicle)] else [];
    TransitsOfAppend(t.completed, extra, v);
    if extra != [] {
      assert extra[..0] == [];
    }
  }

  /** Track, seen from the event's own vehicle, is that vehicle's step. */
  lemma TrackOwnVehicle(t: TrackerState, e: Event)
    requires Inv(t)
    ensures TransitsOf(Track(t, e).completed, e.vehicle)
         == TransitsOf(t.completed, e.vehicle) + Step(StatusOf(t.inProgressTurns, e.vehicle), e).transits
  {
    TrackIsStep(t, e);
    var step := Step(StatusOf(t.inProgressTurns, e.vehicle), e);
    TransitsOfAppend(t.completed, step.transits, e.vehicle);
    if step.transits != [] {
      assert step.transits[..0] == [];
    }
  }

  lemma RunVehicleSnoc(st: Status, es: seq<Event>, e: Event)
    ensures RunVehicle(st, es + [e]).status == Step(RunVehicle(st, es).status, e).status
    ensures RunVehicle(st, es + [e]).transits == RunVehicle(st, es).transits + Step(RunVehicle(st, es).status, e).transits
  {
    assert (es + [e])[..|es|] == es;
  }

  /** For vehicle v, the walk over es agrees with v's own machine over v's events. */
  ghost predicate AgreesForVehicle(t: TrackerState, es: seq<Event>, v: Vehicle)
    requires Inv(t)
  {
    var run := RunVehicle(StatusOf(t.inProgressTurns, v), EventsOf(es, v));
    && StatusOf(Walk(t, es).inProgressTurns, v) == run.status
    && TransitsOf(Walk(t, es).completed, v) == TransitsOf(t.completed, v) + run.transits
  }

  lemma AgreesOwnEvent(t: TrackerState, es: seq<Event>, v: Vehicle)
    requires Inv(t) && es != [] && es[|es| - 1].vehicle == v
    requires AgreesForVehicle(t, es[..|es| - 1], v)
    ensures AgreesForVehicle(t, es, v)
  {
    var before, e := es[..|es| - 1], es[|es| - 1];
    var mid := Walk(t, before);
    var st0, evs := StatusOf(t.inProgressTurns, v), EventsOf(before, v);
    var run := RunVehicle(st0, evs);
    var step := Step(run.status, e);
    assert Walk(t, es) == Track(mid, e);
    assert EventsOf(es, v) == evs + [e];
    RunVehicleSnoc(st0, evs, e);
    TrackIsStep(mid, e);
    assert StatusOf(Walk(t, es).inProgressTurns, v) == step.status;
    TrackOwnVehicle(mid, e);
    var whole := RunVehicle(st0, EventsOf(es, v));
    assert whole.status == step.status && whole.transits == run.transits + step.transits;
    AppendAssoc(TransitsOf(t.completed, v), run.transits, step.transits);
  }

  lemma AppendAssoc(a: seq<Transit>, b: seq<Transit>, c: seq<Transit>)
    ensures (a + b) + c == a + (b + c)
  {
  }

  lemma AgreesOtherEvent(t: TrackerState, es: seq<Event>, v: Vehicle)
    requires Inv(t) && es != [] && es[|es| - 1].vehicle != v
    requires AgreesForVehicle(t, es[..|es| - 1], v)
    ensures AgreesForVehicle(t, es, v)
  {
    var before, e := es[..|es| - 1], es[|es| - 1];
    var mid := Walk(t, before);
    assert Walk(t, es) == Track(mid, e);
    TrackOtherVehicle(mid, e, v);
    assert EventsOf(es, v) == EventsOf(before, v);
  }

  /**
   * The shared table keeps vehicles apart: what the walk does for vehicle v (its final state
   * and the transits counted for it) is what v's own two-state machine does on v's events.
   */
  lemma {:induction false} WalkIsPerVehicle(t: TrackerState, es: seq<Event>, v: Vehicle)
    requires Inv(t)
    ensures StatusOf(Walk(t, es).inProgressTurns, v)
         == RunVehicle(StatusOf(t.inProgressTurns, v), EventsOf(es, v)).status
    ensures TransitsOf(Walk(t, es).completed, v)
         == TransitsOf(t.completed, v) + RunVehicle(StatusOf(t.inProgressTurns, v), EventsOf(es, v)).transits
  {
    if es == [] {
      assert TransitsOf(t.completed, v) + [] == TransitsOf(t.completed, v);
    } else {
      WalkIsPerVehicle(t, es[..|es| - 1], v);
      if es[|es| - 1].vehicle == v {
        AgreesOwnEvent(t, es, v);
      } else {
        AgreesOtherEvent(t, es, v);
      }
    }
  }
}
