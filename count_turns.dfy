/**
 * CountTurns.js as one processing run: the file's globals (the sorted tree, the in-transit
 * table, the tally) become the fields of a TurnCounter, and its functions become methods
 * proved against the Ordering and Tracker specifications.
 */
module CountTurns {
  import opened Events
  import opened Turns
  import opened Ordering
  import opened Tracker

  /** The four counts in the order the result line prints them: left, straight, right, U-turn slot. */
  function Report(totals: map<int, int>): (r: (int, int, int, int))
    requires totals.Keys == {U_TURN, LEFT_TURN, STRAIGHT, RIGHT_TURN}
    ensures r.0 + r.1 + r.2 + r.3 == Sum(totals)
    ensures r.0 == totals[LEFT_TURN] && r.1 == totals[STRAIGHT]
    ensures r.2 == totals[RIGHT_TURN] && r.3 == totals[U_TURN]
  {
    (totals[LEFT_TURN], totals[STRAIGHT], totals[RIGHT_TURN], totals[U_TURN])
  }

  /** A whole run over an already-parsed input: insert everything, then walk in time order. */
  function Run(rawData: seq<Event>): (r: TrackerState)
    ensures Inv(r)
  {
    Walk(Initial(), SortByTime(rawData))
  }

  class TurnCounter {
    /** The in-order contents of the red-black tree keyed on time. */
    var sortedData: seq<Event>
    /** Vehicles that have entered but not yet left, each with its open entrance event. */
    var inProgressTurns: map<Vehicle, Event>
    /** Tally slot (0..3) to count. */
    var totalTurns: map<int, int>
    /** The transits counted so far, in order; they are what the tally counts. */
    ghost var completed: seq<Transit>

    ghost function State(): TrackerState
      reads this
    {
      TrackerState(inProgressTurns, totalTurns, completed)
    }

    ghost predicate Valid()
      reads this
    {
      StrictlyOrdered(sortedData) && Inv(State())
    }

    /** The globals as the script sets them up: an empty tree, an empty table, four zero counts. */
    constructor ()
      ensures Valid()
      ensures sortedData == [] && State() == Initial()
      ensures totalTurns.Keys == {U_TURN, LEFT_TURN, STRAIGHT, RIGHT_TURN}
      ensures forall k :: k in totalTurns ==> totalTurns[k] == 0
    {
      sortedData := [];
      inProgressTurns := map[];
      var totals: map<int, int> := map[];
      totals := totals[U_TURN := 0];
      totals := totals[LEFT_TURN := 0];
      totals := totals[STRAIGHT := 0];
      totals := totals[RIGHT_TURN := 0];
      totalTurns := totals;
      completed := [];
    }

    /** sortedData.insert(event): a new time is put in its place, a known time is refused. */
    method Insert(event: Event) returns (inserted: bool)
      requires Valid()
      modifies this`sortedData
      ensures Valid()
      ensures sortedData == InsertByTime(old(sortedData), event)
      ensures inserted <==> !HasTime(old(sortedData), event.time)
    {
      var i := FindSlot(sortedData, event.time);
      InsertAtSlot(sortedData, event, i);
      if i < |sortedData| && sortedData[i].time == event.time {
        assert sortedData[i] in sortedData;
        inserted := false;
      } else {
        forall x | x in sortedData
          ensures x.time != event.time
        {
          var k :| 0 <= k < |sortedData| && sortedData[k] == x;
          if k > i {
            assert sortedData[i].time < sortedData[k].time;
          }
        }
        sortedData := sortedData[..i] + [event] + sortedData[i..];
        inserted := true;
      }
    }

    /** countTurn: the slot of the transit's circular offset goes up by one. */
    method CountTurn(entranceRegion: int, exitRegion: int, vehicle: Vehicle)
      requires Valid() && entranceRegion <= NUM_LANES < exitRegion
      modifies this`totalTurns, this`completed
      ensures Valid()
      ensures totalTurns == AddTurn(old(totalTurns), entranceRegion, exitRegion)
      ensures completed == old(completed) + [Transit(entranceRegion, exitRegion, vehicle)]
    {
      var turn := TruncRem(exitRegion - entranceRegion);
      AddTurnKeepsTally(totalTurns, completed, Transit(entranceRegion, exitRegion, vehicle));
      totalTurns := totalTurns[turn := totalTurns[turn] + 1];
      completed := completed + [Transit(entranceRegion, exitRegion, vehicle)];
    }

    /**
     * checkTurnProgress: an entrance opens a transit for a vehicle outside, an exit closes and
     * counts the open one; the other two cases are ignored and reported by `warning`.
     */
    method CheckTurnProgress(event: Event) returns (warning: bool)
      requires Valid()
      modifies this`inProgressTurns, this`totalTurns, this`completed
      ensures Valid()
      ensures State() == Track(old(State()), event)
      ensures warning == Ignored(old(State()), event)
    {
      ghost var after := Track(State(), event);
      var key := event.vehicle;
      if key in inProgressTurns {
        if event.region <= NUM_LANES {
          return true;
        }
        CountTurn(inProgressTurns[key].region, event.region, key);
        inProgressTurns := inProgressTurns - {key};
      } else {
        if event.region > NUM_LANES {
          return true;
        }
        inProgressTurns := inProgressTurns[key := event];
      }
      assert State() == after;
      warning := false;
    }

    /** sortedData.each(checkTurnProgress): every event of the tree, in time order. */
    method VisitInOrder()
      requires Valid()
      modifies this`inProgressTurns, this`totalTurns, this`completed
      ensures Valid()
      ensures State() == Walk(old(State()), sortedData)
    {
      for i := 0 to |sortedData|
        invariant Valid()
        invariant State() == Walk(old(State()), sortedData[..i])
      {
        var _ := CheckTurnProgress(sortedData[i]);
        assert sortedData[..i + 1][..i] == sortedData[..i];
      }
      assert sortedData[..|sortedData|] == sortedData;
    }

    /**
     * processData after parsing: insert every event into the tree, walk the tree in time
     * order, and give back the four counts in print order.
     */
    method ProcessData(rawData: seq<Event>) returns (left: int, straight: int, right: int, uTurn: int)
      requires Valid()
      modifies this
      ensures Valid()
      ensures sortedData == InsertAll(old(sortedData), rawData)
      ensures State() == Walk(old(State()), sortedData)
      ensures (left, straight, right, uTurn) == Report(totalTurns)
    {
      for n := 0 to |rawData|
        invariant Valid()
        invariant sortedData == InsertAll(old(sortedData), rawData[..n])
        invariant State() == old(State())
      {
        var _ := Insert(rawData[n]);
        assert rawData[..n + 1][..n] == rawData[..n];
      }
      assert rawData[..|rawData|] == rawData;
      VisitInOrder();
      left, straight, right, uTurn := totalTurns[LEFT_TURN], totalTurns[STRAIGHT], totalTurns[RIGHT_TURN], totalTurns[U_TURN];
    }
  }

  /**
   * One invocation on an already-parsed input: the printed counts are those of the run, they
   * add up to the number of exits that matched an open entrance, and none is negative.
   */
  method CountTurnsIn(rawData: seq<Event>) returns (left: int, straight: int, right: int, uTurn: int)
    ensures (left, straight, right, uTurn) == Report(Run(rawData).totalTurns)
    ensures left + straight + right + uTurn == Matches(Initial(), SortByTime(rawData))
    ensures left >= 0 && straight >= 0 && right >= 0 && uTurn >= 0
  {
    var counter := new TurnCounter();
    left, straight, right, uTurn := counter.ProcessData(rawData);
    WalkTallySum(Initial(), SortByTime(rawData));
  }

  /** With distinct timestamps, the counts do not depend on the order of the input. */
  lemma RunIgnoresInputOrder(a: seq<Event>, b: seq<Event>)
    requires DistinctTimes(a) && multiset(a) == multiset(b)
    ensures Run(a) == Run(b)
  {
    OrderingInvariance(a, b);
  }

  /**
   * Without distinct timestamps the input order matters: two exits of one vehicle at the same
   * time, and whichever was listed first is the one counted.
   */
  lemma TiedExitsDependOnInputOrder()
    ensures Run([Event(1, 0, "A"), Event(5, 1, "A"), Event(6, 1, "A")]).completed == [Transit(1, 5, "A")]
    ensures Run([Event(1, 0, "A"), Event(6, 1, "A"), Event(5, 1, "A")]).completed == [Transit(1, 6, "A")]
  {
    var enter := Event(1, 0, "A");
    SecondTiedEventDropped(enter, Event(5, 1, "A"), Event(6, 1, "A"));
    SecondTiedEventDropped(enter, Event(6, 1, "A"), Event(5, 1, "A"));
    ExitAfterEntrance(enter, Event(5, 1, "A"));
    ExitAfterEntrance(enter, Event(6, 1, "A"));
  }

  /** From the initial state, an entrance and then an exit of the same vehicle count exactly that one transit. */
  lemma ExitAfterEntrance(enter: Event, exit: Event)
    requires IsEntrance(enter) && IsExit(exit) && enter.vehicle == exit.vehicle
    ensures Walk(Initial(), [enter, exit]).completed == [Transit(enter.region, exit.region, enter.vehicle)]
  {
    var es := [enter, exit];
    assert es[..1] == [enter] && [enter][..0] == [];
    assert Walk(Initial(), [enter]) == Track(Initial(), enter);
  }
}
