# CountTurns in Dafny

A model of `CountTurns.js`, a script that counts the turns vehicles make through a
four-way intersection. The input is a list of lane-crossing events. Each event has a
region, a timestamp and a vehicle. Regions 1-4 are the entrance lanes and regions 5-8
are the exit lanes.

The script works in three steps:

- It inserts every event into a red-black tree keyed on `time`.
- It walks the tree in time order. A per-vehicle table of open entrances pairs each exit
  with the vehicle's entrance.
- It classifies each completed transit by the circular offset
  `(exitRegion - entranceRegion) % 4` and adds one to that slot of a four-slot tally.

The model has five modules:

- `Events`: the event record, the lane constant and the entrance/exit split.
- `Turns`: the turn index, the initial tally, and what one `countTurn` does to the tally.
  A ghost list of completed transits says what the tally counts: slot k holds the
  number of transits of kind k.
- `Ordering`: the tree, seen through its in-order contents, a sequence whose times
  strictly increase. Insertion puts a new time in its place and refuses a time already
  present, because the comparator `a.time - b.time` calls such events equal.
  `SortByTime` is the whole insertion loop.
- `Tracker`: `checkTurnProgress` as a pure function `Track` over the tracker state, and
  the in-order walk as `Walk`. It also holds a per-vehicle two-state machine
  (`Outside` / `Inside(entrance)`). `WalkIsPerVehicle` proves that the shared table
  behaves as one such machine per vehicle.
- `CountTurns`: the script's globals as the fields of a class `TurnCounter`. The
  script's functions become methods that update those fields in place, each proved
  against the `Ordering` and `Tracker` functions.

Tally slots are named by the source's constants: `U_TURN = 0`, `LEFT_TURN = 1`,
`STRAIGHT = 2`, `RIGHT_TURN = 3`. The comment above `countTurn` (lines 121-123) names
slot 1 "right" and slot 3 "left", which disagrees with those constants. The comment at
line 92 gives an output order that line 93 does not print. No proof relies on a
left/right label. Every statement is about slot indices, and `Report` gives the four
counts in the order line 93 prints them (slots 1, 2, 3, 0).

One might expect events with equal timestamps to keep their arrival order. The code does
not. The comparator `a.time - b.time` makes equal times one key, and the tree's `insert`
refuses a second event under an existing key, so only the first event at each timestamp is
visited. The model follows the code. `Ordering.FirstArrivalWins` states that behaviour in
general. `Ordering.TiedEventOfOtherVehicleLost` and `CountTurns.TiedExitsDependOnInputOrder`
show what it costs on concrete inputs: an event of another vehicle at a time already taken is
never seen, and with tied exits the input order decides which turn is counted.
`CountTurns.RunIgnoresInputOrder` shows that the input order does not matter when all
timestamps are distinct.

## Model

| member | source | states |
|---|---|---|
| Turns.TruncRem | CountTurns.js:125 | JavaScript's `%` by 4: the remainder takes the sign of the dividend, its magnitude is below 4, and it is congruent to the dividend modulo 4 |
| Turns.TurnIndex | CountTurns.js:125 | for entrance <= 4 < exit, the turn index lies in 0..3 and is congruent to exit - entrance modulo 4 |
| Turns.TurnIndexIsEuclidean | CountTurns.js:125 | on the regions the tracker lets through (entrance <= 4 < exit), the truncating remainder equals the mathematical (non-negative) one |
| Turns.TurnIndexIsCircularOffset | CountTurns.js:121-125 | for regions 1-4 and 5-8, the plain difference gives the same slot as the lane-to-lane offset ((exitLane - entranceLane) % 4 + 4) % 4 |
| Turns.KindsPartitionExits | CountTurns.js:121-125 | from each entrance lane, each slot is reached by exactly one exit region in 5..8 |
| Turns.EastEntranceSlots | CountTurns.js:27-30 | from entrance 1, exits 5, 6, 7, 8 give slots U_TURN, LEFT_TURN, STRAIGHT, RIGHT_TURN (0, 1, 2, 3) |
| Turns.InitialTally | CountTurns.js:46-52 | the tally starts with exactly the keys U_TURN, LEFT_TURN, STRAIGHT, RIGHT_TURN, all zero |
| Turns.AddTurn | CountTurns.js:124-127 | countTurn keeps the four keys, raises the transit's slot by one, leaves the other three slots unchanged, and raises the sum by one |
| Turns.AddTurnKeepsTally | CountTurns.js:124-127 | if the tally is the per-slot count of the transits so far, it still is after countTurn and one more transit |
| Turns.CountsSumToLength | CountTurns.js:124-127 | every transit falls in exactly one slot: the four per-slot counts add up to the number of transits |
| Turns.TallySum | CountTurns.js:124-127 | the sum of a tally is the number of transits it counts |
| Ordering.InsertByTime | CountTurns.js:40 | insertion into the time-keyed tree keeps the times strictly increasing and brings in no event except the inserted one |
| Ordering.InsertByTimeContents | CountTurns.js:40 | an event whose time is already present leaves the tree unchanged; otherwise the tree grows by exactly that event |
| Ordering.FindSlot | CountTurns.js:87 | the tree's search: the returned position splits the contents into the times below the key and the times at or above it |
| Ordering.InsertAtSlot | CountTurns.js:87 | placing the event at that position, or refusing it when the position holds its time, is exactly the tree insertion |
| Ordering.InsertAll | CountTurns.js:85-88 | inserting the input one event at a time leaves the contents in strictly increasing time order |
| Ordering.SortByTime | CountTurns.js:85-90 | the walk visits events in strictly increasing time order |
| Ordering.SortByTimeTimes | CountTurns.js:85-90 | the walk visits an event at a time exactly when some input event has that time |
| Ordering.FirstWithTime | CountTurns.js:85-88 | the position of the first input event with a given time, or -1 when no input event has that time |
| Ordering.SortByTimeSound | CountTurns.js:85-90 | every visited event came from the input, and it is the first input event with its time |
| Ordering.SortByTimeComplete | CountTurns.js:85-90 | every input event with no earlier input event at the same time is visited |
| Ordering.FirstArrivalWins | CountTurns.js:40 | the first input event at a time is visited, and no other event at that time is |
| Ordering.StrictlyOrderedUnique | CountTurns.js:40 | two in-order tree contents with the same members are the same sequence |
| Ordering.TiedEventOfOtherVehicleLost | CountTurns.js:40 | two input events of different vehicles at the same time: only the first is visited, the second is lost |
| Ordering.SecondTiedEventDropped | CountTurns.js:40 | after an earlier event, of two input events at one time only the one listed first is visited |
| Ordering.OrderingInvariance | CountTurns.js:85-90 | when all timestamps are distinct, every permutation of the input is visited in the same order |
| Tracker.Initial | CountTurns.js:43-52 | the state before the walk: an empty in-transit table, the four tally slots at zero, no transits counted; it satisfies the tracker invariant |
| Tracker.Track | CountTurns.js:101-119 | one event: re-entry while inside and exit while outside change nothing; an entrance from outside stores the event and leaves the tally; an exit from inside removes the vehicle and counts one turn from the stored entrance region to this exit region; other vehicles' entries never change; the tracker invariant is kept |
| Tracker.Walk | CountTurns.js:90 | the walk keeps the invariant: the table holds only entrance events (region <= 4), each under its own vehicle, and the tally counts the completed transits |
| Tracker.WalkTallySum | CountTurns.js:101-127 | along the walk, the sum of the four tallies grows by exactly the number of exits that matched an open entrance, and equals the number of transits counted |
| Tracker.WalkTalliesGrow | CountTurns.js:101-127 | along the walk no tally decreases and no counted transit is lost |
| Tracker.WalkCountsOnlyTransits | CountTurns.js:104-110 | every counted transit goes from an entrance region to an exit region |
| Tracker.TrackIsStep | CountTurns.js:101-119 | for the event's own vehicle, checkTurnProgress is one step of the two-state machine Outside / Inside(entrance) |
| Tracker.TrackOtherVehicle | CountTurns.js:101-119 | an event leaves every other vehicle's state and counted transits as they were |
| Tracker.TrackOwnVehicle | CountTurns.js:101-119 | the transits counted for the event's own vehicle grow by exactly the transit of that vehicle's machine step |
| Tracker.WalkIsPerVehicle | CountTurns.js:90-119 | for each vehicle, the final state and the transits counted for it are those of its own two-state machine run over its own events |
| CountTurns.Report | CountTurns.js:93 | the four counts in the order line 93 prints them (slot LEFT_TURN first, U_TURN last); together they add up to the tally's sum |
| CountTurns.Run | CountTurns.js:85-90 | a whole run over a parsed input ends in a state that satisfies the tracker invariant |
| CountTurns.TurnCounter.constructor | CountTurns.js:37-52 | an empty tree, an empty table, and the tally initialised to four zero slots |
| CountTurns.TurnCounter.Insert | CountTurns.js:87 | in-place tree insertion equals InsertByTime, and the result reports whether the time was new |
| CountTurns.TurnCounter.CountTurn | CountTurns.js:124-127 | the tally field becomes AddTurn of the old tally, and the transit is counted |
| CountTurns.TurnCounter.CheckTurnProgress | CountTurns.js:101-119 | the new state is Track of the old one, and the warning flag is raised exactly on the two ignored cases |
| CountTurns.TurnCounter.VisitInOrder | CountTurns.js:90 | visiting the tree's contents in order leaves the state Walk of the old state over those contents |
| CountTurns.TurnCounter.ProcessData | CountTurns.js:84-93 | the tree becomes InsertAll of the input, the state becomes the walk over the tree, and the four counts come back in print order |
| CountTurns.CountTurnsIn | CountTurns.js:84-93 | a fresh run prints the counts of Run(input); they are non-negative and add up to the number of exits that matched an open entrance |
| CountTurns.TiedExitsDependOnInputOrder | CountTurns.js:85-90 | with one entrance and two exits of the vehicle at the same time, swapping the two exits in the input changes which turn is counted |
| CountTurns.ExitAfterEntrance | CountTurns.js:104-117 | from the initial state, an entrance followed by an exit of the same vehicle counts exactly one transit, from that entrance region to that exit region |
| CountTurns.RunIgnoresInputOrder | CountTurns.js:85-90 | when all timestamps are distinct, permuting the input gives the same final counts and table |

## Left out

- The command-line argument check and usage message (lines 19-21, 59-64): process plumbing.
- `fs.readFile` and its error path (lines 66, 70-74): file I/O.
- `JSON.parse` and the invalid-JSON message (lines 76-82). The model takes an already-parsed sequence of events. It does not model events with missing or non-integer fields.
- `console.log` / `console.error` (lines 93, 106, 114). The warnings are the `warning` result of `CheckTurnProgress`. The output line is the four counts in print order. The decimal string concatenation is not modelled.
- The internals of the `bintrees` red-black tree (line 34). The tree is a strictly time-ordered sequence with a binary-search insertion, so balancing and its O(log n) cost are not modelled.
- JavaScript truthiness of `inProgressTurns[key]` and coercion of keys to strings (line 104). The table is a map keyed by the vehicle identifier, and presence is map membership. Identifiers that clash with inherited object properties (such as `"constructor"`) are not modelled.
- The commented-out listing of vehicles still in the intersection (lines 95-97). It is not code.
- Integer width: timestamps and regions are unbounded integers. The comparator's subtraction `a.time - b.time` is modelled as an exact comparison, so precision loss for timestamps beyond 2^53 is not modelled.
