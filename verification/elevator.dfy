/** src/simulation/elevator.py: one car as a door/motion state machine with a
    target list and a rider manifest. Positions and speeds are whole floors,
    so `int(round(position))` is the position itself. */
module Elevators {
  import opened Wrappers
  import opened Seqs
  import opened Passengers
  import opened Floors
  import opened MetricsTracking

  datatype Status = InService | Faulted | Maintenance

  /** `door_state` together with `_door_timer` and `_stop_handled`: the timer
      and the flag only matter while the doors are open, and both are reset
      whenever the doors open. */
  datatype Door = Closed | Open(timer: int, handled: bool)

  datatype Elevator = Elevator(
    id: int,
    capacity: int,
    speed: int,
    doorDwell: int,
    position: int,
    targets: seq<int>,
    passengers: seq<Passenger>,
    status: Status,
    door: Door)

  /** `Elevator(elevator_id, capacity)` with the remaining defaults supplied:
      at floor 0, idle, empty, in service, doors closed. */
  function NewElevator(id: int, capacity: int, speed: int, doorDwell: int): (e: Elevator)
    ensures e.targets == [] && e.passengers == [] && e.position == 0
    ensures e.status == InService && e.door == Closed
  {
    Elevator(id, capacity, speed, doorDwell, 0, [], [], InService, Closed)
  }

  predicate IsInService(e: Elevator) {
    e.status == InService
  }

  /** `direction`: 0 without targets, otherwise the sign of the head target
      minus the position. */
  function Direction(e: Elevator): (d: int)
    ensures e.targets == [] ==> d == 0
    ensures e.targets != [] ==> (d > 0 <==> e.position < e.targets[0])
    ensures e.targets != [] ==> (d < 0 <==> e.position > e.targets[0])
    ensures d == -1 || d == 0 || d == 1
  {
    if e.targets == [] then 0
    else if e.position < e.targets[0] then 1
    else if e.position > e.targets[0] then -1
    else 0
  }

  /** `assign_target`: appends the floor unless it is already a target. */
  function AssignTarget(e: Elevator, floor: int): (f: Elevator)
    ensures floor in f.targets
    ensures |e.targets| <= |f.targets| <= |e.targets| + 1 && f.targets[..|e.targets|] == e.targets
    ensures forall x :: x in f.targets <==> x in e.targets || x == floor
    ensures NoDup(e.targets) ==> NoDup(f.targets)
    ensures f.(targets := e.targets) == e
  {
    e.(targets := AddIfAbsent(e.targets, floor))
  }

  /** `_should_stop_here`: the car is at its head target, or at an existing
      floor where someone waits or a rider wants off. */
  predicate ShouldStop(e: Elevator, floors: seq<Floor>) {
    if e.targets != [] && e.position == e.targets[0] then true
    else match FloorAt(floors, e.position)
      case None => false
      case Some(f) => HasWaiting(f) || exists p :: p in e.passengers && p.destination == e.position
  }

  function Distance(a: int, b: int): nat {
    if a < b then b - a else a - b
  }

  /** `_move_towards_target`: snaps onto the head target and drops it when it
      is within one tick's travel, otherwise moves one speed towards it. */
  function Move(e: Elevator): (f: Elevator)
    ensures e.targets == [] ==> f == e
    ensures f.(position := e.position, targets := e.targets) == e
  {
    if e.targets == [] then e
    else
      var target := e.targets[0];
      if Distance(e.position, target) <= e.speed then e.(position := target, targets := e.targets[1..])
      else if e.position < target then e.(position := e.position + e.speed)
      else e.(position := e.position - e.speed)
  }

  /** One move either arrives at the head target and retires it, or keeps the
      target and closes the gap by exactly the speed. */
  lemma MoveProgress(e: Elevator)
    requires e.targets != []
    ensures Distance(e.position, e.targets[0]) <= e.speed ==>
      Move(e).position == e.targets[0] && Move(e).targets == e.targets[1..]
    ensures Distance(e.position, e.targets[0]) > e.speed ==>
      Move(e).targets == e.targets
      && Distance(Move(e).position, e.targets[0]) == Distance(e.position, e.targets[0]) - e.speed
  {
  }

  /** `_open_doors` followed by clearing the handled flag. */
  function OpenDoors(e: Elevator): (f: Elevator)
    ensures f.door.Open? && f.door.timer == e.doorDwell && !f.door.handled
    ensures f.(door := e.door) == e
  {
    e.(door := Open(e.doorDwell, false))
  }

  /** Every rider on board has a boarding time. */
  predicate AllBoarded(ps: seq<Passenger>) {
    forall i :: 0 <= i < |ps| ==> ps[i].boardTime.Some?
  }

  function GoingElsewhere(floor: int): Passenger -> bool {
    (p: Passenger) => p.destination != floor
  }

  function GoingTo(floor: int): Passenger -> bool {
    (p: Passenger) => p.destination == floor
  }

  /** The alighting loop of `_handle_stop`: riders for this floor leave and
      each is recorded with its alighting time; the others stay in order. */
  function Alight(ps: seq<Passenger>, floor: int, time: int, m: MetricsTracker)
    : (r: (seq<Passenger>, MetricsTracker))
    ensures r.0 == Filter(ps, GoingElsewhere(floor))
    ensures r.1.waitTimes == m.waitTimes
    ensures Consistent(m) ==> Consistent(r.1)
    ensures AllBoarded(ps) ==> |r.1.rideTimes| == |m.rideTimes| + |Filter(ps, GoingTo(floor))|
    ensures |r.1.rideTimes| >= |m.rideTimes| && r.1.throughput >= m.throughput
    decreases |ps|
  {
    if ps == [] then ([], m)
    else
      assert AllBoarded(ps) ==> AllBoarded(ps[1..]) by {
        assert forall i :: 0 <= i < |ps[1..]| ==> ps[1..][i] == ps[i + 1];
      }
      var p := ps[0];
      if p.destination == floor then
        Alight(ps[1..], floor, time, RecordRideTime(m, RecordAlighting(p, time)))
      else
        var r := Alight(ps[1..], floor, time, m);
        ([p] + r.0, r.1)
  }

  /** The boarding loop of `_handle_stop`: each boarded rider gets its
      boarding time and one wait sample, in boarding order. */
  function Board(ps: seq<Passenger>, time: int, m: MetricsTracker): (r: (seq<Passenger>, MetricsTracker))
    ensures |r.0| == |ps|
    ensures forall i :: 0 <= i < |ps| ==> r.0[i] == RecordBoarding(ps[i], time)
    ensures |r.1.waitTimes| == |m.waitTimes| + |ps|
    ensures r.1.rideTimes == m.rideTimes && r.1.throughput == m.throughput
    decreases |ps|
  {
    if ps == [] then ([], m)
    else
      var p := RecordBoarding(ps[0], time);
      var r := Board(ps[1..], time, RecordWaitTime(m, p));
      ([p] + r.0, r.1)
  }

  function Destinations(ps: seq<Passenger>): (ds: seq<int>)
    ensures |ds| == |ps|
    ensures forall i :: 0 <= i < |ps| ==> ds[i] == ps[i].destination
  {
    if ps == [] then [] else [ps[0].destination] + Destinations(ps[1..])
  }

  /** The targets after a stop at `floor`: the head is retired if it is this
      floor, then the boarded riders' destinations are added if absent. */
  function RefreshTargets(targets: seq<int>, floor: int, boarded: seq<Passenger>): seq<int> {
    var t := if targets != [] && targets[0] == floor then targets[1..] else targets;
    AddAllIfAbsent(t, Destinations(boarded))
  }

  /** `self.direction or 1`: the queue a stop boards from. */
  function BoardDirection(e: Elevator): (d: int)
    ensures d == 1 || d == -1
    ensures Direction(e) != 0 ==> d == Direction(e)
  {
    if Direction(e) != 0 then Direction(e) else 1
  }

  datatype StepResult = StepResult(elevator: Elevator, floors: seq<Floor>, metrics: MetricsTracker)

  /** `_handle_stop` at the car's floor: alight, board from the queue for
      `direction or 1` up to the free space, refresh targets. Nothing happens
      at a floor the building does not have. */
  function HandleStop(e: Elevator, floors: seq<Floor>, time: int, m: MetricsTracker): (r: StepResult)
    ensures FloorAt(floors, e.position).None? ==> r == StepResult(e, floors, m)
    ensures r.elevator.(passengers := e.passengers, targets := e.targets) == e
    ensures |r.floors| == |floors|
  {
    match FloorAt(floors, e.position)
    case None => StepResult(e, floors, m)
    case Some(f) =>
      var (remaining, m1) := Alight(e.passengers, e.position, time, m);
      var (f', taken) := BoardPassengers(f, BoardDirection(e), e.capacity - |remaining|);
      var (boarded, m2) := Board(taken, time, m1);
      StepResult(
        e.(passengers := remaining + boarded, targets := RefreshTargets(e.targets, e.position, boarded)),
        floors[e.position := f'],
        m2)
  }

  /** A tick with the doors open: handle the stop unless already done, then
      count the dwell down and close the doors when it runs out. */
  function OpenTick(e: Elevator, floors: seq<Floor>, time: int, m: MetricsTracker, timer: int, handled: bool)
    : StepResult
  {
    var s := if handled then StepResult(e, floors, m) else HandleStop(e, floors, time, m);
    var door := if timer - 1 <= 0 then Closed else Open(timer - 1, true);
    s.(elevator := s.elevator.(door := door))
  }

  /** `step`: nothing unless in service; with the doors open, handle the stop
      once and count the dwell down; with the doors closed, open for a stop
      here, else move and open if the car now should stop. */
  function Step(e: Elevator, floors: seq<Floor>, time: int, m: MetricsTracker): (r: StepResult)
    ensures !IsInService(e) ==> r == StepResult(e, floors, m)
    ensures |r.floors| == |floors|
    ensures r.elevator.status == e.status && r.elevator.id == e.id && r.elevator.capacity == e.capacity
    ensures r.elevator.speed == e.speed && r.elevator.doorDwell == e.doorDwell
  {
    if !IsInService(e) then StepResult(e, floors, m)
    else match e.door
      case Open(timer, handled) => OpenTick(e, floors, time, m, timer, handled)
      case Closed =>
        if e.targets != [] && ShouldStop(e, floors) then StepResult(OpenDoors(e), floors, m)
        else
          var moved := Move(e);
          if moved.targets != [] && ShouldStop(moved, floors) then StepResult(OpenDoors(moved), floors, m)
          else StepResult(moved, floors, m)
  }

  /** Closed doors and no targets: a step changes nothing. */
  lemma IdleStepIsNoOp(e: Elevator, floors: seq<Floor>, time: int, m: MetricsTracker)
    requires e.door == Closed && e.targets == []
    ensures Step(e, floors, time, m) == StepResult(e, floors, m)
  {
  }

  /** `k` consecutive steps, from tick `time` on. */
  function Steps(e: Elevator, floors: seq<Floor>, time: int, m: MetricsTracker, k: nat): StepResult
    decreases k
  {
    if k == 0 then StepResult(e, floors, m)
    else
      var s := Step(e, floors, time, m);
      Steps(s.elevator, s.floors, time + 1, s.metrics, k - 1)
  }

  /** Once the stop is handled, each tick only counts the dwell down, and the
      doors close on the tick the timer runs out. */
  lemma {:induction false} Countdown(x: Elevator, floors: seq<Floor>, time: int, m: MetricsTracker, t: int, k: nat)
    requires IsInService(x) && x.door == Open(t, true) && 1 <= k <= t
    ensures Steps(x, floors, time, m, k)
         == StepResult(x.(door := if k == t then Closed else Open(t - k, true)), floors, m)
    decreases k
  {
    var s := Step(x, floors, time, m);
    assert s == StepResult(x.(door := if t - 1 <= 0 then Closed else Open(t - 1, true)), floors, m);
    if k > 1 {
      Countdown(s.elevator, floors, time + 1, m, t - 1, k - 1);
    }
  }

  /** The first tick of an opening handles the stop and counts the timer down. */
  lemma FirstOpenTick(o: Elevator, floors: seq<Floor>, time: int, m: MetricsTracker)
    requires IsInService(o) && o.door.Open? && !o.door.handled
    ensures var h := HandleStop(o, floors, time, m);
      Step(o, floors, time, m) == h.(elevator := h.elevator.(door := if o.door.timer - 1 <= 0 then Closed else Open(o.door.timer - 1, true)))
  {
    assert Step(o, floors, time, m) == OpenTick(o, floors, time, m, o.door.timer, false);
  }

  /** The ticks after the first one of an opening only count the dwell down. */
  lemma AfterFirstTick(x: Elevator, floors: seq<Floor>, time: int, m: MetricsTracker, d: int, j: nat)
    requires IsInService(x) && x.door == (if d - 1 <= 0 then Closed else Open(d - 1, true))
    requires j < d || j == 0
    ensures Steps(x, floors, time, m, j)
         == StepResult(x.(door := if j + 1 >= d then Closed else Open(d - j - 1, true)), floors, m)
  {
    if j > 0 {
      Countdown(x, floors, time, m, d - 1, j);
    }
  }

  lemma StepsAfter(o: Elevator, floors: seq<Floor>, time: int, m: MetricsTracker, k: nat, s: StepResult)
    requires k >= 1 && Step(o, floors, time, m) == s
    ensures Steps(o, floors, time, m, k) == Steps(s.elevator, s.floors, time + 1, s.metrics, k - 1)
  {
  }

  /** The first tick after `OpenDoors` leaves the car in service. */
  lemma OpenedFirstTick(e: Elevator, floors: seq<Floor>, time: int, m: MetricsTracker)
    requires IsInService(e)
    ensures var h := HandleStop(OpenDoors(e), floors, time, m);
      var x := h.elevator.(door := if e.doorDwell - 1 <= 0 then Closed else Open(e.doorDwell - 1, true));
      Step(OpenDoors(e), floors, time, m) == StepResult(x, h.floors, h.metrics) && IsInService(x)
  {
    var o := OpenDoors(e);
    assert o.status == InService && o.door == Open(e.doorDwell, false);
    assert HandleStop(o, floors, time, m).elevator.status == o.status;
    FirstOpenTick(o, floors, time, m);
  }

  /** `k` ticks into an opening whose first tick produced `hx` with the timer
      at `d - 1`, the timer has dropped by `k` and nothing else changed. */
  lemma OpeningCountdown(o: Elevator, floors: seq<Floor>, time: int, m: MetricsTracker, k: nat,
                         hx: Elevator, fl: seq<Floor>, mt: MetricsTracker, d: int)
    requires 1 <= k && (k <= d || k == 1) && IsInService(hx)
    requires Step(o, floors, time, m) == StepResult(hx.(door := if d - 1 <= 0 then Closed else Open(d - 1, true)), fl, mt)
    ensures Steps(o, floors, time, m, k) == StepResult(hx.(door := if k >= d then Closed else Open(d - k, true)), fl, mt)
  {
    var x := hx.(door := if d - 1 <= 0 then Closed else Open(d - 1, true));
    StepsAfter(o, floors, time, m, k, StepResult(x, fl, mt));
    AfterFirstTick(x, fl, time + 1, mt, d, k - 1);
  }

  /** The state `k` ticks into an opening that started with `OpenDoors`. */
  lemma OpeningSteps(e: Elevator, floors: seq<Floor>, time: int, m: MetricsTracker, k: nat)
    requires IsInService(e) && 1 <= k && (k <= e.doorDwell || k == 1)
    ensures var h := HandleStop(OpenDoors(e), floors, time, m);
      Steps(OpenDoors(e), floors, time, m, k)
      == StepResult(h.elevator.(door := if k >= e.doorDwell then Closed else Open(e.doorDwell - k, true)), h.floors, h.metrics)
  {
    var h := HandleStop(OpenDoors(e), floors, time, m);
    OpenedFirstTick(e, floors, time, m);
    OpeningCountdown(OpenDoors(e), floors, time, m, k, h.elevator, h.floors, h.metrics, e.doorDwell);
  }

  /** An opening lasts `max(door_dwell, 1)` ticks and handles the stop exactly
      once, on its first tick: after each tick of the opening the floors and
      metrics are those of one `_handle_stop`, the doors stay open with the
      timer counting down, and on the last tick they close. */
  lemma DoorTiming(e: Elevator, floors: seq<Floor>, time: int, m: MetricsTracker)
    requires IsInService(e)
    ensures var h := HandleStop(OpenDoors(e), floors, time, m);
      var n := if e.doorDwell > 1 then e.doorDwell else 1;
      Steps(OpenDoors(e), floors, time, m, n) == StepResult(h.elevator.(door := Closed), h.floors, h.metrics)
    ensures var h := HandleStop(OpenDoors(e), floors, time, m);
      forall k :: 1 <= k < e.doorDwell ==>
        Steps(OpenDoors(e), floors, time, m, k)
        == StepResult(h.elevator.(door := Open(e.doorDwell - k, true)), h.floors, h.metrics)
  {
    OpeningSteps(e, floors, time, m, if e.doorDwell > 1 then e.doorDwell else 1);
    forall k | 1 <= k < e.doorDwell
      ensures Steps(OpenDoors(e), floors, time, m, k)
           == StepResult(HandleStop(OpenDoors(e), floors, time, m).elevator.(door := Open(e.doorDwell - k, true)),
                         HandleStop(OpenDoors(e), floors, time, m).floors, HandleStop(OpenDoors(e), floors, time, m).metrics)
    {
      OpeningSteps(e, floors, time, m, k);
    }
  }

  /** Doors that open during a step are armed with the full dwell and the stop
      is not yet handled. */
  lemma OpeningArmsTimer(e: Elevator, floors: seq<Floor>, time: int, m: MetricsTracker)
    requires IsInService(e) && e.door == Closed
    ensures Step(e, floors, time, m).elevator.door.Open? ==>
      Step(e, floors, time, m).elevator.door == Open(e.doorDwell, false)
    ensures Step(e, floors, time, m).floors == floors && Step(e, floors, time, m).metrics == m
  {
  }

  /** When the move retires the last target the doors stay closed on that tick. */
  lemma LastTargetKeepsDoorsClosed(e: Elevator, floors: seq<Floor>, time: int, m: MetricsTracker)
    requires IsInService(e) && e.door == Closed
    requires |e.targets| == 1 && !ShouldStop(e, floors)
    requires Distance(e.position, e.targets[0]) <= e.speed
    ensures Step(e, floors, time, m).elevator.door == Closed
    ensures Step(e, floors, time, m).elevator.targets == []
    ensures Step(e, floors, time, m).elevator.position == e.targets[0]
  {
  }

  /** The state every step keeps: duplicate-free targets, boarded riders, and
      throughput equal to the number of ride samples. */
  predicate Valid(e: Elevator) {
    NoDup(e.targets) && AllBoarded(e.passengers)
  }

  lemma AlightedBoarded(ps: seq<Passenger>, floor: int)
    requires AllBoarded(ps)
    ensures AllBoarded(Filter(ps, GoingElsewhere(floor)))
  {
    var r := Filter(ps, GoingElsewhere(floor));
    forall i | 0 <= i < |r| ensures r[i].boardTime.Some? {
      assert r[i] in r;
      var j :| 0 <= j < |ps| && ps[j] == r[i];
    }
  }

  /** The riders who board at a stop, before their boarding is recorded. */
  function Taken(e: Elevator, f: Floor, remaining: seq<Passenger>): seq<Passenger> {
    BoardPassengers(f, BoardDirection(e), e.capacity - |remaining|).1
  }

  lemma HandleStopParts(e: Elevator, floors: seq<Floor>, time: int, m: MetricsTracker)
    requires FloorAt(floors, e.position).Some?
    ensures var a := Alight(e.passengers, e.position, time, m);
      var b := Board(Taken(e, floors[e.position], a.0), time, a.1);
      && HandleStop(e, floors, time, m).elevator.passengers == a.0 + b.0
      && HandleStop(e, floors, time, m).elevator.targets == RefreshTargets(e.targets, e.position, b.0)
  {
  }

  /** The riders on board after a handled stop: those staying, in order,
      then those who boarded; the manifest grows to at most
      `max(capacity, riders before)`. */
  lemma HandleStopManifest(e: Elevator, floors: seq<Floor>, time: int, m: MetricsTracker)
    requires FloorAt(floors, e.position).Some?
    ensures var ps := HandleStop(e, floors, time, m).elevator.passengers;
      var kept := Filter(e.passengers, GoingElsewhere(e.position));
      |kept| <= |ps| && ps[..|kept|] == kept
    ensures |HandleStop(e, floors, time, m).elevator.passengers|
         <= if e.capacity > |e.passengers| then e.capacity else |e.passengers|
  {
    var a := Alight(e.passengers, e.position, time, m);
    var taken := Taken(e, floors[e.position], a.0);
    var b := Board(taken, time, a.1);
    HandleStopParts(e, floors, time, m);
    assert (a.0 + b.0)[..|a.0|] == a.0;
    assert |a.0| <= |e.passengers|;
    assert |taken| <= if e.capacity - |a.0| > 0 then e.capacity - |a.0| else 0;
  }

  /** Who boards at a stop: after the riders staying (`Alight`'s first
      component, those not bound for this floor, in their old order) come the
      front of the floor's queue for `direction or 1`, as many as the space
      left after alighting allows, in queue order, each stamped with the
      stop's time. */
  lemma HandleStopBoarding(e: Elevator, floors: seq<Floor>, time: int, m: MetricsTracker)
    requires FloorAt(floors, e.position).Some?
    ensures var kept := Alight(e.passengers, e.position, time, m).0;
      var boarders := Taken(e, floors[e.position], kept);
      var ps := HandleStop(e, floors, time, m).elevator.passengers;
      && boarders == Queue(floors[e.position], BoardDirection(e))[..|boarders|]
      && |kept| <= |ps| && ps[|kept|..] == Stamp(boarders, time)
  {
    HandleStopParts(e, floors, time, m);
    TakenFront(e, floors[e.position], Alight(e.passengers, e.position, time, m).0);
    StampAfter(HandleStop(e, floors, time, m).elevator.passengers, Alight(e.passengers, e.position, time, m).0,
               Taken(e, floors[e.position], Alight(e.passengers, e.position, time, m).0),
               time, Alight(e.passengers, e.position, time, m).1);
  }

  /** The boarders are the front of the queue they board from. */
  lemma TakenFront(e: Elevator, f: Floor, kept: seq<Passenger>)
    ensures Taken(e, f, kept) == Queue(f, BoardDirection(e))[..|Taken(e, f, kept)|]
  {
    QueueFront(f, BoardDirection(e), e.capacity - |kept|);
  }

  /** Riders stamped with a boarding time, in order. */
  function Stamp(ps: seq<Passenger>, time: int): (r: seq<Passenger>)
    ensures |r| == |ps|
    ensures forall i :: 0 <= i < |ps| ==> r[i] == RecordBoarding(ps[i], time)
  {
    if ps == [] then [] else [RecordBoarding(ps[0], time)] + Stamp(ps[1..], time)
  }

  /** A manifest made of `kept` followed by `Board` of the boarders ends with
      the boarders stamped, in order. */
  lemma StampAfter(ps: seq<Passenger>, kept: seq<Passenger>, boarders: seq<Passenger>, time: int, m: MetricsTracker)
    requires ps == kept + Board(boarders, time, m).0
    ensures |kept| <= |ps| && ps[|kept|..] == Stamp(boarders, time)
  {
    assert ps[|kept|..] == Board(boarders, time, m).0;
  }

  /** A stop at an existing floor replaces that floor by what boarding left
      of it, and leaves the other floors alone. */
  lemma HandleStopFloors(e: Elevator, floors: seq<Floor>, time: int, m: MetricsTracker)
    requires FloorAt(floors, e.position).Some?
    ensures var kept := Alight(e.passengers, e.position, time, m).0;
      HandleStop(e, floors, time, m).floors[e.position]
      == BoardPassengers(floors[e.position], BoardDirection(e), e.capacity - |kept|).0
    ensures forall j :: 0 <= j < |floors| && j != e.position ==> HandleStop(e, floors, time, m).floors[j] == floors[j]
  {
  }

  /** A stop adds one wait sample per boarder. */
  lemma HandleStopWaits(e: Elevator, floors: seq<Floor>, time: int, m: MetricsTracker)
    requires FloorAt(floors, e.position).Some?
    ensures var kept := Alight(e.passengers, e.position, time, m).0;
      |HandleStop(e, floors, time, m).metrics.waitTimes| == |m.waitTimes| + |Taken(e, floors[e.position], kept)|
  {
  }


  /** Boarding takes a prefix of the queue. */
  lemma QueueFront(f: Floor, direction: int, capacity: int)
    ensures var board := BoardPassengers(f, direction, capacity);
      board.1 == Queue(f, direction)[..|board.1|]
  {
    var board := BoardPassengers(f, direction, capacity);
    assert board.1 + Queue(board.0, direction) == Queue(f, direction);
    assert (board.1 + Queue(board.0, direction))[..|board.1|] == board.1;
  }

  /** Refreshing keeps the targets duplicate-free and adds every boarded
      rider's destination. */
  lemma RefreshTargetsSpec(targets: seq<int>, floor: int, boarded: seq<Passenger>)
    requires NoDup(targets)
    ensures NoDup(RefreshTargets(targets, floor, boarded))
    ensures forall i :: 0 <= i < |boarded| ==> boarded[i].destination in RefreshTargets(targets, floor, boarded)
  {
    var t := if targets != [] && targets[0] == floor then targets[1..] else targets;
    if targets != [] && targets[0] == floor {
      assert forall i :: 0 <= i < |t| ==> t[i] == targets[i + 1];
    }
    var ds := Destinations(boarded);
    forall i | 0 <= i < |boarded| ensures boarded[i].destination in AddAllIfAbsent(t, ds) {
      assert ds[i] in ds;
    }
  }

  lemma AllBoardedConcat(a: seq<Passenger>, b: seq<Passenger>)
    requires AllBoarded(a) && AllBoarded(b)
    ensures AllBoarded(a + b)
  {
    forall i | 0 <= i < |a + b| ensures (a + b)[i].boardTime.Some? {
      if i >= |a| {
        assert (a + b)[i] == b[i - |a|];
      }
    }
  }

  /** The stop's effect on plain sequences: riders staying plus riders
      boarding, with refreshed targets, are a valid manifest in which every
      boarding rider's destination is a target. */
  lemma StopKeepsValid(ps: seq<Passenger>, targets: seq<int>, floor: int, boarded: seq<Passenger>)
    requires NoDup(targets) && AllBoarded(ps) && AllBoarded(boarded)
    ensures var kept := Filter(ps, GoingElsewhere(floor));
      && NoDup(RefreshTargets(targets, floor, boarded))
      && AllBoarded(kept + boarded)
      && forall i :: |kept| <= i < |kept + boarded| ==>
           (kept + boarded)[i].destination in RefreshTargets(targets, floor, boarded)
  {
    var kept := Filter(ps, GoingElsewhere(floor));
    AlightedBoarded(ps, floor);
    AllBoardedConcat(kept, boarded);
    RefreshTargetsSpec(targets, floor, boarded);
    forall i | |kept| <= i < |kept + boarded|
      ensures (kept + boarded)[i].destination in RefreshTargets(targets, floor, boarded)
    {
      assert (kept + boarded)[i] == boarded[i - |kept|];
    }
  }

  lemma BoardedAll(ps: seq<Passenger>, time: int, m: MetricsTracker)
    ensures AllBoarded(Board(ps, time, m).0)
  {
  }

  /** After a handled stop the targets stay duplicate-free, every rider who
      boarded has its destination among them, and all riders are boarded. */
  lemma HandleStopTargets(e: Elevator, floors: seq<Floor>, time: int, m: MetricsTracker)
    requires Valid(e)
    requires FloorAt(floors, e.position).Some?
    ensures Valid(HandleStop(e, floors, time, m).elevator)
    ensures var ps := HandleStop(e, floors, time, m).elevator.passengers;
      var kept := Filter(e.passengers, GoingElsewhere(e.position));
      forall i :: |kept| <= i < |ps| ==> ps[i].destination in HandleStop(e, floors, time, m).elevator.targets
  {
    var a := Alight(e.passengers, e.position, time, m);
    var b := Board(Taken(e, floors[e.position], a.0), time, a.1);
    HandleStopParts(e, floors, time, m);
    BoardedAll(Taken(e, floors[e.position], a.0), time, a.1);
    StopKeepsValid(e.passengers, e.targets, e.position, b.0);
  }

  /** A handled stop records one ride sample per rider leaving here and keeps
      throughput equal to the ride samples. */
  lemma HandleStopMetrics(e: Elevator, floors: seq<Floor>, time: int, m: MetricsTracker)
    requires AllBoarded(e.passengers)
    requires FloorAt(floors, e.position).Some?
    ensures Consistent(m) ==> Consistent(HandleStop(e, floors, time, m).metrics)
    ensures |HandleStop(e, floors, time, m).metrics.rideTimes|
         == |m.rideTimes| + |Filter(e.passengers, GoingTo(e.position))|
  {
  }

  /** Every step keeps the car valid and never lets the manifest grow beyond
      `max(capacity, riders before)`. */
  lemma StepKeepsValid(e: Elevator, floors: seq<Floor>, time: int, m: MetricsTracker)
    requires Valid(e)
    ensures Valid(Step(e, floors, time, m).elevator)
    ensures |Step(e, floors, time, m).elevator.passengers|
         <= if e.capacity > |e.passengers| then e.capacity else |e.passengers|
    ensures Consistent(m) ==> Consistent(Step(e, floors, time, m).metrics)
  {
    if IsInService(e) && e.door.Open? && !e.door.handled && FloorAt(floors, e.position).Some? {
      HandleStopManifest(e, floors, time, m);
      HandleStopTargets(e, floors, time, m);
      HandleStopMetrics(e, floors, time, m);
    }
    if IsInService(e) && e.door == Closed && e.targets != [] {
      assert NoDup(e.targets[1..]) by {
        assert forall i :: 0 <= i < |e.targets[1..]| ==> e.targets[1..][i] == e.targets[i + 1];
      }
    }
  }

  /** `trigger_fault`: out of service, no targets, doors closed. The reason
      is only passed on to event listeners. */
  function TriggerFault(e: Elevator): (f: Elevator)
    ensures f.status == Faulted && f.targets == [] && f.door == Closed
    ensures f.(status := e.status, targets := e.targets, door := e.door) == e
  {
    e.(status := Faulted, targets := [], door := Closed)
  }

  /** `start_maintenance`: as a fault, with the maintenance status. */
  function StartMaintenance(e: Elevator): (f: Elevator)
    ensures f.status == Maintenance && f.targets == [] && f.door == Closed
    ensures f.(status := e.status, targets := e.targets, door := e.door) == e
  {
    e.(status := Maintenance, targets := [], door := Closed)
  }

  /** `restore_service`: back in service, nothing else touched. */
  function RestoreService(e: Elevator): (f: Elevator)
    ensures IsInService(f)
    ensures f.(status := e.status) == e
  {
    e.(status := InService)
  }

  /** A faulted or parked car stays put until restored; restoring it resumes
      from a closed, idle state. */
  lemma OutOfServiceFrozen(e: Elevator, floors: seq<Floor>, time: int, m: MetricsTracker)
    ensures Step(TriggerFault(e), floors, time, m) == StepResult(TriggerFault(e), floors, m)
    ensures Step(StartMaintenance(e), floors, time, m) == StepResult(StartMaintenance(e), floors, m)
    ensures Step(RestoreService(TriggerFault(e)), floors, time, m)
         == StepResult(RestoreService(TriggerFault(e)), floors, m)
    ensures Valid(e) ==> Valid(TriggerFault(e)) && Valid(StartMaintenance(e)) && Valid(RestoreService(e))
  {
  }
}
