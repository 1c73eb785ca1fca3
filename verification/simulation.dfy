/** src/simulation/simulation.py: operator commands on cars, and the part of
    a tick that steps every car, emits metrics and advances the clock. */
module Simulation {
  import opened Wrappers
  import opened Seqs
  import opened Floors
  import opened MetricsTracking
  import opened Elevators
  import opened Buildings
  import opened Arrivals

  /** `_get_elevator(elevator_id)`: the index of the first car with the id. */
  function GetElevator(es: seq<Elevator>, id: int): (r: Option<nat>)
    ensures r.None? <==> forall i :: 0 <= i < |es| ==> es[i].id != id
    ensures r.Some? ==> r.value < |es| && es[r.value].id == id
    ensures r.Some? ==> forall i :: 0 <= i < r.value ==> es[i].id != id
  {
    if es == [] then None
    else if es[0].id == id then Some(0)
    else
      var r := GetElevator(es[1..], id);
      assert forall i :: 1 <= i < |es| ==> es[i] == es[1..][i - 1];
      if r.Some? then Some(r.value + 1) else None
  }

  /** An operator command on a car. */
  datatype Command = Fault | Maintain | Restore

  function Apply(c: Command, e: Elevator): Elevator {
    match c
    case Fault => TriggerFault(e)
    case Maintain => StartMaintenance(e)
    case Restore => RestoreService(e)
  }

  /** `trigger_elevator_fault`, `start_maintenance` and `restore_elevator`:
      the command goes to the first car with the id; an unknown id is
      ignored. */
  function SendCommand(b: Building, c: Command, id: int): (r: Building)
    ensures GetElevator(b.elevators, id).None? ==> r == b
    ensures r.floors == b.floors && |r.elevators| == |b.elevators|
    ensures GetElevator(b.elevators, id).Some? ==>
      var i := GetElevator(b.elevators, id).value;
      r.elevators[i] == Apply(c, b.elevators[i])
      && forall j :: 0 <= j < |b.elevators| && j != i ==> r.elevators[j] == b.elevators[j]
  {
    match GetElevator(b.elevators, id)
    case None => b
    case Some(i) => b.(elevators := b.elevators[i := Apply(c, b.elevators[i])])
  }

  /** A fault or maintenance command leaves the car with that id out of
      service with no targets, so no later pickup selects it; restoring puts
      it back in service. Cars whose id differs are untouched. */
  lemma CommandEffects(b: Building, c: Command, id: int)
    ensures forall j :: 0 <= j < |b.elevators| && b.elevators[j].id != id ==>
      SendCommand(b, c, id).elevators[j] == b.elevators[j]
    ensures c != Restore && GetElevator(b.elevators, id).Some? ==>
      var e := SendCommand(b, c, id).elevators[GetElevator(b.elevators, id).value];
      !IsInService(e) && e.targets == [] && e.door == Closed
    ensures c == Restore && GetElevator(b.elevators, id).Some? ==>
      IsInService(SendCommand(b, c, id).elevators[GetElevator(b.elevators, id).value])
  {
  }

  /** `Simulation.__init__`'s `max(1, metrics_hook_interval)`. */
  type Interval = Positive

  /** The state a tick reads and writes. */
  datatype Sim = Sim(
    building: Building,
    metrics: MetricsTracker,
    currentTime: int,
    interval: Interval,
    bursts: seq<Window>)

  /** `Simulation(building, ..., morning_bursts, ..., metrics_hook_interval)`. */
  function NewSimulation(b: Building, bursts: seq<Window>, metricsHookInterval: int): (s: Sim)
    ensures s.currentTime == 0 && s.building == b && Consistent(s.metrics)
    ensures s.metrics.rideTimes == [] && s.metrics.waitTimes == []
    ensures s.interval >= 1 && (metricsHookInterval >= 1 ==> s.interval == metricsHookInterval)
  {
    Sim(b, NewTracker(), 0, AtLeastOne(metricsHookInterval), bursts)
  }

  /** The loop `for elevator in building.elevators: elevator.step(...)`: cars
      step in building order, each seeing the floors and metrics the previous
      ones left. */
  function StepCars(es: seq<Elevator>, floors: seq<Floor>, time: int, m: MetricsTracker)
    : (r: (seq<Elevator>, seq<Floor>, MetricsTracker))
    ensures |r.0| == |es| && |r.1| == |floors|
    ensures forall i :: 0 <= i < |es| ==> r.0[i].id == es[i].id && r.0[i].status == es[i].status
    decreases |es|
  {
    if es == [] then ([], floors, m)
    else
      var s := Step(es[0], floors, time, m);
      var rest := StepCars(es[1..], s.floors, time, s.metrics);
      ([s.elevator] + rest.0, rest.1, rest.2)
  }

  /** What listeners of `"metrics"` receive. */
  datatype MetricsEvent = MetricsEvent(metrics: MetricsSnapshot, building: BuildingView)

  /** The tail of `Simulation.step` after arrivals and dispatch: step every
      car, emit metrics on ticks divisible by the interval, advance the clock. */
  function Tick(s: Sim): (r: (Sim, Option<MetricsEvent>))
    ensures r.0.currentTime == s.currentTime + 1
    ensures r.0.interval == s.interval && r.0.bursts == s.bursts
    ensures r.1.Some? <==> s.currentTime % s.interval == 0
    ensures |r.0.building.elevators| == |s.building.elevators| && |r.0.building.floors| == |s.building.floors|
  {
    var (es, floors, m) := StepCars(s.building.elevators, s.building.floors, s.currentTime, s.metrics);
    var b := Building(floors, es);
    var event := if s.currentTime % s.interval == 0
      then Some(MetricsEvent(MetricsTracking.Snapshot(m, s.currentTime), Buildings.Snapshot(b)))
      else None;
    (s.(building := b, metrics := m, currentTime := s.currentTime + 1), event)
  }

  /** Stepping all cars keeps every car valid and the metrics consistent. */
  lemma {:induction false} StepCarsKeepsValid(es: seq<Elevator>, floors: seq<Floor>, time: int, m: MetricsTracker)
    requires forall i :: 0 <= i < |es| ==> Valid(es[i])
    requires Consistent(m)
    ensures var r := StepCars(es, floors, time, m);
      (forall i :: 0 <= i < |es| ==> Valid(r.0[i])) && Consistent(r.2)
    decreases |es|
  {
    if es != [] {
      var s := Step(es[0], floors, time, m);
      StepKeepsValid(es[0], floors, time, m);
      assert forall i :: 1 <= i < |es| ==> es[i] == es[1..][i - 1];
      StepCarsKeepsValid(es[1..], s.floors, time, s.metrics);
    }
  }

  /** A tick keeps every car valid and the metrics consistent, and the event
      it emits reports throughput equal to the ride samples. */
  lemma TickKeepsValid(s: Sim)
    requires CarsValid(s.building) && Consistent(s.metrics)
    ensures CarsValid(Tick(s).0.building) && Consistent(Tick(s).0.metrics)
    ensures Tick(s).1.Some? ==> Tick(s).1.value.metrics.throughput == |Tick(s).0.metrics.rideTimes|
    ensures Tick(s).1.Some? ==> Tick(s).1.value.metrics.timeStep == s.currentTime
  {
    StepCarsKeepsValid(s.building.elevators, s.building.floors, s.currentTime, s.metrics);
  }

  /** `run(duration)` restricted to the tick tail: the events emitted, in order. */
  function Run(s: Sim, duration: nat): (r: (Sim, seq<MetricsEvent>))
    ensures r.0.currentTime == s.currentTime + duration
    ensures r.0.interval == s.interval
    decreases duration
  {
    if duration == 0 then (s, [])
    else
      var (s1, e) := Tick(s);
      var (s2, es) := Run(s1, duration - 1);
      (s2, (if e.Some? then [e.value] else []) + es)
  }

  /** The ticks in `[start, start + n)` divisible by the interval. */
  function EmittingTicks(start: int, n: nat, interval: Interval): nat
    decreases n
  {
    if n == 0 then 0
    else (if start % interval == 0 then 1 else 0) + EmittingTicks(start + 1, n - 1, interval)
  }

  /** A run emits once per tick divisible by the interval, so an interval of 1
      emits on every tick. */
  lemma {:induction false} RunEmissions(s: Sim, duration: nat)
    ensures |Run(s, duration).1| == EmittingTicks(s.currentTime, duration, s.interval)
    ensures s.interval == 1 ==> |Run(s, duration).1| == duration
    decreases duration
  {
    if duration > 0 {
      var t := Tick(s);
      RunEmissions(t.0, duration - 1);
      var head := if t.1.Some? then [t.1.value] else [];
      assert Run(s, duration).1 == head + Run(t.0, duration - 1).1;
      assert |head| == if s.currentTime % s.interval == 0 then 1 else 0;
    }
  }
}
