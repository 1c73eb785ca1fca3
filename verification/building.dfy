/** src/simulation/building.py: the floors and cars of one building, floor
    lookup, nearest-car pickup and the view sent to listeners. The
    `num_floors` field is not kept: the floor list is built from it, and every
    later use agrees with the length of that list. */
module Buildings {
  import opened Wrappers
  import opened Seqs
  import opened Keys
  import opened Floors
  import opened Elevators

  datatype Building = Building(floors: seq<Floor>, elevators: seq<Elevator>)

  /** Floor `i` sits at index `i`. */
  predicate FloorsNumbered(b: Building) {
    forall i :: 0 <= i < |b.floors| ==> b.floors[i].number == i
  }

  function EmptyFloors(n: nat): (fs: seq<Floor>)
    ensures |fs| == n
    ensures forall i :: 0 <= i < n ==> fs[i] == EmptyFloor(i)
  {
    if n == 0 then [] else EmptyFloors(n - 1) + [EmptyFloor(n - 1)]
  }

  /** `Building(num_floors, elevators)`: `range(num_floors)` floors with empty
      queues, none for a non-positive count. */
  function MakeBuilding(numFloors: int, elevators: seq<Elevator>): (b: Building)
    ensures |b.floors| == if numFloors > 0 then numFloors else 0
    ensures FloorsNumbered(b)
    ensures forall i :: 0 <= i < |b.floors| ==> Len(b.floors[i]) == 0
    ensures b.elevators == elevators
  {
    Building(EmptyFloors(if numFloors > 0 then numFloors else 0), elevators)
  }

  /** `get_floor(n)`. */
  function GetFloor(b: Building, n: int): (r: Option<Floor>)
    ensures FloorAt(b.floors, n) == r
  {
    FloorAt(b.floors, n)
  }

  /** In a freshly built building `get_floor(n)` is the floor numbered `n`
      exactly for `0 <= n < num_floors`. */
  lemma GetFloorSpec(numFloors: int, elevators: seq<Elevator>, n: int)
    ensures GetFloor(MakeBuilding(numFloors, elevators), n).Some? <==> 0 <= n < numFloors
    ensures GetFloor(MakeBuilding(numFloors, elevators), n).Some? ==>
      GetFloor(MakeBuilding(numFloors, elevators), n).value.number == n
  {
  }

  /** The sort key of `_select_elevator`. */
  function PickupKey(floor: int): Elevator -> Key {
    (e: Elevator) => Key(Finite(Distance(e.position, floor) as real), |e.targets|, 0)
  }

  /** The first in-service car among the first `n` that minimises the pickup
      key, scanning in building order and replacing the best only on a strict
      improvement. */
  function Nearest(es: seq<Elevator>, floor: int, n: nat): (r: Option<nat>)
    requires n <= |es|
    ensures r.None? <==> forall j :: 0 <= j < n ==> !IsInService(es[j])
    ensures r.Some? ==> r.value < n && IsInService(es[r.value])
    ensures r.Some? ==> forall j :: 0 <= j < n && IsInService(es[j]) ==>
      !KeyLt(PickupKey(floor)(es[j]), PickupKey(floor)(es[r.value]))
    ensures r.Some? ==> forall j :: 0 <= j < r.value && IsInService(es[j]) ==>
      KeyLt(PickupKey(floor)(es[r.value]), PickupKey(floor)(es[j]))
  {
    if n == 0 then None
    else
      var best := Nearest(es, floor, n - 1);
      var key := PickupKey(floor);
      if !IsInService(es[n - 1]) then best
      else if best.None? then Some(n - 1)
      else if KeyLt(key(es[n - 1]), key(es[best.value])) then
        assert forall j :: 0 <= j < n - 1 && IsInService(es[j]) ==> KeyLt(key(es[n - 1]), key(es[j])) by {
          forall j | 0 <= j < n - 1 && IsInService(es[j])
            ensures KeyLt(key(es[n - 1]), key(es[j]))
          {
            KeyLtIsStrictTotal(key(es[n - 1]), key(es[best.value]), key(es[j]));
            KeyLtIsStrictTotal(key(es[j]), key(es[best.value]), key(es[j]));
          }
        }
        Some(n - 1)
      else
        best
  }

  /** `_select_elevator`: the index of the car a stable sort of the in-service
      cars by `(|position - floor|, len(targets))` puts first; None exactly
      when no car is in service. */
  function SelectElevator(b: Building, floor: int): (r: Option<nat>)
    ensures r.None? <==> forall e :: e in b.elevators ==> !IsInService(e)
    ensures r.Some? ==> r.value < |b.elevators| && IsInService(b.elevators[r.value])
    ensures r.Some? ==> forall j :: 0 <= j < |b.elevators| && IsInService(b.elevators[j]) ==>
      !KeyLt(PickupKey(floor)(b.elevators[j]), PickupKey(floor)(b.elevators[r.value]))
    ensures r.Some? ==> forall j :: 0 <= j < r.value && IsInService(b.elevators[j]) ==>
      KeyLt(PickupKey(floor)(b.elevators[r.value]), PickupKey(floor)(b.elevators[j]))
  {
    Nearest(b.elevators, floor, |b.elevators|)
  }

  /** `request_pickup(floor, direction)`: the selected car gets the floor as a
      target unless it already has it. The direction is not used. */
  function RequestPickup(b: Building, floor: int, direction: int): (r: (Building, Option<nat>))
    ensures r.1 == SelectElevator(b, floor)
    ensures r.1.None? ==> r.0 == b
    ensures r.1.Some? ==> r.0.floors == b.floors && |r.0.elevators| == |b.elevators|
    ensures r.1.Some? ==> r.0.elevators[r.1.value] == AssignTarget(b.elevators[r.1.value], floor)
    ensures r.1.Some? ==> forall j :: 0 <= j < |b.elevators| && j != r.1.value ==> r.0.elevators[j] == b.elevators[j]
  {
    match SelectElevator(b, floor)
    case None => (b, None)
    case Some(i) => (b.(elevators := b.elevators[i := AssignTarget(b.elevators[i], floor)]), Some(i))
  }

  /** Every car keeps duplicate-free targets and boarded riders. */
  predicate CarsValid(b: Building) {
    forall i :: 0 <= i < |b.elevators| ==> Valid(b.elevators[i])
  }

  /** A pickup lands the floor on an in-service car's list without creating
      a duplicate, whatever the direction; with no car in service nothing
      changes. */
  lemma PickupSpec(b: Building, floor: int, d1: int, d2: int)
    requires CarsValid(b)
    ensures CarsValid(RequestPickup(b, floor, d1).0)
    ensures RequestPickup(b, floor, d1) == RequestPickup(b, floor, d2)
    ensures RequestPickup(b, floor, d1).1.Some? ==>
      var i := RequestPickup(b, floor, d1).1.value;
      IsInService(b.elevators[i]) && floor in RequestPickup(b, floor, d1).0.elevators[i].targets
  {
  }

  /** `"door_state"` as LiftLogic spells it. */
  function DoorName(d: Door): string {
    if d.Open? then "open" else "closed"
  }

  /** `"status"` as LiftLogic spells it. */
  function StatusName(s: Status): string {
    match s
    case InService => "in_service"
    case Faulted => "faulted"
    case Maintenance => "maintenance"
  }

  datatype ElevatorView = ElevatorView(
    id: int,
    position: int,
    targets: seq<int>,
    doorState: string,
    status: string,
    passengerCount: nat)

  datatype BuildingView = BuildingView(floors: seq<nat>, elevators: seq<ElevatorView>)

  function View(e: Elevator): ElevatorView {
    ElevatorView(e.id, e.position, e.targets, DoorName(e.door), StatusName(e.status), |e.passengers|)
  }

  function FloorCounts(fs: seq<Floor>): (cs: seq<nat>)
    ensures |cs| == |fs|
    ensures forall i :: 0 <= i < |fs| ==> cs[i] == |fs[i].up| + |fs[i].down|
  {
    if fs == [] then [] else [Len(fs[0])] + FloorCounts(fs[1..])
  }

  function Views(es: seq<Elevator>): (vs: seq<ElevatorView>)
    ensures |vs| == |es|
    ensures forall i :: 0 <= i < |es| ==> vs[i] == View(es[i])
  {
    if es == [] then [] else [View(es[0])] + Views(es[1..])
  }

  /** `snapshot()`: one waiting count per floor, up plus down, and one view
      per car in building order. */
  function Snapshot(b: Building): (v: BuildingView)
    ensures |v.floors| == |b.floors| && |v.elevators| == |b.elevators|
    ensures forall i :: 0 <= i < |b.floors| ==> v.floors[i] == |b.floors[i].up| + |b.floors[i].down|
    ensures forall i :: 0 <= i < |b.elevators| ==>
      v.elevators[i].id == b.elevators[i].id && v.elevators[i].passengerCount == |b.elevators[i].passengers|
      && v.elevators[i].targets == b.elevators[i].targets && v.elevators[i].position == b.elevators[i].position
  {
    BuildingView(FloorCounts(b.floors), Views(b.elevators))
  }

  /** The view reports the doors open exactly when they are, and the status
      names are distinct. */
  lemma ViewNames(e: Elevator, f: Elevator)
    ensures View(e).doorState == "open" <==> e.door.Open?
    ensures View(e).status == View(f).status <==> e.status == f.status
  {
    assert "open" != "closed";
    assert "in_service" != "faulted" && "in_service" != "maintenance" && "faulted" != "maintenance" by {
      assert "in_service"[0] != "faulted"[0] && "in_service"[0] != "maintenance"[0] && "faulted"[0] != "maintenance"[0];
    }
  }
}
