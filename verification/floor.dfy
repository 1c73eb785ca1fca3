/** src/simulation/floor.py: a floor with FIFO up and down queues. */
module Floors {
  import opened Wrappers
  import opened Passengers

  datatype Floor = Floor(number: int, up: seq<Passenger>, down: seq<Passenger>)

  /** `Floor(i)`: both queues empty. */
  function EmptyFloor(number: int): Floor {
    Floor(number, [], [])
  }

  /** `add_passenger`: joins the back of the queue for its direction. */
  function AddPassenger(f: Floor, p: Passenger): (g: Floor)
    ensures g.number == f.number
    ensures Direction(p) > 0 ==> g.up == f.up + [p] && g.down == f.down
    ensures Direction(p) <= 0 ==> g.down == f.down + [p] && g.up == f.up
  {
    if Direction(p) > 0 then f.(up := f.up + [p]) else f.(down := f.down + [p])
  }

  /** `__len__`: riders waiting in both queues. */
  function Len(f: Floor): nat {
    |f.up| + |f.down|
  }

  /** `has_waiting`. */
  predicate HasWaiting(f: Floor) {
    f.up != [] || f.down != []
  }

  lemma HasWaitingIffLen(f: Floor)
    ensures HasWaiting(f) <==> Len(f) > 0
  {
  }

  /** The queue `board_passengers` serves for `direction`. */
  function Queue(f: Floor, direction: int): seq<Passenger> {
    if direction > 0 then f.up else f.down
  }

  /** The front `n` riders of a queue, as the `popleft` loop takes them. */
  function TakeFront(q: seq<Passenger>, capacity: int): (n: nat)
    ensures n <= |q|
    ensures capacity <= 0 ==> n == 0
    ensures capacity > 0 ==> n == if capacity < |q| then capacity else |q|
  {
    if capacity <= 0 then 0 else if capacity < |q| then capacity else |q|
  }

  /** `board_passengers`: pops riders off the front of the queue for
      `direction` while it is non-empty and fewer than `capacity` have boarded.
      Returns the floor afterwards and the boarded riders in boarding order. */
  function BoardPassengers(f: Floor, direction: int, capacity: int): (r: (Floor, seq<Passenger>))
    ensures r.0.number == f.number
    ensures r.1 + Queue(r.0, direction) == Queue(f, direction)
    ensures |r.1| <= |Queue(f, direction)|
    ensures capacity <= 0 ==> r.1 == [] && r.0 == f
    ensures capacity > 0 ==> |r.1| == if capacity < |Queue(f, direction)| then capacity else |Queue(f, direction)|
    ensures direction > 0 ==> r.0.down == f.down
    ensures direction <= 0 ==> r.0.up == f.up
  {
    var q := Queue(f, direction);
    var n := TakeFront(q, capacity);
    assert q[..n] + q[n..] == q;
    if direction > 0 then (f.(up := q[n..]), q[..n]) else (f.(down := q[n..]), q[..n])
  }

  /** Boarding conserves riders: the floor loses exactly the boarded ones. */
  lemma BoardConserves(f: Floor, direction: int, capacity: int)
    ensures Len(BoardPassengers(f, direction, capacity).0) + |BoardPassengers(f, direction, capacity).1| == Len(f)
  {
    var r := BoardPassengers(f, direction, capacity);
    assert |r.1 + Queue(r.0, direction)| == |Queue(f, direction)|;
  }

  /** `Building.get_floor` on the building's floor list: the floor at index
      `n` when there is one. */
  function FloorAt(floors: seq<Floor>, n: int): (r: Option<Floor>)
    ensures r.Some? <==> 0 <= n < |floors|
    ensures r.Some? ==> r.value == floors[n]
  {
    if 0 <= n < |floors| then Some(floors[n]) else None
  }
}
