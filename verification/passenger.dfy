/** src/simulation/passenger.py: a rider with arrival, boarding and alighting
    times. The unused `metadata` dict is not modelled. */
module Passengers {
  import opened Wrappers

  datatype Passenger = Passenger(
    id: int,
    origin: int,
    destination: int,
    arrivalTime: int,
    boardTime: Option<int>,
    alightTime: Option<int>)

  /** A new rider: neither boarded nor alighted. */
  function NewPassenger(id: int, origin: int, destination: int, arrivalTime: int): (p: Passenger)
    ensures p.boardTime.None? && p.alightTime.None?
    ensures p.id == id && p.origin == origin && p.destination == destination && p.arrivalTime == arrivalTime
  {
    Passenger(id, origin, destination, arrivalTime, None, None)
  }

  /** `direction`: up exactly when the destination is above the origin; a
      rider whose destination is its origin counts as going down. */
  function Direction(p: Passenger): (d: int)
    ensures d == 1 || d == -1
    ensures d == 1 <==> p.destination > p.origin
  {
    if p.destination > p.origin then 1 else -1
  }

  /** `record_boarding`. */
  function RecordBoarding(p: Passenger, timeStep: int): (q: Passenger)
    ensures q.boardTime == Some(timeStep)
    ensures q.(boardTime := p.boardTime) == p
  {
    p.(boardTime := Some(timeStep))
  }

  /** `record_alighting`. */
  function RecordAlighting(p: Passenger, timeStep: int): (q: Passenger)
    ensures q.alightTime == Some(timeStep)
    ensures q.(alightTime := p.alightTime) == p
  {
    p.(alightTime := Some(timeStep))
  }

  /** `wait_time`: defined once boarded, as boarding minus arrival. */
  function WaitTime(p: Passenger): (w: Option<int>)
    ensures w.None? <==> p.boardTime.None?
    ensures w.Some? ==> p.arrivalTime + w.value == p.boardTime.value
  {
    match p.boardTime
    case None => None
    case Some(b) => Some(b - p.arrivalTime)
  }

  /** `ride_time`: defined once both boarded and alighted, as alighting minus
      boarding. */
  function RideTime(p: Passenger): (r: Option<int>)
    ensures r.Some? <==> p.boardTime.Some? && p.alightTime.Some?
    ensures r.Some? ==> p.boardTime.value + r.value == p.alightTime.value
  {
    if p.boardTime.None? || p.alightTime.None? then None
    else Some(p.alightTime.value - p.boardTime.value)
  }

  /** A rider that arrived at `a`, boarded at `b` and alighted at `c` waited
      `b - a` and rode `c - b`; recording either time leaves the other and
      the direction alone. */
  lemma Journey(p: Passenger, b: int, c: int)
    ensures WaitTime(RecordBoarding(p, b)) == Some(b - p.arrivalTime)
    ensures RideTime(RecordAlighting(RecordBoarding(p, b), c)) == Some(c - b)
    ensures RideTime(RecordBoarding(p, b)) == (if p.alightTime.None? then None else Some(p.alightTime.value - b))
    ensures WaitTime(RecordAlighting(p, c)) == WaitTime(p)
    ensures Direction(RecordBoarding(p, b)) == Direction(p) && Direction(RecordAlighting(p, c)) == Direction(p)
  {
  }
}
