/** src/scheduler/utils.py: the trapezoidal travel-time estimate and the SCAN
    sweep order of requests. */
module Travel {
  import opened Seqs
  import opened Sorting
  import opened Keys
  import opened Interface

  /** A square root supplied by the caller. The triangular branch of the
      estimate is the only place it is used; the model assumes nothing of it
      beyond being non-negative on non-negative inputs where that is needed. */
  ghost predicate ValidRoot(root: real -> real) {
    forall x :: 0.0 <= x ==> 0.0 <= root(x)
  }

  function Abs(x: real): real {
    if x < 0.0 then -x else x
  }

  /** `estimate_travel_time(elevator, floor)`. */
  function EstimateTravelTime(e: ElevatorSnapshot, floor: int, root: real -> real): (t: Time)
    ensures e.position == floor as real ==> t == Finite(0.0)
    ensures e.position != floor as real && e.cruiseSpeed <= 0.0 ==> t == Infinite
    ensures e.acceleration <= 0.0 && e.cruiseSpeed > 0.0 ==>
      t == Finite(Abs(e.position - floor as real) / e.cruiseSpeed)
  {
    var distance := Abs(e.position - floor as real);
    if distance == 0.0 then Finite(0.0)
    else if e.acceleration <= 0.0 || e.cruiseSpeed <= 0.0 then
      (if e.cruiseSpeed > 0.0 then Finite(distance / e.cruiseSpeed) else Infinite)
    else
      var timeToCruise := e.cruiseSpeed / e.acceleration;
      var distanceToCruise := 0.5 * e.acceleration * timeToCruise * timeToCruise;
      if 2.0 * distanceToCruise >= distance then
        Finite(2.0 * root(distance / e.acceleration))
      else
        Finite(2.0 * timeToCruise + (distance - 2.0 * distanceToCruise) / e.cruiseSpeed)
  }

  /** With positive speed and acceleration the car reaches cruise speed after
      covering `v*v/(2a)`; when accelerating and braking take less than the
      whole distance the estimate is `2v/a` plus the cruise at speed `v`. */
  lemma TrapezoidalBranch(e: ElevatorSnapshot, floor: int, root: real -> real)
    requires e.acceleration > 0.0 && e.cruiseSpeed > 0.0
    requires 2.0 * (e.cruiseSpeed * e.cruiseSpeed / (2.0 * e.acceleration))
             < Abs(e.position - floor as real)
    ensures EstimateTravelTime(e, floor, root) == Finite(
      2.0 * e.cruiseSpeed / e.acceleration
      + (Abs(e.position - floor as real) - e.cruiseSpeed * e.cruiseSpeed / e.acceleration)
        / e.cruiseSpeed)
  {
    var v, a := e.cruiseSpeed, e.acceleration;
    var ttc := v / a;
    assert 0.5 * a * ttc * ttc == v * v / (2.0 * a) by {
      assert ttc * a == v;
    }
    assert 2.0 * (v * v / (2.0 * a)) == v * v / a;
  }

  /** With positive speed and acceleration and a distance the car cannot reach
      cruise speed on, the estimate is the (abstract) triangular profile time. */
  lemma TriangularBranch(e: ElevatorSnapshot, floor: int, root: real -> real)
    requires e.acceleration > 0.0 && e.cruiseSpeed > 0.0
    requires e.position != floor as real
    requires Abs(e.position - floor as real)
             <= 2.0 * (e.cruiseSpeed * e.cruiseSpeed / (2.0 * e.acceleration))
    ensures EstimateTravelTime(e, floor, root)
         == Finite(2.0 * root(Abs(e.position - floor as real) / e.acceleration))
  {
    var v, a := e.cruiseSpeed, e.acceleration;
    var ttc := v / a;
    assert 0.5 * a * ttc * ttc == v * v / (2.0 * a) by {
      assert ttc * a == v;
    }
  }

  /** The estimate is never negative, in every branch. */
  lemma EstimateNonNegative(e: ElevatorSnapshot, floor: int, root: real -> real)
    requires ValidRoot(root)
    ensures EstimateTravelTime(e, floor, root).Finite? ==>
      EstimateTravelTime(e, floor, root).ticks >= 0.0
  {
    var distance := Abs(e.position - floor as real);
    if distance != 0.0 && e.acceleration > 0.0 && e.cruiseSpeed > 0.0 {
      var ttc := e.cruiseSpeed / e.acceleration;
      assert ttc > 0.0;
      var dtc := 0.5 * e.acceleration * ttc * ttc;
      if 2.0 * dtc < distance {
        assert (distance - 2.0 * dtc) / e.cruiseSpeed > 0.0;
      } else {
        assert distance / e.acceleration >= 0.0;
      }
    }
  }

  /** The sort key of `sort_requests_in_direction`: the origin, negated when
      sweeping downward. */
  function SweepKey(direction: int): PendingRequest -> int {
    if direction >= 0 then (r: PendingRequest) => r.origin else (r: PendingRequest) => -r.origin
  }

  /** `sort_requests_in_direction(requests, direction)`. */
  function SortRequestsInDirection(requests: seq<PendingRequest>, direction: int): (r: seq<PendingRequest>)
    ensures multiset(r) == multiset(requests)
    ensures direction >= 0 ==> forall i, j :: 0 <= i < j < |r| ==> r[i].origin <= r[j].origin
    ensures direction < 0 ==> forall i, j :: 0 <= i < j < |r| ==> r[i].origin >= r[j].origin
    ensures StableWrt(r, requests, SweepKey(direction))
  {
    var r := SortBy(requests, SweepKey(direction));
    assert forall i, j :: 0 <= i < j < |r| ==> SweepKey(direction)(r[i]) <= SweepKey(direction)(r[j]);
    r
  }
}
