/** `MetricsTracker` and `MetricsSnapshot` of src/simulation/simulation.py:
    wait and ride samples, throughput, averages and the interpolated 95th
    percentile. Floats are `real` here, so the percentile index `(n - 1) * q`
    and the divisions are exact. */
module MetricsTracking {
  import opened Wrappers
  import opened Seqs
  import opened Sorting
  import opened Passengers

  datatype MetricsTracker = MetricsTracker(waitTimes: seq<int>, rideTimes: seq<int>, throughput: int)

  /** `MetricsTracker()`. */
  function NewTracker(): (m: MetricsTracker)
    ensures Consistent(m)
  {
    MetricsTracker([], [], 0)
  }

  /** Throughput counts the ride samples. */
  predicate Consistent(m: MetricsTracker) {
    m.throughput == |m.rideTimes|
  }

  /** `record_wait_time`: one sample when the rider's wait is defined. */
  function RecordWaitTime(m: MetricsTracker, p: Passenger): (n: MetricsTracker)
    ensures WaitTime(p).None? ==> n == m
    ensures WaitTime(p).Some? ==> n.waitTimes == m.waitTimes + [WaitTime(p).value]
    ensures n.rideTimes == m.rideTimes && n.throughput == m.throughput
  {
    match WaitTime(p)
    case None => m
    case Some(w) => m.(waitTimes := m.waitTimes + [w])
  }

  /** `record_ride_time`: one sample and one unit of throughput when the
      rider's ride is defined. */
  function RecordRideTime(m: MetricsTracker, p: Passenger): (n: MetricsTracker)
    ensures RideTime(p).None? ==> n == m
    ensures RideTime(p).Some? ==> n.rideTimes == m.rideTimes + [RideTime(p).value]
    ensures RideTime(p).Some? ==> n.throughput == m.throughput + 1
    ensures n.waitTimes == m.waitTimes
  {
    match RideTime(p)
    case None => m
    case Some(r) => m.(rideTimes := m.rideTimes + [r], throughput := m.throughput + 1)
  }

  /** Recording keeps throughput equal to the number of ride samples, and
      throughput never decreases. */
  lemma RecordingKeepsConsistent(m: MetricsTracker, p: Passenger)
    requires Consistent(m)
    ensures Consistent(RecordWaitTime(m, p)) && Consistent(RecordRideTime(m, p))
    ensures RecordWaitTime(m, p).throughput >= m.throughput
    ensures RecordRideTime(m, p).throughput >= m.throughput
  {
  }

  /** `_average`: the arithmetic mean, 0 for no samples. */
  function Average(values: seq<int>): (r: real)
    ensures values == [] ==> r == 0.0
    ensures values != [] ==> r * |values| as real == Sum(values) as real
  {
    if values == [] then 0.0 else Sum(values) as real / |values| as real
  }

  /** The mean lies between any lower and upper bound of the samples. */
  lemma AverageBetween(values: seq<int>, lo: int, hi: int)
    requires values != []
    requires forall i :: 0 <= i < |values| ==> lo <= values[i] <= hi
    ensures lo as real <= Average(values) <= hi as real
  {
    var n := |values|;
    var total := Sum(values);
    SumBetween(values, lo, hi);
    CastMul(lo, n);
    CastMul(hi, n);
    assert lo as real * n as real <= total as real <= hi as real * n as real by {
      assert (lo * n) as real <= total as real <= (hi * n) as real;
    }
    DivBetween(total as real, n as real, lo as real, hi as real);
    assert Average(values) == total as real / n as real;
  }

  lemma DivBetween(total: real, n: real, lo: real, hi: real)
    requires 0.0 < n && lo * n <= total <= hi * n
    ensures lo <= total / n <= hi
  {
    var a := total / n;
    assert a * n == total;
    if a < lo {
      MulStrict(a, lo, n);
    }
    if a > hi {
      MulStrict(hi, a, n);
    }
  }

  lemma MulMonotone(x: real, y: real, z: real)
    requires x <= y && 0.0 <= z
    ensures x * z <= y * z
  {
    assert y * z - x * z == (y - x) * z;
  }

  lemma {:induction false} CastMul(x: int, y: nat)
    ensures (x * y) as real == x as real * y as real
  {
    if y > 0 {
      CastMul(x, y - 1);
      assert x * y == x * (y - 1) + x;
      assert x as real * y as real == x as real * (y - 1) as real + x as real;
    }
  }

  lemma MulStrict(x: real, y: real, z: real)
    requires x < y && 0.0 < z
    ensures x * z < y * z
  {
    assert y * z - x * z == (y - x) * z;
  }

  function Identity(): int -> int {
    (x: int) => x
  }

  /** `sorted(values)`. */
  function Sorted(values: seq<int>): (s: seq<int>)
    ensures multiset(s) == multiset(values) && |s| == |values|
    ensures forall i, j :: 0 <= i <= j < |s| ==> s[i] <= s[j]
  {
    var s := SortBy(values, Identity());
    assert forall i, j :: 0 <= i < j < |s| ==> Identity()(s[i]) <= Identity()(s[j]);
    s
  }

  /** The ceiling of a real. */
  function Ceil(k: real): (c: int)
    ensures k <= c as real < k + 1.0
    ensures c == k.Floor || c == k.Floor + 1
    ensures c == k.Floor <==> k.Floor as real == k
  {
    if k.Floor as real == k then k.Floor else k.Floor + 1
  }

  /** `(len(values) - 1) * q`, which stays inside the index range. */
  function PercentileIndex(n: nat, q: real): (k: real)
    requires n > 0 && 0.0 <= q <= 1.0
    ensures 0.0 <= k <= (n - 1) as real
  {
    assert (n - 1) as real * q <= (n - 1) as real * 1.0;
    (n - 1) as real * q
  }

  /** `a * u + b * v` with weights summing to one. */
  function Interpolate(a: real, b: real, u: real, v: real): real {
    a * u + b * v
  }

  lemma InterpolateBetween(a: real, b: real, u: real, v: real)
    requires a <= b && 0.0 <= u && 0.0 <= v && u + v == 1.0
    ensures a <= Interpolate(a, b, u, v) <= b
  {
    var d := b - a;
    assert Interpolate(a, b, u, v) == a + v * d by {
      assert a * u == a * (1.0 - v) == a - a * v;
      assert b * v == (a + d) * v == a * v + v * d;
    }
    MulMonotone(0.0, v, d);
    MulMonotone(v, 1.0, d);
  }

  /** `_percentile(values, q)`: linear interpolation between the two sorted
      samples around index `(n - 1) * q`, 0 for no samples. LiftLogic
      only asks for q = 0.95. */
  function Percentile(values: seq<int>, q: real): (r: real)
    requires 0.0 <= q <= 1.0
    ensures values == [] ==> r == 0.0
  {
    if values == [] then 0.0
    else
      var s := Sorted(values);
      var k := PercentileIndex(|s|, q);
      var f := k.Floor;
      var c := Ceil(k);
      if f == c then s[f] as real
      else Interpolate(s[f] as real, s[c] as real, c as real - k, k - f as real)
  }

  /** Every sorted sample is one of the samples. */
  lemma SortedSample(values: seq<int>, idx: int) returns (i: int)
    requires 0 <= idx < |values|
    ensures 0 <= i < |values| && values[i] == Sorted(values)[idx]
  {
    var s := Sorted(values);
    assert s[idx] in multiset(values);
    i :| 0 <= i < |values| && values[i] == s[idx];
  }

  /** On a non-empty sample list the percentile lies between the smallest and
      the largest sample. */
  lemma PercentileBetween(values: seq<int>, q: real, lo: int, hi: int)
    requires 0.0 <= q <= 1.0
    requires values != []
    requires forall i :: 0 <= i < |values| ==> lo <= values[i] <= hi
    ensures lo as real <= Percentile(values, q) <= hi as real
    ensures exists i :: 0 <= i < |values| && values[i] as real <= Percentile(values, q)
    ensures exists i :: 0 <= i < |values| && Percentile(values, q) <= values[i] as real
  {
    var s := Sorted(values);
    var k := PercentileIndex(|s|, q);
    var f := k.Floor;
    var c := Ceil(k);
    var i := SortedSample(values, f);
    var j := SortedSample(values, c);
    if f != c {
      InterpolateBetween(s[f] as real, s[c] as real, c as real - k, k - f as real);
    }
  }

  /** When `(n - 1) * q` is a whole number the percentile is exactly the
      sorted sample at that index, so it is one of the samples. */
  lemma PercentileExact(values: seq<int>, q: real)
    requires 0.0 <= q <= 1.0
    requires values != []
    requires PercentileIndex(|values|, q).Floor as real == PercentileIndex(|values|, q)
    ensures Percentile(values, q) == Sorted(values)[PercentileIndex(|values|, q).Floor] as real
    ensures exists i :: 0 <= i < |values| && values[i] as real == Percentile(values, q)
  {
    var i := SortedSample(values, PercentileIndex(|values|, q).Floor);
  }

  lemma SortedThree(s: seq<int>, a: int, b: int, c: int)
    requires a < b < c
    requires |s| == 3 && multiset(s) == multiset{a, b, c}
    requires forall i, j :: 0 <= i <= j < |s| ==> s[i] <= s[j]
    ensures s == [a, b, c]
  {
    assert s[0] in multiset(s) && s[1] in multiset(s) && s[2] in multiset(s);
  }

  /** The 50th percentile of three distinct samples, in any order, is the
      middle one. */
  lemma PercentileMedianOfThree(a: int, b: int, c: int)
    requires a < b < c
    ensures Percentile([c, a, b], 0.5) == b as real
  {
    SortedOfThree(a, b, c);
    var k := PercentileIndex(3, 0.5);
    assert k == 1.0;
    assert k.Floor == 1 && Ceil(k) == 1;
  }

  /** Sorting three distinct samples given in rotated order. */
  lemma SortedOfThree(a: int, b: int, c: int)
    requires a < b < c
    ensures Sorted([c, a, b]) == [a, b, c]
  {
    var s := Sorted([c, a, b]);
    assert multiset([c, a, b]) == multiset{a, b, c};
    SortedThree(s, a, b, c);
  }

  /** The percentile the tracker reports. */
  const P95: real := 0.95

  datatype MetricsSnapshot = MetricsSnapshot(
    timeStep: int,
    averageWait: real,
    waitP95: real,
    averageRide: real,
    rideP95: real,
    throughput: int)

  /** `MetricsTracker.snapshot(time_step)`. */
  function Snapshot(m: MetricsTracker, timeStep: int): (s: MetricsSnapshot)
    ensures s.timeStep == timeStep && s.throughput == m.throughput
    ensures m.waitTimes == [] ==> s.averageWait == 0.0 && s.waitP95 == 0.0
    ensures m.rideTimes == [] ==> s.averageRide == 0.0 && s.rideP95 == 0.0
  {
    MetricsSnapshot(timeStep, Average(m.waitTimes), Percentile(m.waitTimes, P95),
                    Average(m.rideTimes), Percentile(m.rideTimes, P95), m.throughput)
  }

  /** Every reported ride statistic lies within the range of the ride samples. */
  lemma SnapshotRideBounds(m: MetricsTracker, timeStep: int, lo: int, hi: int)
    requires m.rideTimes != []
    requires forall i :: 0 <= i < |m.rideTimes| ==> lo <= m.rideTimes[i] <= hi
    ensures lo as real <= Snapshot(m, timeStep).averageRide <= hi as real
    ensures lo as real <= Snapshot(m, timeStep).rideP95 <= hi as real
  {
    AverageBetween(m.rideTimes, lo, hi);
    PercentileBetween(m.rideTimes, P95, lo, hi);
  }

  /** Every reported wait statistic lies within the range of the wait samples. */
  lemma SnapshotWaitBounds(m: MetricsTracker, timeStep: int, lo: int, hi: int)
    requires m.waitTimes != []
    requires forall i :: 0 <= i < |m.waitTimes| ==> lo <= m.waitTimes[i] <= hi
    ensures lo as real <= Snapshot(m, timeStep).averageWait <= hi as real
    ensures lo as real <= Snapshot(m, timeStep).waitP95 <= hi as real
  {
    AverageBetween(m.waitTimes, lo, hi);
    PercentileBetween(m.waitTimes, P95, lo, hi);
  }
}
