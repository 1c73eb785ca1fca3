/** src/scheduler/destination_dispatch.py: destination-dispatch clustering.
    Requests are bucketed by the truncated mean of their destinations; each
    bucket goes to one car, which receives the bucket's origins and, per
    request, one pre-seeded stop per run of nearby destinations. */
module DestinationDispatch {
  import opened Wrappers
  import opened Seqs
  import opened Sorting
  import opened Keys
  import opened Interface
  import opened Travel

  /** A cluster size after `__init__`'s `max(1, cluster_size)` (`AtLeastOne`). */
  type ClusterSize = Positive

  /** `_destination_bucket`: 0 for no destinations, otherwise the truncated
      mean destination floor-divided by the cluster size. */
  function DestinationBucket(destinations: seq<int>, clusterSize: ClusterSize): (b: int)
    ensures destinations == [] ==> b == 0
    ensures destinations != [] ==>
      b * clusterSize <= TruncMean(destinations) < b * clusterSize + clusterSize
  {
    if destinations == [] then 0 else TruncMean(destinations) / clusterSize
  }

  /** Requests whose destination mean is 9 and 11 share bucket 3 with a
      cluster size of 3; a mean of 8 lands in bucket 2. */
  lemma BucketArithmetic()
    ensures DestinationBucket([9], 3) == 3 && DestinationBucket([11], 3) == 3
    ensures DestinationBucket([8, 8], 3) == 2
    ensures DestinationBucket([], 3) == 0
  {
    assert Sum([9]) == 9 && Sum([11]) == 11 && Sum([8, 8]) == 16;
  }

  function BucketOf(clusterSize: ClusterSize): PendingRequest -> int {
    (r: PendingRequest) => DestinationBucket(r.destinations, clusterSize)
  }

  function InBucket(clusterSize: ClusterSize, k: int): PendingRequest -> bool {
    (r: PendingRequest) => DestinationBucket(r.destinations, clusterSize) == k
  }

  /** Buckets in order of first use, each with its requests. */
  type Buckets = seq<(int, seq<PendingRequest>)>

  function BucketGet(b: Buckets, k: int): seq<PendingRequest> {
    if b == [] then []
    else if b[0].0 == k then b[0].1
    else BucketGet(b[1..], k)
  }

  /** `buckets[k].append(r)` on a `defaultdict(list)`. */
  function AddToBucket(b: Buckets, k: int, r: PendingRequest): Buckets {
    if b == [] then [(k, [r])]
    else if b[0].0 == k then [(k, b[0].1 + [r])] + b[1..]
    else [b[0]] + AddToBucket(b[1..], k, r)
  }

  lemma {:induction false} AddToBucketKeys(b: Buckets, k: int, r: PendingRequest)
    ensures KeysOf(AddToBucket(b, k, r)) == AddIfAbsent(KeysOf(b), k)
  {
    if b != [] && b[0].0 != k {
      AddToBucketKeys(b[1..], k, r);
      var t := AddToBucket(b, k, r);
      assert t[1..] == AddToBucket(b[1..], k, r);
      assert KeysOf(t) == [b[0].0] + KeysOf(t[1..]);
      assert KeysOf(b) == [b[0].0] + KeysOf(b[1..]);
    } else if b != [] {
      assert KeysOf(AddToBucket(b, k, r)) == [k] + KeysOf(b[1..]);
      assert KeysOf(b) == [k] + KeysOf(b[1..]);
    }
  }

  lemma {:induction false} AddToBucketGet(b: Buckets, k: int, r: PendingRequest, j: int)
    ensures BucketGet(AddToBucket(b, k, r), j) == BucketGet(b, j) + (if j == k then [r] else [])
  {
    if b != [] && b[0].0 != k {
      AddToBucketGet(b[1..], k, r, j);
      assert AddToBucket(b, k, r)[1..] == AddToBucket(b[1..], k, r);
    }
  }

  /** The loop of `_cluster_requests`. */
  function Group(b: Buckets, requests: seq<PendingRequest>, clusterSize: ClusterSize): Buckets
    decreases |requests|
  {
    if requests == [] then b
    else Group(AddToBucket(b, DestinationBucket(requests[0].destinations, clusterSize), requests[0]),
               requests[1..], clusterSize)
  }

  /** `_cluster_requests`. */
  function ClusterRequests(requests: seq<PendingRequest>, clusterSize: ClusterSize): Buckets {
    Group([], requests, clusterSize)
  }

  function BucketsOf(requests: seq<PendingRequest>, clusterSize: ClusterSize): (ks: seq<int>)
    ensures |ks| == |requests|
    ensures forall i :: 0 <= i < |requests| ==> ks[i] == DestinationBucket(requests[i].destinations, clusterSize)
  {
    if requests == [] then []
    else [DestinationBucket(requests[0].destinations, clusterSize)] + BucketsOf(requests[1..], clusterSize)
  }

  lemma {:induction false} GroupKeys(b: Buckets, requests: seq<PendingRequest>, clusterSize: ClusterSize)
    requires NoDup(KeysOf(b))
    ensures KeysOf(Group(b, requests, clusterSize)) == DedupOnto(KeysOf(b), BucketsOf(requests, clusterSize))
    decreases |requests|
  {
    if requests != [] {
      var k := DestinationBucket(requests[0].destinations, clusterSize);
      AddToBucketKeys(b, k, requests[0]);
      GroupKeys(AddToBucket(b, k, requests[0]), requests[1..], clusterSize);
      assert BucketsOf(requests, clusterSize)[1..] == BucketsOf(requests[1..], clusterSize);
    }
  }

  lemma {:induction false} GroupGet(b: Buckets, requests: seq<PendingRequest>, clusterSize: ClusterSize, j: int)
    ensures BucketGet(Group(b, requests, clusterSize), j) == BucketGet(b, j) + Filter(requests, InBucket(clusterSize, j))
    decreases |requests|
  {
    if requests != [] {
      var r := requests[0];
      var k := DestinationBucket(r.destinations, clusterSize);
      AddToBucketGet(b, k, r, j);
      GroupGet(AddToBucket(b, k, r), requests[1..], clusterSize, j);
      assert Filter(requests, InBucket(clusterSize, j))
          == (if k == j then [r] else []) + Filter(requests[1..], InBucket(clusterSize, j));
    }
  }

  /** `_cluster_requests` puts every request in exactly one bucket: the bucket
      keys are the distinct bucket numbers in order of first occurrence, and
      each bucket lists exactly its requests in input order. */
  lemma ClusterRequestsSpec(requests: seq<PendingRequest>, clusterSize: ClusterSize)
    ensures KeysOf(ClusterRequests(requests, clusterSize)) == Dedup(BucketsOf(requests, clusterSize))
    ensures forall k :: BucketGet(ClusterRequests(requests, clusterSize), k) == Filter(requests, InBucket(clusterSize, k))
    ensures forall i :: 0 <= i < |ClusterRequests(requests, clusterSize)| ==>
      ClusterRequests(requests, clusterSize)[i].1 != []
  {
    ClusterRequestsKeys(requests, clusterSize);
    ClusterRequestsGet(requests, clusterSize);
    ClusterRequestsNonEmpty(requests, clusterSize);
  }

  lemma ClusterRequestsKeys(requests: seq<PendingRequest>, clusterSize: ClusterSize)
    ensures KeysOf(ClusterRequests(requests, clusterSize)) == Dedup(BucketsOf(requests, clusterSize))
  {
    assert KeysOf<int, seq<PendingRequest>>([]) == [];
    GroupKeys([], requests, clusterSize);
  }

  lemma ClusterRequestsGet(requests: seq<PendingRequest>, clusterSize: ClusterSize)
    ensures forall k :: BucketGet(ClusterRequests(requests, clusterSize), k) == Filter(requests, InBucket(clusterSize, k))
  {
    var c := ClusterRequests(requests, clusterSize);
    forall k ensures BucketGet(c, k) == Filter(requests, InBucket(clusterSize, k)) {
      GroupGet([], requests, clusterSize, k);
    }
  }

  lemma ClusterRequestsNonEmpty(requests: seq<PendingRequest>, clusterSize: ClusterSize)
    ensures forall i :: 0 <= i < |ClusterRequests(requests, clusterSize)| ==>
      ClusterRequests(requests, clusterSize)[i].1 != []
  {
    var c := ClusterRequests(requests, clusterSize);
    ClusterRequestsKeys(requests, clusterSize);
    ClusterRequestsGet(requests, clusterSize);
    BucketGetFirst(c);
    forall i | 0 <= i < |c| ensures c[i].1 != [] {
      var k := c[i].0;
      assert k in KeysOf(c);
      assert k in BucketsOf(requests, clusterSize);
      var j :| 0 <= j < |requests| && BucketsOf(requests, clusterSize)[j] == k;
      assert requests[j] in Filter(requests, InBucket(clusterSize, k));
    }
  }

  /** With distinct keys, `BucketGet` finds each entry's own list. */
  lemma {:induction false} BucketGetFirst(b: Buckets)
    requires NoDup(KeysOf(b))
    ensures forall i :: 0 <= i < |b| ==> BucketGet(b, b[i].0) == b[i].1
  {
    if b != [] {
      assert KeysOf(b[1..]) == KeysOf(b)[1..];
      BucketGetFirst(b[1..]);
      forall i | 1 <= i < |b| ensures BucketGet(b, b[i].0) == b[i].1 {
        assert b[i].0 != b[0].0 by {
          assert KeysOf(b)[0] == b[0].0 && KeysOf(b)[i] == b[i].0;
        }
        assert b[i] == b[1..][i - 1];
      }
    }
  }

  /** The run loop of `_cluster_destinations` over sorted distinct values:
      `current` is the open run; a value joins it while it is less than
      `clusterSize` above the run's first value, otherwise the run's truncated
      mean is emitted and a new run starts. */
  function Runs(values: seq<int>, clusterSize: ClusterSize, current: seq<int>): seq<int>
    decreases |values|
  {
    if values == [] then (if current == [] then [] else [TruncMean(current)])
    else if current == [] then Runs(values[1..], clusterSize, [values[0]])
    else if values[0] - current[0] < clusterSize then Runs(values[1..], clusterSize, current + [values[0]])
    else [TruncMean(current)] + Runs(values[1..], clusterSize, [values[0]])
  }

  /** `_cluster_destinations`. */
  function ClusterDestinations(destinations: seq<int>, clusterSize: ClusterSize): seq<int> {
    if destinations == [] then [] else Runs(SortedSet(destinations), clusterSize, [])
  }

  lemma IncreasingMeanBounds(current: seq<int>)
    requires current != [] && Increasing(current)
    ensures current[0] <= TruncMean(current) <= current[|current| - 1]
  {
    TruncMeanBetween(current, current[0], current[|current| - 1]);
  }

  /** The runs' means strictly increase and stay between the first value of
      the open run and the last value. */
  lemma {:induction false} RunsIncreasing(values: seq<int>, clusterSize: ClusterSize, current: seq<int>)
    requires current != [] && Increasing(current + values)
    ensures Increasing(Runs(values, clusterSize, current))
    ensures forall o :: o in Runs(values, clusterSize, current) ==>
      current[0] <= o <= (current + values)[|current + values| - 1]
    decreases |values|
  {
    var all := current + values;
    assert Increasing(current) by {
      assert forall i :: 0 <= i < |current| ==> current[i] == all[i];
    }
    IncreasingMeanBounds(current);
    if values == [] {
      assert all == current;
    } else if values[0] - current[0] < clusterSize {
      assert (current + [values[0]]) + values[1..] == all;
      RunsIncreasing(values[1..], clusterSize, current + [values[0]]);
    } else {
      assert Increasing([values[0]] + values[1..]) by {
        assert [values[0]] + values[1..] == values;
        assert forall i :: 0 <= i < |values| ==> values[i] == all[|current| + i];
      }
      RunsIncreasing(values[1..], clusterSize, [values[0]]);
      assert current[|current| - 1] == all[|current| - 1] && values[0] == all[|current|];
      assert ([values[0]] + values[1..])[|values| - 1] == all[|all| - 1];
      var rest := Runs(values[1..], clusterSize, [values[0]]);
      assert forall i :: 0 <= i < |rest| ==> rest[i] in rest;
    }
  }

  /** Runs over a non-empty increasing list increase and stay within its range. */
  lemma RunsOfSorted(vs: seq<int>, clusterSize: ClusterSize)
    requires vs != [] && Increasing(vs)
    ensures Increasing(Runs(vs, clusterSize, []))
    ensures forall o :: o in Runs(vs, clusterSize, []) ==> vs[0] <= o <= vs[|vs| - 1]
  {
    assert [vs[0]] + vs[1..] == vs;
    RunsIncreasing(vs[1..], clusterSize, [vs[0]]);
  }

  /** `_cluster_destinations` maps [] to [] and otherwise yields strictly
      increasing stops, each between the smallest and largest destination. */
  lemma ClusterDestinationsSpec(destinations: seq<int>, clusterSize: ClusterSize)
    ensures destinations == [] ==> ClusterDestinations(destinations, clusterSize) == []
    ensures Increasing(ClusterDestinations(destinations, clusterSize))
    ensures forall o :: o in ClusterDestinations(destinations, clusterSize) ==>
      (exists d :: d in destinations && d <= o) && (exists d :: d in destinations && o <= d)
  {
    if destinations != [] {
      var vs := SortedSet(destinations);
      assert destinations[0] in vs;
      RunsOfSorted(vs, clusterSize);
      var lo, hi := vs[0], vs[|vs| - 1];
      assert lo in destinations && hi in destinations;
      forall o | o in ClusterDestinations(destinations, clusterSize)
        ensures (exists d :: d in destinations && d <= o) && (exists d :: d in destinations && o <= d)
      {
        assert lo <= o <= hi;
      }
    }
  }

  /** With cluster size 1 every run is a single value, so the pre-seeded stops
      are exactly the sorted distinct destinations. */
  lemma {:induction false} RunsOfOne(values: seq<int>, c: int)
    requires Increasing([c] + values)
    ensures Runs(values, 1, [c]) == [c] + values
    decreases |values|
  {
    assert Sum([c]) == c;
    if values != [] {
      assert values[0] > c by { assert ([c] + values)[0] == c && ([c] + values)[1] == values[0]; }
      assert Increasing([values[0]] + values[1..]) by {
        assert [values[0]] + values[1..] == values;
        assert forall i :: 0 <= i < |values| ==> values[i] == ([c] + values)[i + 1];
      }
      RunsOfOne(values[1..], values[0]);
      assert [values[0]] + values[1..] == values;
    }
  }

  lemma ClusterSizeOne(destinations: seq<int>)
    ensures ClusterDestinations(destinations, 1) == SortedSet(destinations)
  {
    if destinations != [] {
      var vs := SortedSet(destinations);
      assert destinations[0] in vs;
      assert [vs[0]] + vs[1..] == vs;
      RunsOfOne(vs[1..], vs[0]);
    }
  }

  function PassengerCounts(group: seq<PendingRequest>): (cs: seq<int>)
    ensures |cs| == |group|
    ensures forall i :: 0 <= i < |group| ==> cs[i] == group[i].passengerCount
  {
    if group == [] then [] else [group[0].passengerCount] + PassengerCounts(group[1..])
  }

  /** `(estimate_travel_time(e, centroid) + e.door_dwell, len(e.targets))`. */
  function BestKey(centroid: int, root: real -> real): ElevatorSnapshot -> Key {
    (e: ElevatorSnapshot) => Key(AddTicks(EstimateTravelTime(e, centroid, root), e.doorDwell), |e.targets|, 0)
  }

  /** `_best_elevator`: for a non-empty bucket, the first car in building order
      among those fitting the bucket's summed riders (or, failing that, having
      room) minimising the key towards the truncated origin centroid. Which car
      that is, is stated by `BestElevatorMinimal`. */
  function BestElevator(es: seq<ElevatorSnapshot>, group: seq<PendingRequest>, root: real -> real)
    : (r: Option<ElevatorSnapshot>)
    ensures group == [] ==> r.None?
    ensures group != [] ==>
      (r.None? <==> forall e :: e in es ==> AvailableCapacity(e) < Sum(PassengerCounts(group)) && AvailableCapacity(e) <= 0)
    ensures r.Some? ==> r.value in es && Eligible(es, Sum(PassengerCounts(group)), r.value)
  {
    if group == [] then None
    else
      var need := Sum(PassengerCounts(group));
      var c := Candidates(es, need);
      assert (exists e :: e in es && (AvailableCapacity(e) >= need || AvailableCapacity(e) > 0)) ==> |c| > 0 by {
        if e :| e in es && (AvailableCapacity(e) >= need || AvailableCapacity(e) > 0) {
          if !Eligible(es, need, e) {
            var f :| f in es && AvailableCapacity(f) >= need;
            assert f in c;
          } else {
            assert e in c;
          }
        }
      }
      var r := FirstMin(c, BestKey(TruncMean(Origins(group)), root));
      if r.Some? then
        assert c[0] in c;
        r
      else r
  }

  /** The chosen car minimises the key over every eligible car, and it is the
      first minimal one among the candidates in building order. */
  lemma BestElevatorMinimal(es: seq<ElevatorSnapshot>, group: seq<PendingRequest>, root: real -> real)
    requires BestElevator(es, group, root).Some?
    ensures var r := BestElevator(es, group, root).value;
      var key := BestKey(TruncMean(Origins(group)), root);
      forall e :: e in es && Eligible(es, Sum(PassengerCounts(group)), e) ==> !KeyLt(key(e), key(r))
    ensures exists i ::
      IsFirstMin(Candidates(es, Sum(PassengerCounts(group))), BestKey(TruncMean(Origins(group)), root), i)
      && Candidates(es, Sum(PassengerCounts(group)))[i] == BestElevator(es, group, root).value
  {
    var c := Candidates(es, Sum(PassengerCounts(group)));
    assert forall e :: e in c ==> exists j :: 0 <= j < |c| && c[j] == e;
  }

  /** What a won bucket adds to its car's list: per request, its origin and
      then its pre-seeded stops, each only if not yet listed. */
  function Seed(l: seq<int>, group: seq<PendingRequest>, clusterSize: ClusterSize): (r: seq<int>)
    ensures NoDup(l) ==> NoDup(r)
    ensures forall x :: x in l ==> x in r
    decreases |group|
  {
    if group == [] then l
    else Seed(AddAllIfAbsent(AddIfAbsent(l, group[0].origin), ClusterDestinations(group[0].destinations, clusterSize)),
              group[1..], clusterSize)
  }

  /** The list `l` holds every origin and every pre-seeded stop of `group`. */
  predicate ServedBy(l: seq<int>, group: seq<PendingRequest>, clusterSize: ClusterSize) {
    && (forall i :: 0 <= i < |group| ==> group[i].origin in l)
    && (forall i, d :: 0 <= i < |group| && d in ClusterDestinations(group[i].destinations, clusterSize) ==> d in l)
  }

  lemma ServedByGrows(l: seq<int>, l': seq<int>, group: seq<PendingRequest>, clusterSize: ClusterSize)
    requires ServedBy(l, group, clusterSize)
    requires forall x :: x in l ==> x in l'
    ensures ServedBy(l', group, clusterSize)
  {
  }

  /** Seeding a list with a bucket serves every request of the bucket. */
  lemma {:induction false} SeedServes(l: seq<int>, group: seq<PendingRequest>, clusterSize: ClusterSize)
    ensures ServedBy(Seed(l, group, clusterSize), group, clusterSize)
    decreases |group|
  {
    if group != [] {
      var g0 := group[0];
      var ds := ClusterDestinations(g0.destinations, clusterSize);
      var l' := AddAllIfAbsent(AddIfAbsent(l, g0.origin), ds);
      var r := Seed(l', group[1..], clusterSize);
      SeedServes(l', group[1..], clusterSize);
      assert g0.origin in l';
      forall i | 0 <= i < |group| ensures group[i].origin in r {
        if i > 0 {
          assert group[i] == group[1..][i - 1];
        }
      }
      forall i, d | 0 <= i < |group| && d in ClusterDestinations(group[i].destinations, clusterSize)
        ensures d in r
      {
        if i > 0 {
          assert group[i] == group[1..][i - 1];
        } else {
          assert d in l';
        }
      }
    }
  }

  /** The list update for a bucket's winner. */
  function SeedWith(group: seq<PendingRequest>, clusterSize: ClusterSize): seq<int> -> seq<int> {
    l => Seed(l, group, clusterSize)
  }

  /** One iteration of the loop of `select_calls`: the bucket's winner, if
      any, gets the bucket's origins and pre-seeded stops. */
  function AssignBucket(es: seq<ElevatorSnapshot>, group: seq<PendingRequest>, a: Assignments,
                        clusterSize: ClusterSize, root: real -> real): Assignments
  {
    match BestElevator(es, group, root)
    case None => a
    case Some(c) => Update(a, c.id, SeedWith(group, clusterSize))
  }

  /** The loop of `select_calls` over the buckets. The snapshots are the same
      for every bucket. */
  function Assign(es: seq<ElevatorSnapshot>, buckets: Buckets, a: Assignments, clusterSize: ClusterSize,
                  root: real -> real): Assignments
    decreases |buckets|
  {
    if buckets == [] then a
    else Assign(es, buckets[1..], AssignBucket(es, buckets[0].1, a, clusterSize, root), clusterSize, root)
  }

  /** `DestinationDispatchScheduler.select_calls`. */
  function SelectCalls(es: seq<ElevatorSnapshot>, requests: seq<PendingRequest>, clusterSize: ClusterSize,
                       root: real -> real): Assignments
  {
    Assign(es, ClusterRequests(requests, clusterSize), [], clusterSize, root)
  }

  /** Every list is free of repeats. */
  ghost predicate ListsNoDup(a: Assignments) {
    forall id :: NoDup(Get(a, id))
  }

  lemma AssignBucketWellFormed(es: seq<ElevatorSnapshot>, group: seq<PendingRequest>, a: Assignments,
                                clusterSize: ClusterSize, root: real -> real)
    requires WellFormed(a)
    ensures WellFormed(AssignBucket(es, group, a, clusterSize, root))
  {
    match BestElevator(es, group, root)
    case None =>
    case Some(c) =>
      UpdateSpec(a, c.id, SeedWith(group, clusterSize));
  }

  /** One bucket keeps the lists duplicate-free. */
  lemma AssignBucketNoDup(es: seq<ElevatorSnapshot>, group: seq<PendingRequest>, a: Assignments,
                          clusterSize: ClusterSize, root: real -> real)
    requires WellFormed(a) && ListsNoDup(a)
    ensures ListsNoDup(AssignBucket(es, group, a, clusterSize, root))
  {
    match BestElevator(es, group, root)
    case None =>
    case Some(c) =>
      var f := SeedWith(group, clusterSize);
      UpdateSpec(a, c.id, f);
      var a' := Update(a, c.id, f);
      forall id ensures NoDup(Get(a', id)) {
        if id == c.id {
          assert NoDup(Get(a, c.id));
          assert Get(a', c.id) == Seed(Get(a, c.id), group, clusterSize);
        }
      }
  }

  /** One bucket only adds to each list. */
  lemma AssignBucketKeeps(es: seq<ElevatorSnapshot>, group: seq<PendingRequest>, a: Assignments,
                          clusterSize: ClusterSize, root: real -> real, id: int, x: int)
    requires WellFormed(a) && x in Get(a, id)
    ensures x in Get(AssignBucket(es, group, a, clusterSize, root), id)
  {
    match BestElevator(es, group, root)
    case None =>
    case Some(c) =>
      var f := SeedWith(group, clusterSize);
      UpdateSpec(a, c.id, f);
      if id == c.id {
        assert Get(Update(a, c.id, f), c.id) == Seed(Get(a, c.id), group, clusterSize);
      }
  }

  lemma {:induction false} AssignNoDup(es: seq<ElevatorSnapshot>, buckets: Buckets, a: Assignments,
                                       clusterSize: ClusterSize, root: real -> real)
    requires WellFormed(a) && ListsNoDup(a)
    ensures WellFormed(Assign(es, buckets, a, clusterSize, root))
    ensures ListsNoDup(Assign(es, buckets, a, clusterSize, root))
    decreases |buckets|
  {
    if buckets != [] {
      AssignBucketWellFormed(es, buckets[0].1, a, clusterSize, root);
      AssignBucketNoDup(es, buckets[0].1, a, clusterSize, root);
      AssignNoDup(es, buckets[1..], AssignBucket(es, buckets[0].1, a, clusterSize, root), clusterSize, root);
    }
  }

  /** Later buckets only add to the lists. */
  lemma {:induction false} AssignKeeps(es: seq<ElevatorSnapshot>, buckets: Buckets, a: Assignments,
                                       clusterSize: ClusterSize, root: real -> real, id: int, x: int)
    requires WellFormed(a) && x in Get(a, id)
    ensures x in Get(Assign(es, buckets, a, clusterSize, root), id)
    decreases |buckets|
  {
    if buckets != [] {
      AssignBucketWellFormed(es, buckets[0].1, a, clusterSize, root);
      AssignBucketKeeps(es, buckets[0].1, a, clusterSize, root, id, x);
      AssignKeeps(es, buckets[1..], AssignBucket(es, buckets[0].1, a, clusterSize, root), clusterSize, root, id, x);
    }
  }

  /** The car chosen for the first bucket ends up serving it. */
  lemma AssignServesHead(es: seq<ElevatorSnapshot>, buckets: Buckets, a: Assignments,
                         clusterSize: ClusterSize, root: real -> real)
    requires WellFormed(a)
    requires buckets != [] && BestElevator(es, buckets[0].1, root).Some?
    ensures ServedBy(Get(Assign(es, buckets, a, clusterSize, root), BestElevator(es, buckets[0].1, root).value.id),
                     buckets[0].1, clusterSize)
  {
    var c := BestElevator(es, buckets[0].1, root).value;
    var f := SeedWith(buckets[0].1, clusterSize);
    UpdateSpec(a, c.id, f);
    var a' := AssignBucket(es, buckets[0].1, a, clusterSize, root);
    assert a' == Update(a, c.id, f);
    SeedServes(Get(a, c.id), buckets[0].1, clusterSize);
    var out := Assign(es, buckets, a, clusterSize, root);
    assert out == Assign(es, buckets[1..], a', clusterSize, root);
    forall x | x in Get(a', c.id) ensures x in Get(out, c.id) {
      AssignKeeps(es, buckets[1..], a', clusterSize, root, c.id, x);
    }
    ServedByGrows(Get(a', c.id), Get(out, c.id), buckets[0].1, clusterSize);
  }

  /** The car chosen for bucket `i` ends up serving that bucket. */
  lemma {:induction false} AssignServes(es: seq<ElevatorSnapshot>, buckets: Buckets, a: Assignments,
                                        clusterSize: ClusterSize, root: real -> real, i: nat)
    requires WellFormed(a)
    requires i < |buckets| && BestElevator(es, buckets[i].1, root).Some?
    ensures ServedBy(Get(Assign(es, buckets, a, clusterSize, root), BestElevator(es, buckets[i].1, root).value.id),
                     buckets[i].1, clusterSize)
    decreases |buckets|
  {
    if i == 0 {
      AssignServesHead(es, buckets, a, clusterSize, root);
    } else {
      var rest := buckets[1..];
      var a' := AssignBucket(es, buckets[0].1, a, clusterSize, root);
      var group := buckets[i].1;
      assert group == rest[i - 1].1;
      AssignBucketWellFormed(es, buckets[0].1, a, clusterSize, root);
      AssignServes(es, rest, a', clusterSize, root, i - 1);
      var id := BestElevator(es, group, root).value.id;
      assert Get(Assign(es, buckets, a, clusterSize, root), id) == Get(Assign(es, rest, a', clusterSize, root), id);
    }
  }

  /** `x` is an origin or a pre-seeded stop of a request of `group`. */
  predicate StopOf(x: int, group: seq<PendingRequest>, clusterSize: ClusterSize) {
    exists i :: 0 <= i < |group| && (x == group[i].origin || x in ClusterDestinations(group[i].destinations, clusterSize))
  }

  /** Seeding adds nothing but the bucket's origins and pre-seeded stops. */
  lemma {:induction false} SeedOnly(l: seq<int>, group: seq<PendingRequest>, clusterSize: ClusterSize)
    ensures forall x :: x in Seed(l, group, clusterSize) ==> x in l || StopOf(x, group, clusterSize)
    decreases |group|
  {
    if group != [] {
      var g0 := group[0];
      var l' := AddAllIfAbsent(AddIfAbsent(l, g0.origin), ClusterDestinations(g0.destinations, clusterSize));
      SeedOnly(l', group[1..], clusterSize);
      forall x | x in Seed(l, group, clusterSize) ensures x in l || StopOf(x, group, clusterSize) {
        if x !in l' {
          var i :| 0 <= i < |group[1..]|
            && (x == group[1..][i].origin || x in ClusterDestinations(group[1..][i].destinations, clusterSize));
          assert group[1..][i] == group[i + 1];
        } else if x !in l {
          assert x == group[0].origin || x in ClusterDestinations(group[0].destinations, clusterSize);
        }
      }
    }
  }

  /** The id of the car that wins the bucket `group`, if any. */
  function WinnerId(es: seq<ElevatorSnapshot>, group: seq<PendingRequest>, root: real -> real): Option<int> {
    match BestElevator(es, group, root)
    case None => None
    case Some(c) => Some(c.id)
  }

  /** Every listed car is the winner `ws[j]` of some bucket `j`, and every
      floor on its list is a stop of a bucket it won. */
  ghost predicate OnlyWon(a: Assignments, ws: seq<Option<int>>, buckets: Buckets, clusterSize: ClusterSize) {
    && (forall id :: id in KeysOf(a) ==> exists j :: 0 <= j < |buckets| && j < |ws| && ws[j] == Some(id))
    && (forall id, x :: x in Get(a, id) ==>
          exists j :: 0 <= j < |buckets| && j < |ws| && ws[j] == Some(id) && StopOf(x, buckets[j].1, clusterSize))
  }

  /** Seeding the list of bucket `n`'s winner keeps `OnlyWon`. */
  lemma SeedWinnerOnly(ws: seq<Option<int>>, buckets: Buckets, n: nat, a: Assignments, clusterSize: ClusterSize,
                       winner: int)
    requires n < |buckets| && n < |ws| && ws[n] == Some(winner)
    requires WellFormed(a) && OnlyWon(a, ws, buckets, clusterSize)
    ensures OnlyWon(Update(a, winner, SeedWith(buckets[n].1, clusterSize)), ws, buckets, clusterSize)
  {
    var g := buckets[n].1;
    var f := SeedWith(g, clusterSize);
    var a' := Update(a, winner, f);
    UpdateSpec(a, winner, f);
    SeedOnly(Get(a, winner), g, clusterSize);
    assert Get(a', winner) == Seed(Get(a, winner), g, clusterSize);
    forall id, x | x in Get(a', id)
      ensures exists j :: 0 <= j < |buckets| && j < |ws| && ws[j] == Some(id) && StopOf(x, buckets[j].1, clusterSize)
    {
      if id == winner && x !in Get(a, winner) {
        assert StopOf(x, buckets[n].1, clusterSize);
      }
    }
  }

  /** The loop from bucket `n` on adds only winners and their buckets' stops. */
  lemma {:induction false} AssignOnly(es: seq<ElevatorSnapshot>, ws: seq<Option<int>>, buckets: Buckets, n: nat,
                                      a: Assignments, clusterSize: ClusterSize, root: real -> real)
    requires n <= |buckets| && |ws| == |buckets|
    requires forall j :: 0 <= j < |buckets| ==> ws[j] == WinnerId(es, buckets[j].1, root)
    requires WellFormed(a) && OnlyWon(a, ws, buckets, clusterSize)
    ensures OnlyWon(Assign(es, buckets[n..], a, clusterSize, root), ws, buckets, clusterSize)
    decreases |buckets| - n
  {
    if n < |buckets| {
      var a' := AssignBucket(es, buckets[n].1, a, clusterSize, root);
      AssignBucketWellFormed(es, buckets[n].1, a, clusterSize, root);
      assert OnlyWon(a', ws, buckets, clusterSize) by {
        match BestElevator(es, buckets[n].1, root)
        case None =>
        case Some(c) =>
          assert ws[n] == Some(c.id);
          SeedWinnerOnly(ws, buckets, n, a, clusterSize, c.id);
      }
      assert buckets[n..][0] == buckets[n] && buckets[n..][1..] == buckets[n + 1..];
      assert Assign(es, buckets[n..], a, clusterSize, root) == Assign(es, buckets[n + 1..], a', clusterSize, root);
      AssignOnly(es, ws, buckets, n + 1, a', clusterSize, root);
    }
  }

  function WinnerIds(es: seq<ElevatorSnapshot>, buckets: Buckets, root: real -> real): (ws: seq<Option<int>>)
    ensures |ws| == |buckets|
    ensures forall j :: 0 <= j < |buckets| ==> ws[j] == WinnerId(es, buckets[j].1, root)
  {
    if buckets == [] then [] else [WinnerId(es, buckets[0].1, root)] + WinnerIds(es, buckets[1..], root)
  }

  /** Destination dispatch lists only bucket winners, and every floor on a
      car's list is an origin or a pre-seeded stop of a bucket that car won. */
  /** Each bucket holds exactly the requests whose destinations fall in it. */
  lemma BucketsAreFilters(requests: seq<PendingRequest>, clusterSize: ClusterSize)
    ensures var b := ClusterRequests(requests, clusterSize);
      forall j :: 0 <= j < |b| ==> b[j].1 == Filter(requests, InBucket(clusterSize, b[j].0))
  {
    ClusterRequestsSpec(requests, clusterSize);
    BucketGetFirst(ClusterRequests(requests, clusterSize));
  }

  lemma SelectCallsOnlyWon(es: seq<ElevatorSnapshot>, requests: seq<PendingRequest>, clusterSize: ClusterSize,
                           root: real -> real)
    ensures var b := ClusterRequests(requests, clusterSize);
      OnlyWon(SelectCalls(es, requests, clusterSize, root), WinnerIds(es, b, root), b, clusterSize)
  {
    var b := ClusterRequests(requests, clusterSize);
    assert KeysOf<int, seq<int>>([]) == [];
    assert b[0..] == b;
    AssignOnly(es, WinnerIds(es, b, root), b, 0, [], clusterSize, root);
  }

  /** Moves a bucket's win from its position `j` to its key. */
  lemma WinnerOfKey(es: seq<ElevatorSnapshot>, requests: seq<PendingRequest>, clusterSize: ClusterSize,
                    root: real -> real, j: int, id: int)
    requires 0 <= j < |ClusterRequests(requests, clusterSize)|
    requires WinnerIds(es, ClusterRequests(requests, clusterSize), root)[j] == Some(id)
    ensures var k := ClusterRequests(requests, clusterSize)[j].0;
      && WinnerId(es, Filter(requests, InBucket(clusterSize, k)), root) == Some(id)
      && ClusterRequests(requests, clusterSize)[j].1 == Filter(requests, InBucket(clusterSize, k))
  {
    BucketsAreFilters(requests, clusterSize);
  }

  lemma SelectCallsOnlyWinners(es: seq<ElevatorSnapshot>, requests: seq<PendingRequest>, clusterSize: ClusterSize,
                               root: real -> real)
    ensures forall id :: id in KeysOf(SelectCalls(es, requests, clusterSize, root)) ==>
      exists k :: WinnerId(es, Filter(requests, InBucket(clusterSize, k)), root) == Some(id)
    ensures forall id, x :: x in Get(SelectCalls(es, requests, clusterSize, root), id) ==>
      exists k :: WinnerId(es, Filter(requests, InBucket(clusterSize, k)), root) == Some(id)
                  && StopOf(x, Filter(requests, InBucket(clusterSize, k)), clusterSize)
  {
    var b := ClusterRequests(requests, clusterSize);
    var r := SelectCalls(es, requests, clusterSize, root);
    SelectCallsOnlyWon(es, requests, clusterSize, root);
    forall id | id in KeysOf(r)
      ensures exists k :: WinnerId(es, Filter(requests, InBucket(clusterSize, k)), root) == Some(id)
    {
      var j :| 0 <= j < |b| && j < |b| && WinnerIds(es, b, root)[j] == Some(id);
      WinnerOfKey(es, requests, clusterSize, root, j, id);
    }
    forall id, x | x in Get(r, id)
      ensures exists k :: WinnerId(es, Filter(requests, InBucket(clusterSize, k)), root) == Some(id)
                          && StopOf(x, Filter(requests, InBucket(clusterSize, k)), clusterSize)
    {
      var j :| 0 <= j < |b| && j < |b| && WinnerIds(es, b, root)[j] == Some(id) && StopOf(x, b[j].1, clusterSize);
      WinnerOfKey(es, requests, clusterSize, root, j, id);
    }
  }

  /** Destination dispatch returns duplicate-free lists, and every car that
      wins a bucket lists all of that bucket's origins and pre-seeded stops. */
  lemma SelectCallsSpec(es: seq<ElevatorSnapshot>, requests: seq<PendingRequest>, clusterSize: ClusterSize,
                        root: real -> real)
    ensures WellFormed(SelectCalls(es, requests, clusterSize, root))
    ensures forall id :: NoDup(Get(SelectCalls(es, requests, clusterSize, root), id))
    ensures forall k, c :: BestElevator(es, Filter(requests, InBucket(clusterSize, k)), root) == Some(c) ==>
      ServedBy(Get(SelectCalls(es, requests, clusterSize, root), c.id), Filter(requests, InBucket(clusterSize, k)), clusterSize)
  {
    var b := ClusterRequests(requests, clusterSize);
    assert KeysOf<int, seq<int>>([]) == [];
    AssignNoDup(es, b, [], clusterSize, root);
    ClusterRequestsSpec(requests, clusterSize);
    forall k, c | BestElevator(es, Filter(requests, InBucket(clusterSize, k)), root) == Some(c)
      ensures ServedBy(Get(SelectCalls(es, requests, clusterSize, root), c.id),
                       Filter(requests, InBucket(clusterSize, k)), clusterSize)
    {
      var i := BucketIndex(requests, clusterSize, k);
      AssignServes(es, b, [], clusterSize, root, i);
    }
  }

  /** A bucket number with at least one request names an entry of the clustering. */
  lemma BucketIndex(requests: seq<PendingRequest>, clusterSize: ClusterSize, k: int) returns (i: nat)
    requires Filter(requests, InBucket(clusterSize, k)) != []
    ensures i < |ClusterRequests(requests, clusterSize)|
    ensures ClusterRequests(requests, clusterSize)[i] == (k, Filter(requests, InBucket(clusterSize, k)))
  {
    var b := ClusterRequests(requests, clusterSize);
    ClusterRequestsSpec(requests, clusterSize);
    var g := Filter(requests, InBucket(clusterSize, k));
    var r := g[0];
    assert r in requests && DestinationBucket(r.destinations, clusterSize) == k;
    var j :| 0 <= j < |requests| && requests[j] == r;
    assert BucketsOf(requests, clusterSize)[j] == k;
    assert k in KeysOf(b);
    i :| 0 <= i < |b| && KeysOf(b)[i] == k;
    BucketGetFirst(b);
  }

  /** When no car has room and every request has a rider, nothing is assigned. */
  lemma {:induction false} AssignNoRoom(es: seq<ElevatorSnapshot>, buckets: Buckets, clusterSize: ClusterSize,
                                        root: real -> real)
    requires forall e :: e in es ==> AvailableCapacity(e) == 0
    requires forall i, r :: 0 <= i < |buckets| && r in buckets[i].1 ==> r.passengerCount >= 1
    ensures Assign(es, buckets, [], clusterSize, root) == []
    decreases |buckets|
  {
    if buckets != [] {
      var g := buckets[0].1;
      if g != [] {
        PositiveSum(g);
      }
      assert BestElevator(es, g, root).None?;
      assert forall i :: 1 <= i < |buckets| ==> buckets[i] == buckets[1..][i - 1];
      AssignNoRoom(es, buckets[1..], clusterSize, root);
    }
  }

  lemma {:induction false} PositiveSum(g: seq<PendingRequest>)
    requires g != [] && forall r :: r in g ==> r.passengerCount >= 1
    ensures Sum(PassengerCounts(g)) >= 1
    decreases |g|
  {
    if |g| > 1 {
      PositiveSum(g[1..]);
    }
  }

  lemma SelectCallsNoRoom(es: seq<ElevatorSnapshot>, requests: seq<PendingRequest>, clusterSize: ClusterSize,
                          root: real -> real)
    requires forall e :: e in es ==> AvailableCapacity(e) == 0
    requires forall r :: r in requests ==> r.passengerCount >= 1
    ensures SelectCalls(es, requests, clusterSize, root) == []
  {
    var b := ClusterRequests(requests, clusterSize);
    ClusterRequestsSpec(requests, clusterSize);
    BucketGetFirst(b);
    forall i, r | 0 <= i < |b| && r in b[i].1 ensures r.passengerCount >= 1 {
      assert b[i].1 == Filter(requests, InBucket(clusterSize, b[i].0));
    }
    AssignNoRoom(es, b, clusterSize, root);
  }
}
