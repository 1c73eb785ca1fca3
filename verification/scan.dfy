/** src/scheduler/scan.py: the SCAN (elevator algorithm) strategy. A first pass
    lets each car, in building order, sweep up every request still open that
    lies on its way; a second pass sends each leftover to the nearest car with
    room. */
module Scan {
  import opened Wrappers
  import opened Seqs
  import opened Sorting
  import opened Keys
  import opened Interface
  import opened Travel

  /** `_is_in_path`: an idle car takes anything; a moving car takes the
      requests at or ahead of its position. */
  function InPath(e: ElevatorSnapshot, request: PendingRequest): (r: bool)
    ensures e.direction == 0 ==> r
    ensures e.direction > 0 ==> (r <==> request.origin as real >= e.position)
    ensures e.direction < 0 ==> (r <==> request.origin as real <= e.position)
  {
    if e.direction == 0 then true
    else
      || (e.direction > 0 && request.origin as real >= e.position)
      || (e.direction < 0 && request.origin as real <= e.position)
  }

  function InPathOf(e: ElevatorSnapshot): PendingRequest -> bool {
    (r: PendingRequest) => InPath(e, r)
  }

  function OffPathOf(e: ElevatorSnapshot): PendingRequest -> bool {
    (r: PendingRequest) => !InPath(e, r)
  }

  /** `elevator.direction or 1`. */
  function SweepDirection(e: ElevatorSnapshot): int {
    if e.direction == 0 then 1 else e.direction
  }

  /** The requests of `e`'s sweep, in sweep order. */
  function SweepPath(e: ElevatorSnapshot, requests: seq<PendingRequest>): seq<PendingRequest> {
    SortRequestsInDirection(Filter(requests, InPathOf(e)), SweepDirection(e))
  }

  /** The inner loop of the first pass: while the car shows room (a value
      that never changes), record the request's origin and `remove` it from
      the open requests. */
  function Sweep(e: ElevatorSnapshot, path: seq<PendingRequest>, requests: seq<PendingRequest>, a: Assignments)
    : (Assignments, seq<PendingRequest>)
  {
    if path == [] || AvailableCapacity(e) <= 0 then (a, requests)
    else Sweep(e, path[1..], RemoveFirst(requests, path[0]), Append(a, e.id, path[0].origin))
  }

  /** The first pass over the cars in building order. */
  function FirstPass(es: seq<ElevatorSnapshot>, requests: seq<PendingRequest>, a: Assignments)
    : (Assignments, seq<PendingRequest>)
  {
    if es == [] then (a, requests)
    else
      var swept := Sweep(es[0], SweepPath(es[0], requests), requests, a);
      FirstPass(es[1..], swept.1, swept.0)
  }

  /** `(estimate_travel_time(e, origin) + e.door_dwell, abs(e.direction - request.direction))`. */
  function ClosestKey(request: PendingRequest, root: real -> real): ElevatorSnapshot -> Key {
    (e: ElevatorSnapshot) =>
      Key(AddTicks(EstimateTravelTime(e, request.origin, root), e.doorDwell), AbsInt(e.direction - request.direction), 0)
  }

  /** `_closest_elevator`: the first car with room, in building order, whose
      key is minimal; None exactly when no car has room. Which car that is, is
      stated by `ClosestElevatorMinimal`. */
  function ClosestElevator(es: seq<ElevatorSnapshot>, request: PendingRequest, root: real -> real)
    : (r: Option<ElevatorSnapshot>)
    ensures r.None? <==> forall e :: e in es ==> AvailableCapacity(e) == 0
    ensures r.Some? ==> r.value in es && AvailableCapacity(r.value) > 0
  {
    var feasible := Filter(es, HasRoom());
    var r := FirstMin(feasible, ClosestKey(request, root));
    if r.Some? then
      assert feasible[0] in feasible;
      r
    else
      assert forall e :: e in es ==> e !in feasible;
      r
  }

  /** The chosen car minimises the key over every car with room, and it is the
      first minimal one among them in building order. */
  lemma ClosestElevatorMinimal(es: seq<ElevatorSnapshot>, request: PendingRequest, root: real -> real)
    requires ClosestElevator(es, request, root).Some?
    ensures var r := ClosestElevator(es, request, root).value;
      forall e :: e in es && AvailableCapacity(e) > 0 ==>
        !KeyLt(ClosestKey(request, root)(e), ClosestKey(request, root)(r))
    ensures exists i ::
      IsFirstMin(Filter(es, HasRoom()), ClosestKey(request, root), i)
      && Filter(es, HasRoom())[i] == ClosestElevator(es, request, root).value
  {
    var feasible := Filter(es, HasRoom());
    assert forall e :: e in feasible ==> exists j :: 0 <= j < |feasible| && feasible[j] == e;
  }

  /** The second pass over the leftovers. */
  function SecondPass(es: seq<ElevatorSnapshot>, leftovers: seq<PendingRequest>, a: Assignments, root: real -> real)
    : Assignments
  {
    if leftovers == [] then a
    else
      match ClosestElevator(es, leftovers[0], root)
      case None => SecondPass(es, leftovers[1..], a, root)
      case Some(c) => SecondPass(es, leftovers[1..], Append(a, c.id, leftovers[0].origin), root)
  }

  /** `ScanScheduler.select_calls`. */
  function SelectCalls(es: seq<ElevatorSnapshot>, requests: seq<PendingRequest>, root: real -> real)
    : Assignments
  {
    var first := FirstPass(es, requests, []);
    SecondPass(es, first.1, first.0, root)
  }

  /** Some car has room. */
  predicate AnyRoom(es: seq<ElevatorSnapshot>) {
    exists e :: e in es && AvailableCapacity(e) > 0
  }

  lemma EmptyFilterKeepsRest(s: seq<PendingRequest>, p: PendingRequest -> bool, q: PendingRequest -> bool)
    requires forall x :: q(x) == !p(x)
    requires multiset(Filter(s, p)) == multiset{}
    ensures Filter(s, q) == s
  {
    assert |Filter(s, p)| == |multiset(Filter(s, p))| == 0;
    assert forall i :: 0 <= i < |s| ==> s[i] !in Filter(s, p);
    FilterAll(s, q);
  }

  lemma SweepStep(e: ElevatorSnapshot, path: seq<PendingRequest>, requests: seq<PendingRequest>)
    requires path != []
    requires multiset(path) == multiset(Filter(requests, InPathOf(e)))
    ensures multiset(path[1..]) == multiset(Filter(RemoveFirst(requests, path[0]), InPathOf(e)))
    ensures Filter(RemoveFirst(requests, path[0]), OffPathOf(e)) == Filter(requests, OffPathOf(e))
  {
    RemoveHead(path, requests, InPathOf(e), OffPathOf(e));
  }

  /** A sweep by a car with room removes exactly its in-path requests from
      the open ones, whatever order it visits them in. */
  lemma {:induction false} SweepLeftovers(e: ElevatorSnapshot, path: seq<PendingRequest>,
                                          requests: seq<PendingRequest>, a: Assignments)
    requires AvailableCapacity(e) > 0
    requires multiset(path) == multiset(Filter(requests, InPathOf(e)))
    ensures Sweep(e, path, requests, a).1 == Filter(requests, OffPathOf(e))
    decreases |path|
  {
    if path == [] {
      EmptyFilterKeepsRest(requests, InPathOf(e), OffPathOf(e));
    } else {
      SweepStep(e, path, requests);
      SweepLeftovers(e, path[1..], RemoveFirst(requests, path[0]), Append(a, e.id, path[0].origin));
    }
  }

  /** A sweep by a car with room appends the origins of its path, in path
      order, to that car's list and to no other. */
  lemma {:induction false} SweepAssigns(e: ElevatorSnapshot, path: seq<PendingRequest>,
                                        requests: seq<PendingRequest>, a: Assignments)
    requires AvailableCapacity(e) > 0 && WellFormed(a)
    ensures WellFormed(Sweep(e, path, requests, a).0)
    ensures Get(Sweep(e, path, requests, a).0, e.id) == Get(a, e.id) + Origins(path)
    ensures forall other :: other != e.id ==> Get(Sweep(e, path, requests, a).0, other) == Get(a, other)
    decreases |path|
  {
    if path != [] {
      var x := path[0];
      AppendSpec(a, e.id, x.origin);
      SweepAssigns(e, path[1..], RemoveFirst(requests, x), Append(a, e.id, x.origin));
      assert Origins(path) == [x.origin] + Origins(path[1..]);
    }
  }

  /** A sweep by a car with room adds one entry per path request, all under
      the car's own id. */
  lemma {:induction false} SweepSize(e: ElevatorSnapshot, path: seq<PendingRequest>,
                                     requests: seq<PendingRequest>, a: Assignments)
    requires AvailableCapacity(e) > 0 && WellFormed(a)
    ensures Total(Sweep(e, path, requests, a).0) == Total(a) + |path|
    ensures forall y :: y in KeysOf(Sweep(e, path, requests, a).0) ==> y in KeysOf(a) || y == e.id
    decreases |path|
  {
    if path != [] {
      var x := path[0];
      AppendSpec(a, e.id, x.origin);
      AppendIds(a, e.id, x.origin);
      SweepSize(e, path[1..], RemoveFirst(requests, x), Append(a, e.id, x.origin));
    }
  }

  /** A car without room assigns nothing and removes nothing. */
  lemma SweepNoRoom(e: ElevatorSnapshot, path: seq<PendingRequest>, requests: seq<PendingRequest>, a: Assignments)
    requires AvailableCapacity(e) <= 0
    ensures Sweep(e, path, requests, a) == (a, requests)
  {
  }

  /** One car's turn in the first pass: with room it takes every open
      in-path request, in ascending origin order when heading up or idle and
      descending when heading down, and leaves the rest open in their order;
      without room it changes nothing. */
  lemma FirstPassStep(e: ElevatorSnapshot, requests: seq<PendingRequest>, a: Assignments)
    requires WellFormed(a)
    ensures var swept := Sweep(e, SweepPath(e, requests), requests, a);
      && (AvailableCapacity(e) > 0 ==>
            && swept.1 == Filter(requests, OffPathOf(e))
            && Get(swept.0, e.id) == Get(a, e.id) + Origins(SweepPath(e, requests)))
      && (AvailableCapacity(e) <= 0 ==> swept == (a, requests))
    ensures multiset(SweepPath(e, requests)) == multiset(Filter(requests, InPathOf(e)))
    ensures SweepDirection(e) > 0 ==> forall i, j :: 0 <= i < j < |SweepPath(e, requests)| ==>
      SweepPath(e, requests)[i].origin <= SweepPath(e, requests)[j].origin
    ensures SweepDirection(e) < 0 ==> forall i, j :: 0 <= i < j < |SweepPath(e, requests)| ==>
      SweepPath(e, requests)[i].origin >= SweepPath(e, requests)[j].origin
  {
    if AvailableCapacity(e) > 0 {
      SweepLeftovers(e, SweepPath(e, requests), requests, a);
      SweepAssigns(e, SweepPath(e, requests), requests, a);
    }
  }

  /** The first pass assigns each request at most once: the entries it adds
      plus the requests it leaves open make up the requests it was given. */
  lemma {:induction false} FirstPassCounts(es: seq<ElevatorSnapshot>, es0: seq<ElevatorSnapshot>,
                                           requests: seq<PendingRequest>, a: Assignments)
    requires WellFormed(a) && IdsHaveRoom(a, es0)
    requires forall e :: e in es ==> e in es0
    ensures WellFormed(FirstPass(es, requests, a).0)
    ensures IdsHaveRoom(FirstPass(es, requests, a).0, es0)
    ensures Total(FirstPass(es, requests, a).0) + |FirstPass(es, requests, a).1| == Total(a) + |requests|
    ensures !AnyRoom(es) ==> FirstPass(es, requests, a) == (a, requests)
    decreases |es|
  {
    if es != [] {
      var e := es[0];
      var path := SweepPath(e, requests);
      var swept := Sweep(e, path, requests, a);
      if AvailableCapacity(e) > 0 {
        SweepLeftovers(e, path, requests, a);
        SweepAssigns(e, path, requests, a);
        SweepSize(e, path, requests, a);
        FilterSplitSize(requests, InPathOf(e), OffPathOf(e));
        assert |path| == |Filter(requests, InPathOf(e))| by {
          assert |multiset(path)| == |multiset(Filter(requests, InPathOf(e)))|;
        }
        assert e in es0;
      }
      assert forall x :: x in es[1..] ==> x in es;
      FirstPassCounts(es[1..], es0, swept.1, swept.0);
      if !AnyRoom(es) {
        assert e in es;
        assert !AnyRoom(es[1..]);
      }
    }
  }

  /** Each leftover goes to some car exactly when a car has room. */
  lemma {:induction false} SecondPassCounts(es: seq<ElevatorSnapshot>, leftovers: seq<PendingRequest>,
                                            a: Assignments, root: real -> real)
    requires WellFormed(a) && IdsHaveRoom(a, es)
    ensures WellFormed(SecondPass(es, leftovers, a, root))
    ensures IdsHaveRoom(SecondPass(es, leftovers, a, root), es)
    ensures Total(SecondPass(es, leftovers, a, root)) == Total(a) + (if AnyRoom(es) then |leftovers| else 0)
    decreases |leftovers|
  {
    if leftovers != [] {
      match ClosestElevator(es, leftovers[0], root)
      case None =>
        SecondPassCounts(es, leftovers[1..], a, root);
      case Some(c) =>
        AppendSpec(a, c.id, leftovers[0].origin);
        AppendIds(a, c.id, leftovers[0].origin);
        SecondPassCounts(es, leftovers[1..], Append(a, c.id, leftovers[0].origin), root);
    }
  }

  /** SCAN assigns every request exactly once when some car has room and
      nothing otherwise, and never lists a car without room. */
  lemma SelectCallsCounts(es: seq<ElevatorSnapshot>, requests: seq<PendingRequest>, root: real -> real)
    ensures WellFormed(SelectCalls(es, requests, root))
    ensures Total(SelectCalls(es, requests, root)) == if AnyRoom(es) then |requests| else 0
    ensures forall id :: id in KeysOf(SelectCalls(es, requests, root)) ==>
      exists e :: e in es && e.id == id && AvailableCapacity(e) > 0
  {
    assert KeysOf<int, seq<int>>([]) == [];
    FirstPassCounts(es, es, requests, []);
    var first := FirstPass(es, requests, []);
    SecondPassCounts(es, first.1, first.0, root);
  }

  /** A sweep by a car with room adds exactly the origins of its path. */
  lemma {:induction false} SweepEntries(e: ElevatorSnapshot, path: seq<PendingRequest>,
                                        requests: seq<PendingRequest>, a: Assignments)
    requires AvailableCapacity(e) > 0
    ensures Entries(Sweep(e, path, requests, a).0) == Entries(a) + multiset(Origins(path))
    decreases |path|
  {
    if path != [] {
      var x := path[0];
      AppendEntries(a, e.id, x.origin);
      SweepEntries(e, path[1..], RemoveFirst(requests, x), Append(a, e.id, x.origin));
      assert Origins(path) == [x.origin] + Origins(path[1..]);
      assert multiset(Origins(path)) == multiset{x.origin} + multiset(Origins(path[1..]));
    }
  }

  /** The first pass loses no request: the origins it assigns and the origins
      of the requests it leaves open make up the origins it was given. */
  lemma {:induction false} FirstPassEntries(es: seq<ElevatorSnapshot>, requests: seq<PendingRequest>, a: Assignments)
    ensures Entries(FirstPass(es, requests, a).0) + multiset(Origins(FirstPass(es, requests, a).1))
         == Entries(a) + multiset(Origins(requests))
    decreases |es|
  {
    if es != [] {
      var e := es[0];
      var path := SweepPath(e, requests);
      var swept := Sweep(e, path, requests, a);
      if AvailableCapacity(e) > 0 {
        SweepEntries(e, path, requests, a);
        SweepLeftovers(e, path, requests, a);
        OriginsPermutation(path, Filter(requests, InPathOf(e)));
        OriginsSplit(requests, InPathOf(e), OffPathOf(e));
      }
      FirstPassEntries(es[1..], swept.1, swept.0);
    }
  }

  /** Car `id` is `_closest_elevator`'s pick for a request. */
  function ClosestIs(es: seq<ElevatorSnapshot>, root: real -> real, id: int): PendingRequest -> bool {
    (r: PendingRequest) => ClosestElevator(es, r, root).Some? && ClosestElevator(es, r, root).value.id == id
  }

  /** The second pass appends to car `id`'s list exactly the origins of the
      leftovers whose closest car it is, in leftover order. */
  lemma {:induction false} SecondPassLists(es: seq<ElevatorSnapshot>, leftovers: seq<PendingRequest>,
                                           a: Assignments, root: real -> real, id: int)
    requires WellFormed(a)
    ensures Get(SecondPass(es, leftovers, a, root), id) == Get(a, id) + Origins(Filter(leftovers, ClosestIs(es, root, id)))
    decreases |leftovers|
  {
    var p := ClosestIs(es, root, id);
    if leftovers == [] {
      assert Origins(Filter(leftovers, p)) == [];
      ConcatNil(Get(a, id));
    } else {
      var r := leftovers[0];
      var g, rest := Get(a, id), Filter(leftovers[1..], p);
      FilterCons(leftovers, p);
      match ClosestElevator(es, r, root)
      case None =>
        assert !p(r);
        assert SecondPass(es, leftovers, a, root) == SecondPass(es, leftovers[1..], a, root);
        SecondPassLists(es, leftovers[1..], a, root, id);
      case Some(c) =>
        var head := if c.id == id then [r] else [];
        assert p(r) <==> c.id == id;
        OriginsConcat(head, rest);
        var oh := Origins(head);
        assert oh == if c.id == id then [r.origin] else [];
        var a' := Append(a, c.id, r.origin);
        assert SecondPass(es, leftovers, a, root) == SecondPass(es, leftovers[1..], a', root);
        AppendSpec(a, c.id, r.origin);
        if c.id != id {
          ConcatNil(g);
        }
        assert Get(a', id) == g + oh;
        SecondPassLists(es, leftovers[1..], a', root, id);
        ConcatAssoc(g, oh, Origins(rest));
    }
  }


  /** With some car having room the second pass adds every leftover's origin;
      otherwise it adds nothing. */
  lemma {:induction false} SecondPassEntries(es: seq<ElevatorSnapshot>, leftovers: seq<PendingRequest>,
                                             a: Assignments, root: real -> real)
    ensures AnyRoom(es) ==> Entries(SecondPass(es, leftovers, a, root)) == Entries(a) + multiset(Origins(leftovers))
    ensures !AnyRoom(es) ==> SecondPass(es, leftovers, a, root) == a
    decreases |leftovers|
  {
    if leftovers != [] {
      var r := leftovers[0];
      assert Origins(leftovers) == [r.origin] + Origins(leftovers[1..]);
      assert multiset(Origins(leftovers)) == multiset{r.origin} + multiset(Origins(leftovers[1..]));
      match ClosestElevator(es, r, root)
      case None =>
        assert !AnyRoom(es);
        SecondPassEntries(es, leftovers[1..], a, root);
      case Some(c) =>
        assert AnyRoom(es);
        AppendEntries(a, c.id, r.origin);
        SecondPassEntries(es, leftovers[1..], Append(a, c.id, r.origin), root);
    }
  }

  /** What SCAN's `select_calls` returns: with some car having room, the
      entries over all lists are exactly the requests' origins, one per
      request; each car's list is its first-pass sweep followed by the origins
      of the leftovers whose closest car it is. With no room it is empty. */
  lemma SelectCallsContents(es: seq<ElevatorSnapshot>, requests: seq<PendingRequest>, root: real -> real)
    ensures AnyRoom(es) ==> Entries(SelectCalls(es, requests, root)) == multiset(Origins(requests))
    ensures !AnyRoom(es) ==> SelectCalls(es, requests, root) == []
    ensures var first := FirstPass(es, requests, []);
      forall id :: Get(SelectCalls(es, requests, root), id)
        == Get(first.0, id) + Origins(Filter(first.1, ClosestIs(es, root, id)))
  {
    assert KeysOf<int, seq<int>>([]) == [];
    var first := FirstPass(es, requests, []);
    FirstPassCounts(es, es, requests, []);
    FirstPassEntries(es, requests, []);
    SecondPassEntries(es, first.1, first.0, root);
    forall id ensures Get(SelectCalls(es, requests, root), id)
      == Get(first.0, id) + Origins(Filter(first.1, ClosestIs(es, root, id)))
    {
      SecondPassLists(es, first.1, first.0, root, id);
    }
  }
}
