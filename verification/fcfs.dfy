/** src/scheduler/fcfs.py: first-come-first-served dispatch. Requests are
    served oldest first; each goes to the best car among those that can take
    the whole group (or, failing that, any car with room), and the car's target
    list in the working copy of the snapshots grows before the next request. */
module Fcfs {
  import opened Wrappers
  import opened Seqs
  import opened Sorting
  import opened Keys
  import opened Interface
  import opened Travel

  /** `(estimate_travel_time(e, origin), len(e.targets), abs(e.direction - request.direction))`. */
  function ChoiceKey(request: PendingRequest, root: real -> real): ElevatorSnapshot -> Key {
    (e: ElevatorSnapshot) => Key(EstimateTravelTime(e, request.origin, root), |e.targets|, AbsInt(e.direction - request.direction))
  }

  /** `_choose_elevator`: the first eligible car, in building order, whose key
      is minimal; None exactly when no car fits the group and none has room.
      Which car that is, is stated by `ChooseElevatorMinimal`. */
  function ChooseElevator(es: seq<ElevatorSnapshot>, request: PendingRequest, root: real -> real)
    : (r: Option<ElevatorSnapshot>)
    ensures r.None? <==> forall e :: e in es ==> AvailableCapacity(e) < request.passengerCount && AvailableCapacity(e) <= 0
    ensures r.Some? ==> r.value in es && Eligible(es, request.passengerCount, r.value)
  {
    var c := Candidates(es, request.passengerCount);
    assert |c| == 0 ==> forall e :: e in es ==> AvailableCapacity(e) < request.passengerCount && AvailableCapacity(e) <= 0;
    assert (exists e :: e in es && (AvailableCapacity(e) >= request.passengerCount || AvailableCapacity(e) > 0))
      ==> |c| > 0 by {
      if e :| e in es && (AvailableCapacity(e) >= request.passengerCount || AvailableCapacity(e) > 0) {
        if !Eligible(es, request.passengerCount, e) {
          var f :| f in es && AvailableCapacity(f) >= request.passengerCount;
          assert f in c;
        } else {
          assert e in c;
        }
      }
    }
    var r := FirstMin(c, ChoiceKey(request, root));
    if r.Some? then
      assert c[0] in c;
      r
    else r
  }

  /** The chosen car minimises the key over every eligible car, and it is the
      first minimal one among the candidates in building order. */
  lemma ChooseElevatorMinimal(es: seq<ElevatorSnapshot>, request: PendingRequest, root: real -> real)
    requires ChooseElevator(es, request, root).Some?
    ensures var r := ChooseElevator(es, request, root).value;
      forall e :: e in es && Eligible(es, request.passengerCount, e) ==>
        !KeyLt(ChoiceKey(request, root)(e), ChoiceKey(request, root)(r))
    ensures exists i ::
      IsFirstMin(Candidates(es, request.passengerCount), ChoiceKey(request, root), i)
      && Candidates(es, request.passengerCount)[i] == ChooseElevator(es, request, root).value
  {
    var c := Candidates(es, request.passengerCount);
    assert forall e :: e in c ==> exists j :: 0 <= j < |c| && c[j] == e;
  }

  /** `_update_snapshot`: the working copy of the cars after `chosen` took a
      request. Every car with the chosen id gets the origin appended to its
      targets when absent; nothing else changes. */
  function UpdateSnapshot(es: seq<ElevatorSnapshot>, chosen: ElevatorSnapshot, request: PendingRequest)
    : (r: seq<ElevatorSnapshot>)
    ensures |r| == |es|
    ensures forall i :: 0 <= i < |es| && es[i].id != chosen.id ==> r[i] == es[i]
    ensures forall i :: 0 <= i < |es| && es[i].id == chosen.id ==>
      r[i] == es[i].(targets := AddIfAbsent(es[i].targets, request.origin))
  {
    if es == [] then []
    else
      var e := es[0];
      var e' := if e.id == chosen.id then e.(targets := AddIfAbsent(e.targets, request.origin)) else e;
      [e'] + UpdateSnapshot(es[1..], chosen, request)
  }

  /** The working copy `es` still describes the cars `es0`: same order, ids,
      loads and capacities, so the same available capacities. */
  predicate SameCars(es: seq<ElevatorSnapshot>, es0: seq<ElevatorSnapshot>) {
    && |es| == |es0|
    && forall i :: 0 <= i < |es| ==>
         es[i].id == es0[i].id && es[i].load == es0[i].load && es[i].capacity == es0[i].capacity
  }

  /** Some car of `es` can take the request in one of the two tiers. */
  predicate Serviceable(es: seq<ElevatorSnapshot>, request: PendingRequest) {
    exists e :: e in es && (AvailableCapacity(e) >= request.passengerCount || AvailableCapacity(e) > 0)
  }

  function ServiceableIn(es: seq<ElevatorSnapshot>): PendingRequest -> bool {
    (r: PendingRequest) => Serviceable(es, r)
  }

  /** The loop of `select_calls` over the age-sorted requests, threading the
      assignments and the working snapshots. */
  function Cycle(es: seq<ElevatorSnapshot>, requests: seq<PendingRequest>, a: Assignments, root: real -> real)
    : (Assignments, seq<ElevatorSnapshot>)
    decreases |requests|
  {
    if requests == [] then (a, es)
    else
      match ChooseElevator(es, requests[0], root)
      case None => Cycle(es, requests[1..], a, root)
      case Some(c) =>
        Cycle(UpdateSnapshot(es, c, requests[0]), requests[1..], Append(a, c.id, requests[0].origin), root)
  }

  /** Requests oldest first; ties keep their input order. */
  function ByAge(): PendingRequest -> int {
    (r: PendingRequest) => r.requestedAt
  }

  /** `FirstComeFirstServedScheduler.select_calls`. */
  function SelectCalls(es: seq<ElevatorSnapshot>, requests: seq<PendingRequest>, root: real -> real)
    : Assignments
  {
    Cycle(es, SortBy(requests, ByAge()), [], root).0
  }

  /** The order in which `select_calls` considers requests: a permutation of
      them by non-decreasing `requested_at`, equal ages in input order. */
  lemma ServiceOrder(requests: seq<PendingRequest>)
    ensures multiset(SortBy(requests, ByAge())) == multiset(requests)
    ensures forall i, j :: 0 <= i < j < |requests| ==>
      SortBy(requests, ByAge())[i].requestedAt <= SortBy(requests, ByAge())[j].requestedAt
    ensures StableWrt(SortBy(requests, ByAge()), requests, ByAge())
  {
    var r := SortBy(requests, ByAge());
    assert forall i, j :: 0 <= i < j < |r| ==> ByAge()(r[i]) <= ByAge()(r[j]);
  }

  /** The working copy never changes which cars exist or how much room they have. */
  lemma UpdateKeepsCars(es: seq<ElevatorSnapshot>, es0: seq<ElevatorSnapshot>, c: ElevatorSnapshot, request: PendingRequest)
    requires SameCars(es, es0)
    ensures SameCars(UpdateSnapshot(es, c, request), es0)
  {
  }

  lemma SameCarsServiceable(es: seq<ElevatorSnapshot>, es0: seq<ElevatorSnapshot>, request: PendingRequest)
    requires SameCars(es, es0)
    ensures Serviceable(es, request) <==> Serviceable(es0, request)
  {
    if Serviceable(es, request) {
      var e :| e in es && (AvailableCapacity(e) >= request.passengerCount || AvailableCapacity(e) > 0);
      var i :| 0 <= i < |es| && es[i] == e;
      assert AvailableCapacity(es0[i]) == AvailableCapacity(e);
      assert es0[i] in es0;
    }
    if Serviceable(es0, request) {
      var e :| e in es0 && (AvailableCapacity(e) >= request.passengerCount || AvailableCapacity(e) > 0);
      var i :| 0 <= i < |es0| && es0[i] == e;
      assert AvailableCapacity(es[i]) == AvailableCapacity(e);
      assert es[i] in es;
    }
  }

  /** The loop keeps the assignments a dict. */
  lemma {:induction false} CycleWellFormed(es: seq<ElevatorSnapshot>, requests: seq<PendingRequest>,
                                           a: Assignments, root: real -> real)
    requires WellFormed(a)
    ensures WellFormed(Cycle(es, requests, a, root).0)
    decreases |requests|
  {
    if requests != [] {
      match ChooseElevator(es, requests[0], root)
      case None =>
        CycleWellFormed(es, requests[1..], a, root);
      case Some(c) =>
        AppendSpec(a, c.id, requests[0].origin);
        CycleWellFormed(UpdateSnapshot(es, c, requests[0]), requests[1..], Append(a, c.id, requests[0].origin), root);
    }
  }

  /** Every request of the loop that some car can take adds exactly one entry. */
  lemma CycleTotal(es: seq<ElevatorSnapshot>, es0: seq<ElevatorSnapshot>,
                    requests: seq<PendingRequest>, a: Assignments, root: real -> real)
    requires SameCars(es, es0)
    ensures Total(Cycle(es, requests, a, root).0) == Total(a) + Count(requests, ServiceableIn(es0))
  {
    var m := multiset(Origins(Filter(requests, ServiceableIn(es0))));
    CycleEntries(es, es0, requests, a, root);
    assert |Entries(a) + m| == |Entries(a)| + |m|;
  }


  /** The number of entries `select_calls` returns is the number of requests
      some car can take. */
  lemma SelectCallsTotal(es: seq<ElevatorSnapshot>, requests: seq<PendingRequest>, root: real -> real)
    ensures WellFormed(SelectCalls(es, requests, root))
    ensures Total(SelectCalls(es, requests, root)) == Count(requests, ServiceableIn(es))
  {
    var sorted := SortBy(requests, ByAge());
    assert KeysOf<int, seq<int>>([]) == [];
    CycleWellFormed(es, sorted, [], root);
    CycleTotal(es, es, sorted, [], root);
    CountPermutation(sorted, requests, ServiceableIn(es));
  }

  /** When some car has room, every request adds exactly one entry. */
  lemma SelectCallsServesAll(es: seq<ElevatorSnapshot>, requests: seq<PendingRequest>, root: real -> real)
    requires exists e :: e in es && AvailableCapacity(e) > 0
    ensures Total(SelectCalls(es, requests, root)) == |requests|
  {
    var e :| e in es && AvailableCapacity(e) > 0;
    forall i | 0 <= i < |requests| ensures ServiceableIn(es)(requests[i]) {
      assert Serviceable(es, requests[i]);
    }
    FilterAll(requests, ServiceableIn(es));
    SelectCallsTotal(es, requests, root);
  }

  /** When no car has room and every request has a rider, nothing is assigned. */
  lemma SelectCallsServesNone(es: seq<ElevatorSnapshot>, requests: seq<PendingRequest>, root: real -> real)
    requires forall e :: e in es ==> AvailableCapacity(e) == 0
    requires forall r :: r in requests ==> r.passengerCount >= 1
    ensures Total(SelectCalls(es, requests, root)) == 0
  {
    SelectCallsTotal(es, requests, root);
    FilterNone(requests, ServiceableIn(es));
  }

  /** Every id in the loop's result belongs to a car that had room for the
      request it won (when requests carry riders, a car with room). */
  lemma {:induction false} CycleIdsHaveRoom(es: seq<ElevatorSnapshot>, es0: seq<ElevatorSnapshot>,
                                            requests: seq<PendingRequest>, a: Assignments, root: real -> real)
    requires SameCars(es, es0)
    requires forall r :: r in requests ==> r.passengerCount >= 1
    requires IdsHaveRoom(a, es0)
    ensures IdsHaveRoom(Cycle(es, requests, a, root).0, es0)
    decreases |requests|
  {
    if requests != [] {
      match ChooseElevator(es, requests[0], root)
      case None =>
        CycleIdsHaveRoom(es, es0, requests[1..], a, root);
      case Some(c) =>
        var i :| 0 <= i < |es| && es[i] == c;
        var winner := es0[i];
        assert winner in es0 && winner.id == c.id && AvailableCapacity(winner) > 0 by {
          assert AvailableCapacity(winner) == AvailableCapacity(c);
        }
        var a' := Append(a, c.id, requests[0].origin);
        AppendIds(a, c.id, requests[0].origin);
        assert IdsHaveRoom(a', es0) by {
          forall id | id in KeysOf(a')
            ensures exists e :: e in es0 && e.id == id && AvailableCapacity(e) > 0
          {
            if id == c.id {
              assert winner in es0 && winner.id == id && AvailableCapacity(winner) > 0;
            }
          }
        }
        CycleIdsHaveRoom(UpdateSnapshot(es, c, requests[0]), es0, requests[1..], a', root);
    }
  }

  /** A car with no room never appears in the FCFS result when every request
      has at least one rider. */
  lemma NoRoomNoAssignment(es: seq<ElevatorSnapshot>, requests: seq<PendingRequest>, root: real -> real)
    requires forall r :: r in requests ==> r.passengerCount >= 1
    ensures forall id :: id in KeysOf(SelectCalls(es, requests, root)) ==>
      exists e :: e in es && e.id == id && AvailableCapacity(e) > 0
  {
    var sorted := SortBy(requests, ByAge());
    assert forall r :: r in sorted ==> r in multiset(requests);
    CycleIdsHaveRoom(es, es, sorted, [], root);
  }

  /** The working copy once `request` has been considered. */
  function Next(es: seq<ElevatorSnapshot>, request: PendingRequest, root: real -> real): seq<ElevatorSnapshot> {
    match ChooseElevator(es, request, root)
    case None => es
    case Some(c) => UpdateSnapshot(es, c, request)
  }

  /** The working copies the loop holds as the requests come up:
      `Working(es, requests, root)[i]` is what `_choose_elevator` sees for
      `requests[i]`. */
  function Working(es: seq<ElevatorSnapshot>, requests: seq<PendingRequest>, root: real -> real)
    : (ws: seq<seq<ElevatorSnapshot>>)
    ensures |ws| == |requests|
    decreases |requests|
  {
    if requests == [] then [] else [es] + Working(Next(es, requests[0], root), requests[1..], root)
  }

  /** Car `id` is `_choose_elevator`'s pick for `request` on the working copy `ws`. */
  predicate Wins(ws: seq<ElevatorSnapshot>, request: PendingRequest, root: real -> real, id: int) {
    ChooseElevator(ws, request, root).Some? && ChooseElevator(ws, request, root).value.id == id
  }

  /** The origins, in service order, of the requests that car `id` wins on
      their working copies. */
  function WonOrigins(ws: seq<seq<ElevatorSnapshot>>, requests: seq<PendingRequest>, root: real -> real, id: int)
    : (os: seq<int>)
    requires |ws| == |requests|
    ensures |os| <= |requests|
  {
    if requests == [] then []
    else
      var head := if Wins(ws[0], requests[0], root, id) then [requests[0].origin] else [];
      head + WonOrigins(ws[1..], requests[1..], root, id)
  }

  /** A request finds a car exactly when some car can take it. */
  lemma ChooseIffServiceable(es: seq<ElevatorSnapshot>, request: PendingRequest, root: real -> real)
    ensures ChooseElevator(es, request, root).Some? <==> Serviceable(es, request)
  {
  }

  /** Every working copy describes the same cars. */
  lemma {:induction false} WorkingSameCars(es: seq<ElevatorSnapshot>, es0: seq<ElevatorSnapshot>,
                                           requests: seq<PendingRequest>, root: real -> real)
    requires SameCars(es, es0)
    ensures forall i :: 0 <= i < |requests| ==> SameCars(Working(es, requests, root)[i], es0)
    decreases |requests|
  {
    if requests != [] {
      var ws := Working(es, requests, root);
      var n := Next(es, requests[0], root);
      assert SameCars(n, es0) by {
        match ChooseElevator(es, requests[0], root)
        case None =>
        case Some(c) => UpdateKeepsCars(es, es0, c, requests[0]);
      }
      WorkingSameCars(n, es0, requests[1..], root);
      assert ws[1..] == Working(n, requests[1..], root);
      forall i | 1 <= i < |requests| ensures SameCars(ws[i], es0) {
        assert ws[i] == ws[1..][i - 1];
      }
    }
  }

  /** Every working copy describes the same cars, so a request finds a car
      on its working copy exactly when some car could take it at the start. */
  lemma WorkingKeepsCars(es: seq<ElevatorSnapshot>, requests: seq<PendingRequest>, root: real -> real)
    ensures forall i :: 0 <= i < |requests| ==> SameCars(Working(es, requests, root)[i], es)
    ensures forall i :: 0 <= i < |requests| ==>
      (ChooseElevator(Working(es, requests, root)[i], requests[i], root).Some? <==> Serviceable(es, requests[i]))
  {
    var ws := Working(es, requests, root);
    WorkingSameCars(es, es, requests, root);
    forall i | 0 <= i < |requests|
      ensures ChooseElevator(ws[i], requests[i], root).Some? <==> Serviceable(es, requests[i])
    {
      ChooseIffServiceable(ws[i], requests[i], root);
      SameCarsServiceable(ws[i], es, requests[i]);
    }
  }

  /** The loop appends to car `id`'s list exactly the origins of the requests
      it wins, in service order. */
  lemma {:induction false} CycleLists(es: seq<ElevatorSnapshot>, requests: seq<PendingRequest>, a: Assignments,
                                      root: real -> real, id: int)
    requires WellFormed(a)
    ensures Get(Cycle(es, requests, a, root).0, id) == Get(a, id) + WonOrigins(Working(es, requests, root), requests, root, id)
    decreases |requests|
  {
    if requests == [] {
      assert Get(a, id) + [] == Get(a, id);
    } else {
      var r := requests[0];
      var ws := Working(es, requests, root);
      var n := Next(es, r, root);
      assert ws[0] == es && ws[1..] == Working(n, requests[1..], root);
      var g, rest := Get(a, id), WonOrigins(ws[1..], requests[1..], root, id);
      match ChooseElevator(es, r, root)
      case None =>
        assert !Wins(es, r, root, id);
        assert WonOrigins(ws, requests, root, id) == rest;
        assert Cycle(es, requests, a, root) == Cycle(n, requests[1..], a, root);
        CycleLists(n, requests[1..], a, root, id);
      case Some(c) =>
        var a' := Append(a, c.id, r.origin);
        var head := if c.id == id then [r.origin] else [];
        assert Wins(es, r, root, id) <==> c.id == id;
        assert WonOrigins(ws, requests, root, id) == head + rest;
        assert Cycle(es, requests, a, root) == Cycle(n, requests[1..], a', root);
        AppendSpec(a, c.id, r.origin);
        assert Get(a', id) == g + head;
        CycleLists(n, requests[1..], a', root, id);
        ConcatAssoc(g, head, rest);
    }
  }


  /** The loop's entries are the origins of the requests some car can take,
      each once. */
  lemma {:induction false} CycleEntries(es: seq<ElevatorSnapshot>, es0: seq<ElevatorSnapshot>,
                                        requests: seq<PendingRequest>, a: Assignments, root: real -> real)
    requires SameCars(es, es0)
    ensures Entries(Cycle(es, requests, a, root).0) == Entries(a) + multiset(Origins(Filter(requests, ServiceableIn(es0))))
    decreases |requests|
  {
    if requests == [] {
      assert multiset(Origins(Filter(requests, ServiceableIn(es0)))) == multiset{};
    } else {
      var r := requests[0];
      SameCarsServiceable(es, es0, r);
      var rest := Filter(requests[1..], ServiceableIn(es0));
      FilterCons(requests, ServiceableIn(es0));
      ChooseIffServiceable(es, r, root);
      match ChooseElevator(es, r, root)
      case None =>
        CycleEntries(es, es0, requests[1..], a, root);
        assert Filter(requests, ServiceableIn(es0)) == rest;
      case Some(c) =>
        AppendEntries(a, c.id, r.origin);
        UpdateKeepsCars(es, es0, c, r);
        CycleEntries(UpdateSnapshot(es, c, r), es0, requests[1..], Append(a, c.id, r.origin), root);
        assert Filter(requests, ServiceableIn(es0)) == [r] + rest;
        OriginsCons(r, rest);
        UnionAssoc(Entries(a), multiset{r.origin}, multiset(Origins(rest)));
    }
  }

  /** What `select_calls` returns: each car's list holds exactly the origins
      of the requests it wins, oldest first, and over all lists each request
      some car can take contributes its origin once. */
  lemma SelectCallsContents(es: seq<ElevatorSnapshot>, requests: seq<PendingRequest>, root: real -> real)
    ensures var order := SortBy(requests, ByAge());
      forall id :: Get(SelectCalls(es, requests, root), id) == WonOrigins(Working(es, order, root), order, root, id)
    ensures var order := SortBy(requests, ByAge());
      forall i :: 0 <= i < |order| ==>
        (ChooseElevator(Working(es, order, root)[i], order[i], root).Some? <==> Serviceable(es, order[i]))
    ensures Entries(SelectCalls(es, requests, root)) == multiset(Origins(Filter(requests, ServiceableIn(es))))
  {
    var order := SortBy(requests, ByAge());
    SelectCallsLists(es, requests, root);
    WorkingKeepsCars(es, order, root);
    SelectCallsEntries(es, requests, root);
  }

  lemma SelectCallsLists(es: seq<ElevatorSnapshot>, requests: seq<PendingRequest>, root: real -> real)
    ensures var order := SortBy(requests, ByAge());
      forall id :: Get(SelectCalls(es, requests, root), id) == WonOrigins(Working(es, order, root), order, root, id)
  {
    var order := SortBy(requests, ByAge());
    assert KeysOf<int, seq<int>>([]) == [];
    forall id ensures Get(SelectCalls(es, requests, root), id) == WonOrigins(Working(es, order, root), order, root, id) {
      CycleLists(es, order, [], root, id);
      assert Get([], id) + WonOrigins(Working(es, order, root), order, root, id) == WonOrigins(Working(es, order, root), order, root, id);
    }
  }

  lemma SelectCallsEntries(es: seq<ElevatorSnapshot>, requests: seq<PendingRequest>, root: real -> real)
    ensures Entries(SelectCalls(es, requests, root)) == multiset(Origins(Filter(requests, ServiceableIn(es))))
  {
    var order := SortBy(requests, ByAge());
    var p := ServiceableIn(es);
    CycleEntries(es, es, order, [], root);
    assert Entries([]) + multiset(Origins(Filter(order, p))) == multiset(Origins(Filter(order, p)));
    FilterPermutation(order, requests, p);
    OriginsPermutation(Filter(order, p), Filter(requests, p));
  }

}
