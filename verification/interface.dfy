/** The scheduler-facing value types of src/scheduler/interface.py and the
    result every strategy builds: a dict from elevator id to a list of floor
    targets, kept in insertion order because Python dicts are. */
module Interface {
  import opened Wrappers
  import opened Seqs

  /** Frozen view of one car for a dispatch decision. Positions, speeds and
      accelerations are Python floats in LiftLogic and `real` here. */
  datatype ElevatorSnapshot = ElevatorSnapshot(
    id: int,
    position: real,
    direction: int,
    targets: seq<int>,
    load: int,
    capacity: int,
    cruiseSpeed: real,
    acceleration: real,
    doorDwell: int)

  /** `max(0, capacity - load)`. */
  function AvailableCapacity(e: ElevatorSnapshot): (r: int)
    ensures r >= 0
    ensures e.load <= e.capacity ==> r == e.capacity - e.load
    ensures e.load >= e.capacity ==> r == 0
  {
    if e.capacity - e.load > 0 then e.capacity - e.load else 0
  }

  /** Cars able to take `need` riders at once. */
  function Fits(need: int): ElevatorSnapshot -> bool {
    (e: ElevatorSnapshot) => AvailableCapacity(e) >= need
  }

  /** Cars with any room at all. */
  function HasRoom(): ElevatorSnapshot -> bool {
    (e: ElevatorSnapshot) => AvailableCapacity(e) > 0
  }

  /** Python's `abs` on ints, used for direction mismatch. */
  function AbsInt(x: int): nat {
    if x < 0 then -x else x
  }

  /** The reference definition of the two candidate tiers: a car is eligible
      for a request of `need` riders when it fits them, or, if no car of `es`
      fits them, when it has any room. */
  predicate Eligible(es: seq<ElevatorSnapshot>, need: int, e: ElevatorSnapshot) {
    if exists f :: f in es && AvailableCapacity(f) >= need
    then AvailableCapacity(e) >= need
    else AvailableCapacity(e) > 0
  }

  /** The candidate list of FCFS's `_choose_elevator` and of destination
      dispatch's `_best_elevator`, in building order. */
  function Candidates(es: seq<ElevatorSnapshot>, need: int): (c: seq<ElevatorSnapshot>)
    ensures forall e :: e in c <==> e in es && Eligible(es, need, e)
  {
    var fitting := Filter(es, Fits(need));
    if |fitting| > 0 then
      assert fitting[0] in fitting;
      fitting
    else
      assert fitting == [];
      assert forall f :: f in es ==> AvailableCapacity(f) < need;
      Filter(es, HasRoom())
  }

  /** One directional hall call: frozen, compared field by field. */
  datatype PendingRequest = PendingRequest(
    origin: int,
    direction: int,
    requestedAt: int,
    passengerCount: int,
    destinations: seq<int>)

  /** The requests' origins, in order. */
  function Origins(rs: seq<PendingRequest>): (os: seq<int>)
    ensures |os| == |rs|
    ensures forall i :: 0 <= i < |rs| ==> os[i] == rs[i].origin
  {
    if rs == [] then [] else [rs[0].origin] + Origins(rs[1..])
  }

  /** `Dict[int, List[int]]` as an association list in insertion order. */
  type Assignments = seq<(int, seq<int>)>

  /** Every elevator id occurs at most once, as in a dict. */
  predicate WellFormed(a: Assignments) {
    NoDup(KeysOf(a))
  }

  /** Every listed id belongs to a car of `es` with room. */
  predicate IdsHaveRoom(a: Assignments, es: seq<ElevatorSnapshot>) {
    forall id :: id in KeysOf(a) ==> exists e :: e in es && e.id == id && AvailableCapacity(e) > 0
  }

  /** `a.get(id, [])`. */
  function Get(a: Assignments, id: int): (l: seq<int>)
    ensures id !in KeysOf(a) ==> l == []
  {
    if a == [] then []
    else if a[0].0 == id then a[0].1
    else Get(a[1..], id)
  }

  /** The number of floor entries over all lists. */
  function Total(a: Assignments): nat {
    if a == [] then 0 else |a[0].1| + Total(a[1..])
  }

  /** Every floor entry over all lists, with its multiplicity. */
  function Entries(a: Assignments): (m: multiset<int>)
    ensures |m| == Total(a)
  {
    if a == [] then multiset{} else multiset(a[0].1) + Entries(a[1..])
  }

  lemma OriginsConcat(s: seq<PendingRequest>, t: seq<PendingRequest>)
    ensures Origins(s + t) == Origins(s) + Origins(t)
  {
    var l, r := Origins(s + t), Origins(s) + Origins(t);
    assert |l| == |r|;
    forall i | 0 <= i < |l| ensures l[i] == r[i] {
      if i < |s| {
        assert (s + t)[i] == s[i] && r[i] == Origins(s)[i];
      } else {
        assert (s + t)[i] == t[i - |s|] && r[i] == Origins(t)[i - |s|];
      }
    }
  }



  /** The origins of one more request: its floor joins the multiset. */
  lemma OriginsCons(r: PendingRequest, rest: seq<PendingRequest>)
    ensures multiset(Origins([r] + rest)) == multiset{r.origin} + multiset(Origins(rest))
  {
    assert Origins([r] + rest) == [r.origin] + Origins(rest);
  }

  function AtOrigin(o: int): PendingRequest -> bool {
    (r: PendingRequest) => r.origin == o
  }

  /** A floor occurs among the origins once per request from that floor. */
  lemma {:induction false} OriginsCount(s: seq<PendingRequest>, o: int)
    ensures multiset(Origins(s))[o] == Count(s, AtOrigin(o))
  {
    if s != [] {
      OriginsCount(s[1..], o);
      assert Origins(s) == [s[0].origin] + Origins(s[1..]);
    }
  }

  /** Reordering requests reorders their origins. */
  lemma OriginsPermutation(s: seq<PendingRequest>, t: seq<PendingRequest>)
    requires multiset(s) == multiset(t)
    ensures multiset(Origins(s)) == multiset(Origins(t))
  {
    forall o ensures multiset(Origins(s))[o] == multiset(Origins(t))[o] {
      OriginsCount(s, o);
      OriginsCount(t, o);
      CountPermutation(s, t, AtOrigin(o));
    }
  }

  /** The origins of the two halves of a split make up all the origins. */
  lemma {:induction false} OriginsSplit(s: seq<PendingRequest>, p: PendingRequest -> bool, q: PendingRequest -> bool)
    requires forall x :: q(x) == !p(x)
    ensures multiset(Origins(Filter(s, p))) + multiset(Origins(Filter(s, q))) == multiset(Origins(s))
  {
    var a, b := Filter(s, p), Filter(s, q);
    FilterMultiset(s, p);
    FilterMultiset(s, q);
    forall x ensures multiset(a + b)[x] == multiset(s)[x] {
      assert multiset(a + b)[x] == multiset(a)[x] + multiset(b)[x];
    }
    assert multiset(a + b) == multiset(s);
    OriginsConcat(a, b);
    OriginsPermutation(a + b, s);
  }

  /** `a.setdefault(id, [])` followed by replacing that list with `f` of it.
      Python appends a new key at the end of the dict. */
  function Update(a: Assignments, id: int, f: seq<int> -> seq<int>): (r: Assignments)
  {
    if a == [] then [(id, f([]))]
    else if a[0].0 == id then [(id, f(a[0].1))] + a[1..]
    else [a[0]] + Update(a[1..], id, f)
  }

  lemma {:induction false} UpdateGet(a: Assignments, id: int, f: seq<int> -> seq<int>)
    ensures Get(Update(a, id, f), id) == f(Get(a, id))
    ensures forall other :: other != id ==> Get(Update(a, id, f), other) == Get(a, other)
  {
    if a != [] && a[0].0 != id {
      UpdateGet(a[1..], id, f);
      assert Update(a, id, f)[1..] == Update(a[1..], id, f);
    }
  }

  lemma {:induction false} UpdateIds(a: Assignments, id: int, f: seq<int> -> seq<int>)
    ensures id in KeysOf(a) ==> KeysOf(Update(a, id, f)) == KeysOf(a)
    ensures id !in KeysOf(a) ==> KeysOf(Update(a, id, f)) == KeysOf(a) + [id]
  {
    if a != [] {
      var r := Update(a, id, f);
      assert KeysOf(a) == [a[0].0] + KeysOf(a[1..]);
      if a[0].0 != id {
        UpdateIds(a[1..], id, f);
        assert r[1..] == Update(a[1..], id, f);
        assert KeysOf(r) == [a[0].0] + KeysOf(r[1..]);
      } else {
        assert KeysOf(r) == [id] + KeysOf(a[1..]);
      }
    }
  }

  lemma {:induction false} UpdateTotal(a: Assignments, id: int, f: seq<int> -> seq<int>)
    ensures Total(Update(a, id, f)) + |Get(a, id)| == Total(a) + |f(Get(a, id))|
  {
    if a != [] && a[0].0 != id {
      UpdateTotal(a[1..], id, f);
      assert Update(a, id, f)[1..] == Update(a[1..], id, f);
    }
  }

  lemma {:induction false} UpdateEntries(a: Assignments, id: int, f: seq<int> -> seq<int>)
    ensures Entries(Update(a, id, f)) + multiset(Get(a, id)) == Entries(a) + multiset(f(Get(a, id)))
  {
    var r := Update(a, id, f);
    if a == [] {
      assert r == [(id, f([]))] && r[1..] == [];
      assert Entries(r) == multiset(f([])) + Entries([]);
    } else if a[0].0 == id {
      assert r[0] == (id, f(a[0].1)) && r[1..] == a[1..];
      assert Entries(r) == multiset(f(a[0].1)) + Entries(a[1..]);
      assert Entries(a) == multiset(a[0].1) + Entries(a[1..]);
    } else {
      UpdateEntries(a[1..], id, f);
      assert r[0] == a[0] && r[1..] == Update(a[1..], id, f);
      var m, g := multiset(a[0].1), Get(a, id);
      assert g == Get(a[1..], id);
      assert Entries(r) == m + Entries(r[1..]);
      assert Entries(a) == m + Entries(a[1..]);
      assert Entries(r[1..]) + multiset(g) == Entries(a[1..]) + multiset(f(g));
      assert (m + Entries(r[1..])) + multiset(g) == m + (Entries(r[1..]) + multiset(g));
      assert (m + Entries(a[1..])) + multiset(f(g)) == m + (Entries(a[1..]) + multiset(f(g)));
    }
  }

  /** What `Update` does: the list of `id` becomes `f` of its old value (the
      empty list when absent), a new id goes last, nothing else changes. */
  lemma UpdateSpec(a: Assignments, id: int, f: seq<int> -> seq<int>)
    requires WellFormed(a)
    ensures WellFormed(Update(a, id, f))
    ensures Get(Update(a, id, f), id) == f(Get(a, id))
    ensures forall other :: other != id ==> Get(Update(a, id, f), other) == Get(a, other)
    ensures id in KeysOf(a) ==> KeysOf(Update(a, id, f)) == KeysOf(a)
    ensures id !in KeysOf(a) ==> KeysOf(Update(a, id, f)) == KeysOf(a) + [id]
    ensures Total(Update(a, id, f)) + |Get(a, id)| == Total(a) + |f(Get(a, id))|
  {
    UpdateGet(a, id, f);
    UpdateIds(a, id, f);
    UpdateTotal(a, id, f);
    var ids := KeysOf(a);
    if id !in ids {
      assert NoDup(ids + [id]) by {
        forall i, j | 0 <= i < j < |ids + [id]| ensures (ids + [id])[i] != (ids + [id])[j] {
          if j == |ids| {
            assert (ids + [id])[i] == ids[i];
            assert ids[i] in ids;
          }
        }
      }
    }
  }

  /** `a.setdefault(id, []).append(x)`. */
  function Append(a: Assignments, id: int, x: int): Assignments {
    Update(a, id, l => l + [x])
  }

  /** Appending adds no id other than its own. */
  lemma {:induction false} AppendIds(a: Assignments, id: int, x: int)
    ensures forall y :: y in KeysOf(Append(a, id, x)) ==> y in KeysOf(a) || y == id
  {
    if a != [] && a[0].0 != id {
      AppendIds(a[1..], id, x);
      var r := Append(a, id, x);
      assert r[1..] == Append(a[1..], id, x);
      assert KeysOf(r) == [a[0].0] + KeysOf(r[1..]);
      assert KeysOf(a) == [a[0].0] + KeysOf(a[1..]);
    } else if a != [] {
      assert KeysOf(Append(a, id, x)) == [id] + KeysOf(a[1..]);
      assert KeysOf(a) == [id] + KeysOf(a[1..]);
    }
  }

  /** One served request appends its origin to exactly one list, even when
      that list already holds the floor, and leaves the others alone. */
  lemma AppendSpec(a: Assignments, id: int, x: int)
    requires WellFormed(a)
    ensures WellFormed(Append(a, id, x))
    ensures Get(Append(a, id, x), id) == Get(a, id) + [x]
    ensures forall other :: other != id ==> Get(Append(a, id, x), other) == Get(a, other)
    ensures Total(Append(a, id, x)) == Total(a) + 1
  {
    UpdateSpec(a, id, l => l + [x]);
  }

  /** Appending adds exactly its floor to the entries. */
  lemma AppendEntries(a: Assignments, id: int, x: int)
    ensures Entries(Append(a, id, x)) == Entries(a) + multiset{x}
  {
    var g := Get(a, id);
    UpdateEntries(a, id, l => l + [x]);
    var e := Entries(Append(a, id, x));
    assert e + multiset(g) == Entries(a) + multiset(g + [x]);
    assert multiset(g + [x]) == multiset(g) + multiset{x};
    forall y ensures e[y] == (Entries(a) + multiset{x})[y] {
      assert (e + multiset(g))[y] == e[y] + multiset(g)[y];
      assert (Entries(a) + multiset(g + [x]))[y] == Entries(a)[y] + multiset(g)[y] + multiset{x}[y];
    }
  }

  /** Appending adds exactly one entry. */
  lemma AppendTotal(a: Assignments, id: int, x: int)
    ensures Total(Append(a, id, x)) == Total(a) + 1
  {
    UpdateTotal(a, id, l => l + [x]);
  }

  /** `a.setdefault(id, [])`. */
  function SetDefault(a: Assignments, id: int): Assignments {
    Update(a, id, l => l)
  }

  /** `if x not in a[id]: a[id].append(x)` after a `setdefault`. */
  function AppendIfAbsent(a: Assignments, id: int, x: int): Assignments {
    Update(a, id, l => AddIfAbsent(l, x))
  }

}
