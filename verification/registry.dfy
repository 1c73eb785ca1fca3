/** src/scheduler/__init__.py: the scheduler registry and `get_scheduler`,
    plus one entry point that runs whichever strategy was built. */
module Registry {
  import opened Wrappers
  import opened Seqs
  import opened Interface
  import Fcfs
  import Scan
  import DestinationDispatch

  /** The three registered strategy classes. */
  datatype SchedulerClass = FcfsClass | ScanClass | DestinationDispatchClass

  /** A built scheduler. Only destination dispatch carries configuration. */
  datatype Scheduler =
    | FirstComeFirstServed
    | ScanScheduler
    | DestinationDispatchScheduler(clusterSize: DestinationDispatch.ClusterSize)

  /** Why `get_scheduler` raised: an unknown name (`ValueError`) or a keyword
      argument the class's constructor does not take (`TypeError`). */
  datatype RegistryError = UnknownScheduler(message: string) | UnexpectedKeyword(keyword: string)

  /** `SCHEDULER_REGISTRY`, in insertion order. */
  const Registry: seq<(string, SchedulerClass)> := [
    ("fcfs", FcfsClass),
    ("scan", ScanClass),
    ("destination_dispatch", DestinationDispatchClass)
  ]

  /** The default `cluster_size` of `DestinationDispatchScheduler.__init__`. */
  const DefaultClusterSize := 3

  /** `', '.join(names)`. */
  function Join(names: seq<string>): string {
    if names == [] then ""
    else if |names| == 1 then names[0]
    else names[0] + ", " + Join(names[1..])
  }

  /** `str.lower()` on one character, for the ASCII letters. */
  function LowerChar(c: char): (d: char)
    ensures 'A' <= c <= 'Z' ==> d as int == c as int + 32
    ensures !('A' <= c <= 'Z') ==> d == c
    ensures !('A' <= d <= 'Z')
  {
    if 'A' <= c <= 'Z' then (c as int + 32) as char else c
  }

  function Lower(s: string): (t: string)
    ensures |t| == |s|
    ensures forall i :: 0 <= i < |s| ==> t[i] == LowerChar(s[i])
  {
    if s == [] then [] else [LowerChar(s[0])] + Lower(s[1..])
  }

  /** `dict.get(key)` on an association list. */
  function Lookup(r: seq<(string, SchedulerClass)>, key: string): (c: Option<SchedulerClass>)
    ensures c.None? <==> key !in KeysOf(r)
    ensures c.Some? ==> exists i :: 0 <= i < |r| && r[i] == (key, c.value)
  {
    if r == [] then None
    else if r[0].0 == key then Some(r[0].1)
    else
      var c := Lookup(r[1..], key);
      assert KeysOf(r) == [r[0].0] + KeysOf(r[1..]);
      if c.Some? then
        var i :| 0 <= i < |r[1..]| && r[1..][i] == (key, c.value);
        assert r[i + 1] == (key, c.value);
        c
      else c
  }

  /** `cls(**kwargs)` where the only keyword any caller passes is
      `cluster_size`; FCFS and SCAN take no arguments. */
  function Construct(c: SchedulerClass, clusterSize: Option<int>): Result<Scheduler, RegistryError> {
    match c
    case FcfsClass => if clusterSize.Some? then Err(UnexpectedKeyword("cluster_size")) else Ok(FirstComeFirstServed)
    case ScanClass => if clusterSize.Some? then Err(UnexpectedKeyword("cluster_size")) else Ok(ScanScheduler)
    case DestinationDispatchClass =>
      Ok(DestinationDispatchScheduler(AtLeastOne(clusterSize.GetOr(DefaultClusterSize))))
  }

  /** `get_scheduler(name, **kwargs)`. */
  function GetScheduler(name: string, clusterSize: Option<int>): (r: Result<Scheduler, RegistryError>)
    ensures Lower(name) !in KeysOf(Registry) ==>
      r == Err(UnknownScheduler("Unknown scheduler '" + name + "'. Available: " + Join(KeysOf(Registry))))
    ensures r.Ok? <==> Lower(name) in KeysOf(Registry) && (clusterSize.Some? ==> Lower(name) == "destination_dispatch")
    ensures r.Ok? ==> (r.value.FirstComeFirstServed? <==> Lower(name) == "fcfs")
    ensures r.Ok? ==> (r.value.ScanScheduler? <==> Lower(name) == "scan")
    ensures r.Ok? && r.value.DestinationDispatchScheduler? ==>
      && r.value.clusterSize >= 1
      && (clusterSize.None? ==> r.value.clusterSize == DefaultClusterSize)
      && (clusterSize.Some? && clusterSize.value >= 1 ==> r.value.clusterSize == clusterSize.value)
  {
    match Lookup(Registry, Lower(name))
    case None => Err(UnknownScheduler("Unknown scheduler '" + name + "'. Available: " + Join(KeysOf(Registry))))
    case Some(c) => Construct(c, clusterSize)
  }

  /** The registry holds exactly these three names, in this order. */
  lemma RegisteredNames()
    ensures KeysOf(Registry) == ["fcfs", "scan", "destination_dispatch"]
    ensures Join(KeysOf(Registry)) == "fcfs, scan, destination_dispatch"
  {
    var ns := KeysOf(Registry);
    assert ns[0] == "fcfs" && ns[1] == "scan" && ns[2] == "destination_dispatch";
    JoinThree(ns);
  }

  lemma JoinThree(ns: seq<string>)
    requires ns == ["fcfs", "scan", "destination_dispatch"]
    ensures Join(ns) == "fcfs, scan, destination_dispatch"
  {
    assert ns[1..] == ["scan", "destination_dispatch"];
    JoinTwo(ns[1..]);
    assert Join(ns) == "fcfs" + ", " + "scan, destination_dispatch";
  }

  lemma JoinTwo(ns: seq<string>)
    requires ns == ["scan", "destination_dispatch"]
    ensures Join(ns) == "scan, destination_dispatch"
  {
    assert ns[1..] == ["destination_dispatch"];
    assert Join(ns) == "scan" + ", " + "destination_dispatch";
  }

  /** The error quotes the name as given and lists the registered names in
      registry order. */
  lemma UnknownMessage(name: string, clusterSize: Option<int>)
    requires Lower(name) !in ["fcfs", "scan", "destination_dispatch"]
    ensures GetScheduler(name, clusterSize)
         == Err(UnknownScheduler("Unknown scheduler '" + name + "'. Available: " + "fcfs, scan, destination_dispatch"))
  {
    RegisteredNames();
  }

  /** Lookup ignores ASCII case: names that lower to the same key build the
      same scheduler or fail the same way. */
  lemma CaseInsensitive(a: string, b: string, clusterSize: Option<int>)
    requires Lower(a) == Lower(b)
    ensures GetScheduler(a, clusterSize).Ok? <==> GetScheduler(b, clusterSize).Ok?
    ensures GetScheduler(a, clusterSize).Ok? ==> GetScheduler(a, clusterSize) == GetScheduler(b, clusterSize)
  {
  }

  /** Every registered name, in any ASCII case, builds a scheduler. */
  lemma RegisteredNamesBuild(name: string)
    requires Lower(name) in ["fcfs", "scan", "destination_dispatch"]
    ensures GetScheduler(name, None).Ok?
  {
    RegisteredNames();
  }

  /** `scheduler.select_calls(elevators, requests)` on the built scheduler. */
  function SelectCalls(s: Scheduler, es: seq<ElevatorSnapshot>, requests: seq<PendingRequest>, root: real -> real)
    : (a: Assignments)
    ensures WellFormed(a)
  {
    match s
    case FirstComeFirstServed =>
      Fcfs.SelectCallsTotal(es, requests, root);
      Fcfs.SelectCalls(es, requests, root)
    case ScanScheduler =>
      Scan.SelectCallsCounts(es, requests, root);
      Scan.SelectCalls(es, requests, root)
    case DestinationDispatchScheduler(cs) =>
      DestinationDispatch.SelectCallsSpec(es, requests, cs, root);
      DestinationDispatch.SelectCalls(es, requests, cs, root)
  }
}
