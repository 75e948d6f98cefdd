/**
 * The dependency graphs of component/system_test.go, and what the model
 * says about each: the order the records start in, the cycle that is
 * reported, the missing dependency that is reported. Each test is also
 * restated as a method that defines its records, creates a system over them
 * and calls `Start` (and `GetContext` and `Stop`), taking what the
 * lifecycles return as parameters; its ensures give the outcome.
 */
module Scenarios {
  import opened Options
  import opened Lifecycles
  import opened StringOrder
  import opened Graphs
  import opened Components
  import opened Systems

  /** compB needs compA; compC needs compA and compB. */
  function ChainGraph(): Graph
  {
    map["compA" := [], "compB" := ["compA"], "compC" := ["compA", "compB"]]
  }

  /** compB needs compA. */
  function PairGraph(): Graph
  {
    map["compA" := [], "compB" := ["compA"]]
  }

  /** compA needs compC, compB needs compA, compC needs compB. */
  function RingGraph(): Graph
  {
    map["compA" := ["compC"], "compB" := ["compA"], "compC" := ["compB"]]
  }

  /** compA needs a name nobody registered. */
  function DanglingGraph(): Graph
  {
    map["compA" := ["nonExistent"]]
  }

  /** Along compA, compB, compC, each step takes the only record that is ready. */
  lemma ChainIsGreedy()
    ensures GreedyOrder(ChainGraph(), ["compA", "compB", "compC"])
  {
    var g := ChainGraph();
    var ord := ["compA", "compB", "compC"];
    assert Edge(g, "compB", "compA") && Edge(g, "compC", "compA") && Edge(g, "compC", "compB");
    assert ord[..0] == [] && ord[..1] == ["compA"] && ord[..2] == ["compA", "compB"];
    assert Ready(g, ord[..0]) == {"compA"};
    assert Ready(g, ord[..1]) == {"compB"};
    assert Ready(g, ord[..2]) == {"compC"};
    assert Ready(g, ord) == {};
    LessEqReflexive("compA");
    LessEqReflexive("compB");
    LessEqReflexive("compC");
    forall i | 0 <= i < |ord| ensures GreedyStep(g, ord, i) {
      assert i == 0 || i == 1 || i == 2;
    }
  }

  /** The chain validates and starts compA, then compB, then compC. */
  lemma ChainStartsInDependencyOrder()
    ensures Registered(ChainGraph()) && !HasCycle(ChainGraph())
    ensures KahnOrder(ChainGraph()) == ["compA", "compB", "compC"]
  {
    var g := ChainGraph();
    forall n, d | n in g && d in g[n] ensures d in g {
      assert n == "compA" || n == "compB" || n == "compC";
    }
    ChainIsGreedy();
    GreedyOrderUnique(g, ["compA", "compB", "compC"]);
    KahnOrderIsGreedy(g);
    OrderedGraphIsAcyclic(g, KahnOrder(g));
  }

  /** The pair validates and starts compA, then compB. */
  lemma PairStartsInDependencyOrder()
    ensures Registered(PairGraph()) && !HasCycle(PairGraph())
    ensures KahnOrder(PairGraph()) == ["compA", "compB"]
  {
    var g := PairGraph();
    var ord := ["compA", "compB"];
    forall n, d | n in g && d in g[n] ensures d in g {
      assert n == "compA" || n == "compB";
    }
    assert Edge(g, "compB", "compA");
    assert ord[..0] == [] && ord[..1] == ["compA"];
    assert Ready(g, ord[..0]) == {"compA"};
    assert Ready(g, ord[..1]) == {"compB"};
    assert Ready(g, ord) == {};
    LessEqReflexive("compA");
    LessEqReflexive("compB");
    forall i | 0 <= i < |ord| ensures GreedyStep(g, ord, i) {
      assert i == 0 || i == 1;
    }
    GreedyOrderUnique(g, ord);
    KahnOrderIsGreedy(g);
    OrderedGraphIsAcyclic(g, ord);
  }

  /** The ring is a cycle, and the sort finds no record it could start first. */
  lemma RingIsCyclic()
    ensures Registered(RingGraph()) && HasCycle(RingGraph())
    ensures KahnOrder(RingGraph()) == []
  {
    var g := RingGraph();
    assert Edge(g, "compA", "compC") && Edge(g, "compC", "compB") && Edge(g, "compB", "compA");
    assert IsCycle(g, ["compA", "compC", "compB", "compA"]);
    assert Ready(g, []) == {};
  }

  /** The dangling dependency is not registered, and it forms no cycle. */
  lemma DanglingIsMissing()
    ensures !Registered(DanglingGraph()) && !HasCycle(DanglingGraph())
  {
    var g := DanglingGraph();
    assert "nonExistent" in g["compA"] && "nonExistent" !in g;
    assert !Edge(g, "compA", "nonExistent");
    OrderedGraphIsAcyclic(g, ["compA"]);
  }

  /** The names of the test records are pairwise different. */
  lemma NamesDiffer()
    ensures "compA" != "compB" && "compA" != "compC" && "compB" != "compC"
    ensures "nonExistent" != "compA"
  {
    assert "compA"[4] != "compB"[4] && "compA"[4] != "compC"[4] && "compB"[4] != "compC"[4];
    assert |"nonExistent"| != |"compA"|;
  }

  /** Records that have not been started and have made no lifecycle call, one per name of `g`. */
  function Unstarted(g: Graph): map<string, Snapshot>
  {
    map n | n in g :: Snapshot(false, Nil, [])
  }

  /** The chain's records, defined over the lifecycles `a`, `b`, `c`. */
  method ChainRecords(a: Lifecycle, b: Lifecycle, c: Lifecycle) returns (records: map<string, Component>)
    ensures fresh(records.Values) && records.Keys == ChainGraph().Keys
    ensures forall n :: n in records ==> records[n].dependencies == ChainGraph()[n] && records[n].Valid() &&
                                         records[n].Current() == Snapshot(false, Nil, [])
    ensures forall m, n :: m in records && n in records && m != n ==> records[m] != records[n]
    ensures records["compA"].instance == a && records["compB"].instance == b && records["compC"].instance == c
  {
    NamesDiffer();
    var ca := new Component.Define("compA", a, []);
    var cb := new Component.Define("compB", b, ["compA"]);
    var cc := new Component.Define("compC", c, ["compA", "compB"]);
    records := map["compA" := ca, "compB" := cb, "compC" := cc];
  }

  /** The chain's records in a new system. */
  method ChainSystem(a: Lifecycle, b: Lifecycle, c: Lifecycle) returns (sys: System)
    ensures fresh(sys) && fresh(sys.components.Values)
    ensures sys.Valid() && !sys.started && sys.context == map[] && sys.trace == []
    ensures sys.G() == ChainGraph() && sys.Records() == Unstarted(ChainGraph())
    ensures sys.components["compA"].instance == a && sys.components["compB"].instance == b
  {
    var records := ChainRecords(a, b, c);
    sys := new System.CreateSystem(records);
  }

  /** The pair's records, defined over the lifecycles `a`, `b`. */
  method PairRecords(a: Lifecycle, b: Lifecycle) returns (records: map<string, Component>)
    ensures fresh(records.Values) && records.Keys == PairGraph().Keys
    ensures forall n :: n in records ==> records[n].dependencies == PairGraph()[n] && records[n].Valid() &&
                                         records[n].Current() == Snapshot(false, Nil, [])
    ensures forall m, n :: m in records && n in records && m != n ==> records[m] != records[n]
    ensures records["compA"].instance == a
  {
    NamesDiffer();
    var ca := new Component.Define("compA", a, []);
    var cb := new Component.Define("compB", b, ["compA"]);
    records := map["compA" := ca, "compB" := cb];
  }

  /** The pair's records in a new system. */
  method PairSystem(a: Lifecycle, b: Lifecycle) returns (sys: System)
    ensures fresh(sys) && fresh(sys.components.Values)
    ensures sys.Valid() && !sys.started && sys.context == map[] && sys.trace == []
    ensures sys.G() == PairGraph() && sys.Records() == Unstarted(PairGraph())
    ensures sys.components["compA"].instance == a
  {
    var records := PairRecords(a, b);
    sys := new System.CreateSystem(records);
  }

  /** The ring's records, defined over the lifecycles `a`, `b`, `c`. */
  method RingRecords(a: Lifecycle, b: Lifecycle, c: Lifecycle) returns (records: map<string, Component>)
    ensures fresh(records.Values) && records.Keys == RingGraph().Keys
    ensures forall n :: n in records ==> records[n].dependencies == RingGraph()[n] && records[n].Valid() &&
                                         records[n].Current() == Snapshot(false, Nil, [])
    ensures forall m, n :: m in records && n in records && m != n ==> records[m] != records[n]
  {
    NamesDiffer();
    var ca := new Component.Define("compA", a, ["compC"]);
    var cb := new Component.Define("compB", b, ["compA"]);
    var cc := new Component.Define("compC", c, ["compB"]);
    records := map["compA" := ca, "compB" := cb, "compC" := cc];
  }

  /** The ring's records in a new system. */
  method RingSystem(a: Lifecycle, b: Lifecycle, c: Lifecycle) returns (sys: System)
    ensures fresh(sys) && fresh(sys.components.Values)
    ensures sys.Valid() && !sys.started && sys.context == map[] && sys.trace == []
    ensures sys.G() == RingGraph() && sys.Records() == Unstarted(RingGraph())
  {
    var records := RingRecords(a, b, c);
    sys := new System.CreateSystem(records);
  }

  /** The dangling dependency's records, defined over the lifecycle `a`. */
  method DanglingRecords(a: Lifecycle) returns (records: map<string, Component>)
    ensures fresh(records.Values) && records.Keys == DanglingGraph().Keys
    ensures forall n :: n in records ==> records[n].dependencies == DanglingGraph()[n] && records[n].Valid() &&
                                         records[n].Current() == Snapshot(false, Nil, [])
    ensures forall m, n :: m in records && n in records && m != n ==> records[m] != records[n]
  {
    NamesDiffer();
    var ca := new Component.Define("compA", a, ["nonExistent"]);
    records := map["compA" := ca];
  }

  /** The dangling dependency's records in a new system. */
  method DanglingSystem(a: Lifecycle) returns (sys: System)
    ensures fresh(sys) && fresh(sys.components.Values)
    ensures sys.Valid() && !sys.started && sys.context == map[] && sys.trace == []
    ensures sys.G() == DanglingGraph() && sys.Records() == Unstarted(DanglingGraph())
  {
    var records := DanglingRecords(a);
    sys := new System.CreateSystem(records);
  }

  /**
   * In the pair, when compA's start succeeds and compB's fails, a start from
   * fresh records calls compA's start and then compB's, reports compB, and
   * leaves compA started with its value in the context and compB not started.
   */
  lemma PairStartFails(sys: System, starts: string -> StartReply)
    requires sys.G() == PairGraph()
    requires starts("compA").StartOk? && starts("compB").StartErr?
    ensures var r := sys.StartAlong(SystemState(Unstarted(PairGraph()), map[], []), ["compA", "compB"], starts);
            r.0 == Some(ComponentStartFailed("compB")) &&
            r.1.records.Keys == {"compA", "compB"} && r.1.records["compA"].started && !r.1.records["compB"].started &&
            r.1.context == map["compA" := starts("compA").value] &&
            r.1.trace == [StartInvoked("compA", map[]),
                          StartInvoked("compB", map["compA" := sys.components["compA"].instance])]
  {
    NamesDiffer();
    var recs := Unstarted(PairGraph());
    var ord := ["compA", "compB"];
    assert recs.Keys == {"compA", "compB"};
    assert LiveIn(recs) == {};
    assert ord[1..] == ["compB"];
    assert FirstFailure(ord, {}, starts) == 1;
    assert sys.components["compA"].dependencies == [] && sys.components["compB"].dependencies == ["compA"];
    assert sys.DependencyContext("compA") == map[];
    assert sys.DependencyContext("compB") == map["compA" := sys.components["compA"].instance];
    assert sys.StartTrace([], ord, 1) == [StartInvoked("compA", map[])];
    var m1 := sys.StartAll(recs, ord, 1, starts);
    assert m1["compA"].started && !m1["compB"].started;
  }

  /** In the chain, each record's start is handed the instances of the records it depends on. */
  lemma ChainDependencyContexts(sys: System)
    requires sys.G() == ChainGraph()
    ensures sys.DependencyContext("compA") == map[]
    ensures sys.DependencyContext("compB") == map["compA" := sys.components["compA"].instance]
    ensures sys.DependencyContext("compC") ==
            map["compA" := sys.components["compA"].instance, "compB" := sys.components["compB"].instance]
  {
    NamesDiffer();
    assert sys.components["compA"].dependencies == [];
    assert sys.components["compB"].dependencies == ["compA"];
    assert sys.components["compC"].dependencies == ["compA", "compB"];
  }

  /**
   * In the chain, when every start succeeds, a start from fresh records calls
   * compA's, compB's and compC's starts in that order, each with its
   * dependencies' instances, and leaves every record started with its value
   * in the context.
   */
  lemma ChainStartSucceeds(sys: System, starts: string -> StartReply)
    requires sys.G() == ChainGraph()
    requires starts("compA").StartOk? && starts("compB").StartOk? && starts("compC").StartOk?
    ensures var r := sys.StartAlong(SystemState(Unstarted(ChainGraph()), map[], []), ["compA", "compB", "compC"], starts);
            r.0.None? &&
            r.1.records.Keys == ChainGraph().Keys && (forall n :: n in r.1.records ==> r.1.records[n].started) &&
            r.1.context == map["compA" := starts("compA").value, "compB" := starts("compB").value,
                               "compC" := starts("compC").value] &&
            r.1.trace == [StartInvoked("compA", map[]),
                          StartInvoked("compB", map["compA" := sys.components["compA"].instance]),
                          StartInvoked("compC", map["compA" := sys.components["compA"].instance,
                                                    "compB" := sys.components["compB"].instance])]
  {
    NamesDiffer();
    var recs := Unstarted(ChainGraph());
    var ord := ["compA", "compB", "compC"];
    assert LiveIn(recs) == {};
    assert ord[1..] == ["compB", "compC"] && ord[1..][1..] == ["compC"];
    assert FirstFailure(ord, {}, starts) == 3;
    ChainDependencyContexts(sys);
    ChainStartRecords(sys, starts);
    ChainStartContext(sys, starts);
    ChainStartTrace(sys);
  }

  /** Starting compA, compB and compC from fresh records with successful starts leaves all of them started. */
  lemma ChainStartRecords(sys: System, starts: string -> StartReply)
    requires starts("compA").StartOk? && starts("compB").StartOk? && starts("compC").StartOk?
    ensures var now := sys.StartAll(Unstarted(ChainGraph()), ["compA", "compB", "compC"], 3, starts);
            now.Keys == ChainGraph().Keys && forall n :: n in now ==> now[n].started
  {
    NamesDiffer();
    var was := Unstarted(ChainGraph());
    var ord := ["compA", "compB", "compC"];
    assert was.Keys == {"compA", "compB", "compC"};
    assert sys.StartAll(was, ord, 0, starts) == was && ord[0] == "compA";
    var m1 := sys.StartAll(was, ord, 1, starts);
    assert m1 == was["compA" := AfterStart(was["compA"], sys.DependencyContext("compA"), starts("compA"))];
    var m2 := sys.StartAll(was, ord, 2, starts);
    assert m2 == m1["compB" := AfterStart(was["compB"], sys.DependencyContext("compB"), starts("compB"))];
    var m3 := sys.StartAll(was, ord, 3, starts);
    assert m3 == m2["compC" := AfterStart(was["compC"], sys.DependencyContext("compC"), starts("compC"))];
    forall n | n in m3 ensures m3[n].started {
      assert n in {"compA", "compB", "compC"};
    }
  }

  /** Starting compA, compB and compC with successful starts stores each start's value in the context. */
  lemma ChainStartContext(sys: System, starts: string -> StartReply)
    requires starts("compA").StartOk? && starts("compB").StartOk? && starts("compC").StartOk?
    ensures sys.StartContext(map[], ["compA", "compB", "compC"], 3, {}, starts) ==
            map["compA" := starts("compA").value, "compB" := starts("compB").value, "compC" := starts("compC").value]
  {
    var ord := ["compA", "compB", "compC"];
    assert sys.StartContext(map[], ord, 1, {}, starts) == map["compA" := starts("compA").value];
    assert sys.StartContext(map[], ord, 2, {}, starts) ==
           map["compA" := starts("compA").value, "compB" := starts("compB").value];
  }

  /** Starting compA, compB and compC records one start call for each, in that order, with its dependency context. */
  lemma ChainStartTrace(sys: System)
    ensures sys.StartTrace([], ["compA", "compB", "compC"], 3) ==
            [StartInvoked("compA", sys.DependencyContext("compA")), StartInvoked("compB", sys.DependencyContext("compB")),
             StartInvoked("compC", sys.DependencyContext("compC"))]
  {
    var ord := ["compA", "compB", "compC"];
    assert sys.StartTrace([], ord, 1) == [StartInvoked("compA", sys.DependencyContext("compA"))];
    assert sys.StartTrace([], ord, 2) ==
           [StartInvoked("compA", sys.DependencyContext("compA")), StartInvoked("compB", sys.DependencyContext("compB"))];
  }

  /** The chain stops in the order compC, compB, compA. */
  lemma ChainReversed()
    ensures Reversed(["compA", "compB", "compC"]) == ["compC", "compB", "compA"]
  {
    var r := Reversed(["compA", "compB", "compC"]);
    assert r[0] == "compC" && r[1] == "compB" && r[2] == "compA";
  }

  /**
   * In the chain, when every record is started and every stop succeeds, a
   * stop along compC, compB, compA calls those stops in that order, each with
   * the whole context, reports no error, keeps the context and leaves every
   * record stopped.
   */
  lemma ChainStopSucceeds(sys: System, s: SystemState, stops: string -> StopReply)
    requires s.records.Keys == ChainGraph().Keys && forall n :: n in s.records ==> s.records[n].started
    requires stops("compA").StopOk? && stops("compB").StopOk? && stops("compC").StopOk?
    ensures var r := sys.StopAlong(s, ["compC", "compB", "compA"], stops);
            r.0.None? && r.1.context == s.context &&
            r.1.records.Keys == ChainGraph().Keys && (forall n :: n in r.1.records ==> !r.1.records[n].started) &&
            r.1.trace == s.trace + [StopInvoked("compC", s.context), StopInvoked("compB", s.context),
                                    StopInvoked("compA", s.context)]
  {
    var rev := ["compC", "compB", "compA"];
    ChainStopRecords(sys, s.records, s.context, stops);
    ChainStopTrace(sys, s.trace, s.context);
    assert LiveIn(s.records) == {"compA", "compB", "compC"};
    assert StopError(rev, 3, LiveIn(s.records), stops).None?;
  }

  /** Stopping compC, compB and compA, all started, with successful stops leaves none of them started. */
  lemma ChainStopRecords(sys: System, was: map<string, Snapshot>, ctx: Context, stops: string -> StopReply)
    requires was.Keys == ChainGraph().Keys && forall n :: n in was ==> was[n].started
    requires stops("compA").StopOk? && stops("compB").StopOk? && stops("compC").StopOk?
    ensures var now := sys.StopAll(was, ["compC", "compB", "compA"], 3, ctx, stops);
            now.Keys == was.Keys && forall n :: n in now ==> !now[n].started
  {
    NamesDiffer();
    var rev := ["compC", "compB", "compA"];
    assert sys.StopAll(was, rev, 0, ctx, stops) == was && rev[0] == "compC";
    var m1 := sys.StopAll(was, rev, 1, ctx, stops);
    assert m1 == was["compC" := AfterStop(was["compC"], ctx, stops("compC"))];
    var m2 := sys.StopAll(was, rev, 2, ctx, stops);
    assert m2 == m1["compB" := AfterStop(was["compB"], ctx, stops("compB"))];
    var m3 := sys.StopAll(was, rev, 3, ctx, stops);
    assert m3 == m2["compA" := AfterStop(was["compA"], ctx, stops("compA"))];
    forall n | n in m3 ensures !m3[n].started {
      assert n in {"compA", "compB", "compC"};
    }
  }

  /** Stopping compC, compB and compA records one stop call for each, in that order, with the whole context. */
  lemma ChainStopTrace(sys: System, trace: seq<Event>, ctx: Context)
    ensures sys.StopTrace(trace, ["compC", "compB", "compA"], 3, ctx) ==
            trace + [StopInvoked("compC", ctx), StopInvoked("compB", ctx), StopInvoked("compA", ctx)]
  {
    var rev := ["compC", "compB", "compA"];
    assert sys.StopTrace(trace, rev, 1, ctx) == trace + [StopInvoked("compC", ctx)];
    assert sys.StopTrace(trace, rev, 2, ctx) == trace + [StopInvoked("compC", ctx), StopInvoked("compB", ctx)];
  }

  /**
   * The run of a chain whose starts and stops all succeed: the records start
   * in the order compA, compB, compC, each with its dependencies' instances,
   * the context holds every start's value, and the stop calls go to compC,
   * compB, compA, each with that context.
   */
  method StartStopRun(a: Lifecycle, b: Lifecycle, c: Lifecycle,
                      starts: string -> StartReply, stops: string -> StopReply)
    returns (sys: System, startErr: Option<SystemError>, ctx: Context, stopErr: Option<SystemError>)
    requires starts("compA").StartOk? && starts("compB").StartOk? && starts("compC").StartOk?
    requires stops("compA").StopOk? && stops("compB").StopOk? && stops("compC").StopOk?
    ensures startErr.None? && stopErr.None? && !sys.started
    ensures ctx == map["compA" := starts("compA").value, "compB" := starts("compB").value,
                       "compC" := starts("compC").value]
    ensures sys.trace == [StartInvoked("compA", map[]), StartInvoked("compB", map["compA" := a]),
                          StartInvoked("compC", map["compA" := a, "compB" := b])] +
                         [StopInvoked("compC", ctx), StopInvoked("compB", ctx), StopInvoked("compA", ctx)]
  {
    NamesDiffer();
    sys := ChainSystem(a, b, c);
    ChainStartsInDependencyOrder();
    ChainStartSucceeds(sys, starts);
    assert sys.State() == SystemState(Unstarted(ChainGraph()), map[], []);
    startErr := sys.Start(starts);
    ctx := sys.GetContext();
    ChainReversed();
    ChainStopSucceeds(sys, sys.State(), stops);
    stopErr := sys.Stop(stops);
  }

  /**
   * The run of a pair whose second start fails: `Start` reports compB, keeps
   * compA started with its value in the context, and has called both starts.
   */
  method StartErrorRun(a: Lifecycle, b: Lifecycle, starts: string -> StartReply)
    returns (sys: System, err: Option<SystemError>)
    requires starts("compA").StartOk? && starts("compB").StartErr?
    ensures err == Some(ComponentStartFailed("compB")) && !sys.started
    ensures sys.components.Keys == {"compA", "compB"}
    ensures sys.components["compA"].started && !sys.components["compB"].started
    ensures sys.context == map["compA" := starts("compA").value]
    ensures sys.trace == [StartInvoked("compA", map[]), StartInvoked("compB", map["compA" := a])]
  {
    NamesDiffer();
    sys := PairSystem(a, b);
    PairStartsInDependencyOrder();
    PairStartFails(sys, starts);
    assert sys.State() == SystemState(Unstarted(PairGraph()), map[], []);
    err := sys.Start(starts);
    assert sys.Records()["compA"] == sys.components["compA"].Current();
    assert sys.Records()["compB"] == sys.components["compB"].Current();
  }

  /** The run of the ring: `Start` reports a cycle at one of its records and touches none. */
  method CyclicDependencyRun(a: Lifecycle, b: Lifecycle, c: Lifecycle, starts: string -> StartReply)
    returns (sys: System, err: Option<SystemError>)
    ensures err.Some? && err.value.CyclicDependencyAt? && err.value.name in {"compA", "compB", "compC"}
    ensures !sys.started && sys.context == map[] && sys.trace == []
    ensures sys.Records() == Unstarted(RingGraph())
  {
    NamesDiffer();
    sys := RingSystem(a, b, c);
    RingIsCyclic();
    err := sys.Start(starts);
    assert err.value.name in sys.G();
  }

  /** The run of the dangling dependency: `Start` reports it by name and touches nothing. */
  method MissingDependencyRun(a: Lifecycle, starts: string -> StartReply)
    returns (sys: System, err: Option<SystemError>)
    ensures err == Some(DependencyNotFound("nonExistent", "compA"))
    ensures !sys.started && sys.context == map[] && sys.trace == []
    ensures sys.Records() == Unstarted(DanglingGraph())
  {
    NamesDiffer();
    sys := DanglingSystem(a);
    DanglingIsMissing();
    err := sys.Start(starts);
    assert err.value.dependent in sys.G();
  }
}
