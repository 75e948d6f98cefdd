/**
 * The orchestrator of component/system.go: validates the dependency graph,
 * orders the components, and starts them in that order and stops them in
 * the reverse order.
 */
module Systems {
  import opened Options
  import opened Lifecycles
  import opened Graphs
  import opened Components
  import opened DepthFirst
  import opened KahnSteps

  /** The errors the orchestrator returns (the message text is not modelled). */
  datatype SystemError =
    | CyclicDependencyAt(name: string)
    | CyclicDependency
    | DependencyNotFound(dep: string, dependent: string)
    | DependencyNotStarted(dep: string, dependent: string)
    | ComponentStartFailed(name: string)
    | ComponentStopFailed(name: string)

  /** A call the orchestrator made on one of its component records. */
  datatype Event = StartInvoked(name: string, ctx: Context) | StopInvoked(name: string, ctx: Context)

  /** The orchestrator's view of a run: the records by name, the context and the trace of calls. */
  datatype SystemState = SystemState(records: map<string, Snapshot>, context: Context, trace: seq<Event>)

  /** The start of `n` fails: its record was not started before and its lifecycle's Start errs. */
  predicate StartFails(n: string, live: set<string>, replies: string -> StartReply)
  {
    n !in live && replies(n).StartErr?
  }

  /** The position in `ord` of the first start that fails, or `|ord|` when none does. */
  function FirstFailure(ord: seq<string>, live: set<string>, replies: string -> StartReply): (i: nat)
    ensures i <= |ord|
    ensures forall j :: 0 <= j < i ==> !StartFails(ord[j], live, replies)
    ensures i < |ord| ==> StartFails(ord[i], live, replies)
  {
    if ord == [] || StartFails(ord[0], live, replies) then 0
    else 1 + FirstFailure(ord[1..], live, replies)
  }

  /** The stop of `n` fails: its record is started and its lifecycle's Stop errs. */
  predicate StopFails(n: string, live: set<string>, replies: string -> StopReply)
  {
    n in live && replies(n).StopErr?
  }

  /**
   * The error `Stop` reports after stopping `rev[..k]`: the failure of the
   * last stop that failed, or none.
   */
  function StopError(rev: seq<string>, k: nat, live: set<string>, replies: string -> StopReply)
    : (err: Option<SystemError>)
    requires k <= |rev|
    ensures err.None? <==> forall j :: 0 <= j < k ==> !StopFails(rev[j], live, replies)
    ensures err.Some? ==>
              exists j :: 0 <= j < k && err.value == ComponentStopFailed(rev[j]) && StopFails(rev[j], live, replies) &&
                          forall j' :: j < j' < k ==> !StopFails(rev[j'], live, replies)
  {
    if k == 0 then None
    else if StopFails(rev[k - 1], live, replies) then Some(ComponentStopFailed(rev[k - 1]))
    else StopError(rev, k - 1, live, replies)
  }

  /** The names whose records are started. */
  function LiveIn(records: map<string, Snapshot>): set<string>
  {
    set n | n in records && records[n].started
  }

  /** Every record's state is the one its call history explains. */
  predicate AllExplained(records: map<string, Snapshot>)
  {
    forall n :: n in records ==> Explains(records[n])
  }

  /** The swap loop of `Stop` that reverses the start order in place. */
  method ReverseInPlace(a: array<string>)
    modifies a
    ensures a[..] == Reversed(old(a[..]))
  {
    var i, j := 0, a.Length - 1;
    while i < j
      invariant 0 <= i <= a.Length && j == a.Length - 1 - i && i <= j + 1
      invariant forall k :: 0 <= k < i ==> a[k] == old(a[a.Length - 1 - k]) && a[a.Length - 1 - k] == old(a[k])
      invariant forall k :: i <= k <= j ==> a[k] == old(a[k])
    {
      a[i], a[j] := a[j], a[i];
      i, j := i + 1, j - 1;
    }
    assert forall k :: 0 <= k < a.Length ==> a[k] == old(a[a.Length - 1 - k]);
  }

  class System {
    const components: map<string, Component>
    var started: bool
    var context: Context
    /** Every call this orchestrator has made on its records, in order. */
    ghost var trace: seq<Event>

    /** The dependency graph the records declare. */
    function G(): (g: Graph)
      ensures g.Keys == components.Keys
    {
      map n | n in components :: components[n].dependencies
    }

    /** No record is registered under two names. */
    ghost predicate RecordsDistinct()
    {
      forall a, b :: a in components && b in components && a != b ==> components[a] != components[b]
    }

    /** The state and call history of every record, by name. */
    ghost function Records(): map<string, Snapshot>
      reads components.Values
    {
      map n | n in components :: components[n].Current()
    }

    /** The records, the context and the trace, as one value. */
    ghost function State(): SystemState
      reads this, components.Values
    {
      SystemState(Records(), context, trace)
    }

    /** A call on the record of `name` alone changes only that name's entry of `Records()`. */
    twostate lemma RecordsAfterOne(name: string)
      requires name in components && RecordsDistinct()
      requires forall n :: n in components && n != name ==> unchanged(components[n])
      ensures Records() == old(Records())[name := components[name].Current()]
    {
    }

    /** No record is the orchestrator itself, so writing a record leaves the orchestrator's fields alone. */
    lemma RecordsAreNotThis()
      ensures forall n :: n in components ==> components[n] as object != this
    {
    }

    /** Each registered name of `names`, mapped to its record's lifecycle instance. */
    function InstancesOf(names: seq<string>): Context
    {
      map d | d in names && d in components :: components[d].instance
    }

    /** The context handed to `n`'s start: each declared dependency's lifecycle instance. */
    function DependencyContext(n: string): Context
    {
      if n in components then InstancesOf(components[n].dependencies) else map[]
    }

    /** The value `Start` stores for `n`: the lifecycle's own result, or the instance of a record started before. */
    function Launched(n: string, live: set<string>, replies: string -> StartReply): Lifecycle
    {
      if n !in live && replies(n).StartOk? then replies(n).value
      else if n in components then components[n].instance
      else Nil
    }

    /** `base` once the values of the starts of `ord[..k]` are stored in it. */
    function StartContext(base: Context, ord: seq<string>, k: nat, live: set<string>,
                          replies: string -> StartReply): Context
      requires k <= |ord|
    {
      if k == 0 then base
      else StartContext(base, ord, k - 1, live, replies)[ord[k - 1] := Launched(ord[k - 1], live, replies)]
    }

    /**
     * The context after the starts of `ord[..k]` maps each of those names to
     * the value its start stored, and keeps every other entry of `base`.
     */
    lemma {:induction false} StartContextAt(base: Context, ord: seq<string>, k: nat, live: set<string>,
                                            replies: string -> StartReply)
      requires k <= |ord|
      ensures var ctx := StartContext(base, ord, k, live, replies);
              (forall j :: 0 <= j < k ==> ord[j] in ctx && ctx[ord[j]] == Launched(ord[j], live, replies)) &&
              (forall n :: n in ctx ==> n in base || n in ord[..k]) &&
              (forall n :: n in base && n !in ord[..k] ==> n in ctx && ctx[n] == base[n])
    {
      if k > 0 {
        StartContextAt(base, ord, k - 1, live, replies);
        assert ord[..k] == ord[..k - 1] + [ord[k - 1]];
      }
    }

    /** `trace0` followed by the start calls made on the records of `ord[..k]`, in order. */
    function StartTrace(trace0: seq<Event>, ord: seq<string>, k: nat): seq<Event>
      requires k <= |ord|
    {
      if k == 0 then trace0
      else StartTrace(trace0, ord, k - 1) + [StartInvoked(ord[k - 1], DependencyContext(ord[k - 1]))]
    }

    /** After `trace0`, the `j`-th start call is made on `ord[j]`, with its dependency context. */
    lemma {:induction false} StartTraceAt(trace0: seq<Event>, ord: seq<string>, k: nat)
      requires k <= |ord|
      ensures |StartTrace(trace0, ord, k)| == |trace0| + k
      ensures StartTrace(trace0, ord, k)[..|trace0|] == trace0
      ensures forall j :: 0 <= j < k ==>
                StartTrace(trace0, ord, k)[|trace0| + j] == StartInvoked(ord[j], DependencyContext(ord[j]))
    {
      if k > 0 {
        StartTraceAt(trace0, ord, k - 1);
        var t := StartTrace(trace0, ord, k - 1);
        assert (t + [StartInvoked(ord[k - 1], DependencyContext(ord[k - 1]))])[..|trace0|] == t[..|trace0|];
      }
    }

    /** The records `was` after the starts along `ord[..k]`, each with its dependency context. */
    function StartAll(was: map<string, Snapshot>, ord: seq<string>, k: nat, replies: string -> StartReply)
      : (now: map<string, Snapshot>)
      requires k <= |ord|
      ensures now.Keys == was.Keys
    {
      if k == 0 then was
      else
        var m := StartAll(was, ord, k - 1, replies);
        var n := ord[k - 1];
        if n in m then m[n := AfterStart(m[n], DependencyContext(n), replies(n))] else m
    }

    /** Along an order without repeats, each record of `ord[..k]` goes through exactly one start. */
    lemma {:induction false} StartAllAt(was: map<string, Snapshot>, ord: seq<string>, k: nat, replies: string -> StartReply)
      requires k <= |ord| && Distinct(ord)
      ensures forall j :: 0 <= j < k && ord[j] in was ==>
                StartAll(was, ord, k, replies)[ord[j]] == AfterStart(was[ord[j]], DependencyContext(ord[j]), replies(ord[j]))
    {
      if k > 0 {
        StartAllAt(was, ord, k - 1, replies);
        StartAllOutside(was, ord, k - 1, replies);
        assert ord[k - 1] !in ord[..k - 1];
      }
    }

    /** The starts along `ord[..k]` leave every record whose name is not among them as it was. */
    lemma {:induction false} StartAllOutside(was: map<string, Snapshot>, ord: seq<string>, k: nat,
                                             replies: string -> StartReply)
      requires k <= |ord|
      ensures forall n :: n in was && n !in ord[..k] ==> StartAll(was, ord, k, replies)[n] == was[n]
    {
      if k > 0 {
        StartAllOutside(was, ord, k - 1, replies);
        assert ord[..k] == ord[..k - 1] + [ord[k - 1]];
      }
    }

    /**
     * Before the first failing start, a started record stays started and
     * every record started along `ord[..k]` is started.
     */
    lemma {:induction false} StartAllStarted(was: map<string, Snapshot>, ord: seq<string>, k: nat,
                                             replies: string -> StartReply)
      requires k <= |ord| && k <= FirstFailure(ord, LiveIn(was), replies)
      ensures forall n :: n in LiveIn(was) ==> StartAll(was, ord, k, replies)[n].started
      ensures forall j :: 0 <= j < k && ord[j] in was ==> StartAll(was, ord, k, replies)[ord[j]].started
    {
      if k > 0 {
        StartAllStarted(was, ord, k - 1, replies);
        var m := StartAll(was, ord, k - 1, replies);
        var n := ord[k - 1];
        if n in m && !m[n].started {
          assert !StartFails(n, LiveIn(was), replies);
        }
      }
    }

    /** Starting records keeps every record explained by its call history. */
    lemma {:induction false} StartAllExplained(was: map<string, Snapshot>, ord: seq<string>, k: nat,
                                               replies: string -> StartReply)
      requires k <= |ord|
      requires AllExplained(was)
      ensures AllExplained(StartAll(was, ord, k, replies))
    {
      if k > 0 {
        StartAllExplained(was, ord, k - 1, replies);
        var m := StartAll(was, ord, k - 1, replies);
        var n := ord[k - 1];
        if n in m { AfterStartExplained(m[n], DependencyContext(n), replies(n)); }
      }
    }

    /** `s` once the records of `ord[..k]` are started, their values stored and their start calls recorded. */
    function StartPrefix(s: SystemState, ord: seq<string>, k: nat, replies: string -> StartReply): SystemState
      requires k <= |ord|
    {
      SystemState(StartAll(s.records, ord, k, replies),
                  StartContext(s.context, ord, k, LiveIn(s.records), replies),
                  StartTrace(s.trace, ord, k))
    }

    /**
     * What a start of the system along `ord` does from `s`: it goes as far
     * as the first failing start, which it reports; every start on the way
     * is called once with its dependency context and every successful one
     * stores its value in the context.
     */
    function StartAlong(s: SystemState, ord: seq<string>, replies: string -> StartReply)
      : (Option<SystemError>, SystemState)
    {
      var i := FirstFailure(ord, LiveIn(s.records), replies);
      if i < |ord| then
        (Some(ComponentStartFailed(ord[i])),
         SystemState(StartAll(s.records, ord, i + 1, replies),
                     StartContext(s.context, ord, i, LiveIn(s.records), replies),
                     StartTrace(s.trace, ord, i + 1)))
      else
        (None, StartPrefix(s, ord, |ord|, replies))
    }

    /** `e` reports a declared dependency that is not registered. */
    predicate MissingDependency(e: SystemError)
    {
      e.DependencyNotFound? && e.dependent in components &&
      e.dep in components[e.dependent].dependencies && e.dep !in components
    }

    /**
     * A whole-system invariant: a started system passed validation, and all
     * its records are started with a context entry each.
     */
    ghost predicate Valid()
      reads this, components.Values
    {
      RecordsDistinct() && AllExplained(Records()) &&
      (started ==>
         Registered(G()) && !HasCycle(G()) &&
         forall n :: n in components ==> components[n].started && n in context)
    }

    /** Go's `CreateSystem`. */
    constructor CreateSystem(components: map<string, Component>)
      requires forall a, b :: a in components && b in components && a != b ==> components[a] != components[b]
      requires forall n :: n in components ==> components[n].Valid()
      ensures this.components == components
      ensures !started && context == map[] && trace == []
      ensures Valid()
    {
      this.components := components;
      started := false;
      context := map[];
      trace := [];
    }

    /**
     * Go's `isCyclic`: depth-first search from `name`; true when it meets a
     * name still on the recursion stack. The two marker maps, which Go
     * shares by reference, go in as `visited`/`recStack` and the updated
     * `visited` comes back (`recStack` is restored on every non-cyclic return).
     */
    method IsCyclic(name: string, visited: set<string>, recStack: set<string>,
                    ghost path: seq<string>, ghost finished: seq<string>)
      returns (cyclic: bool, visited': set<string>, ghost finished': seq<string>)
      requires name in components && name !in visited
      requires SearchInv(G(), visited, recStack, path, finished)
      requires path != [] ==> Edge(G(), path[|path| - 1], name)
      ensures cyclic ==> HasCycle(G())
      ensures !cyclic ==> SearchInv(G(), visited', recStack, path, finished') && visited + {name} <= visited'
      decreases |G().Keys - visited|
    {
      ghost var g := G();
      EnterName(g, visited, recStack, path, finished, name);
      visited' := visited + {name};
      var stack := recStack + {name};
      ghost var walk := path + [name];
      finished' := finished;
      var component := components[name];
      var deps := component.GetDependencies();
      ghost var done: set<string> := {};
      var i := 0;
      while i < |deps|
        invariant 0 <= i <= |deps|
        invariant SearchInv(g, visited', stack, walk, finished')
        invariant visited + {name} <= visited'
        invariant done <= visited' && done !! stack
        invariant Handled(g, deps, i, done)
      {
        var dep := deps[i];
        ghost var done0 := done;
        if dep in components {
          if dep !in visited' {
            FewerUnvisited(g, visited, visited', name);
            var c;
            c, visited', finished' := IsCyclic(dep, visited', stack, walk, finished');
            if c {
              return true, visited', finished';
            }
          } else if dep in stack {
            BackEdgeCloses(g, walk, dep);
            return true, visited', finished';
          }
          done := done + {dep};
        }
        HandledStep(g, deps, i, done0, done);
        i := i + 1;
      }
      HandledAll(g, name, deps, done);
      LeaveName(g, visited', recStack, path, finished', name);
      finished' := finished' + [name];
      return false, visited', finished';
    }

    /** Go's `checkCyclicDependencies`: a search from every name not yet visited, in any order. */
    method CheckCyclicDependencies() returns (err: Option<SystemError>)
      ensures err.None? <==> !HasCycle(G())
      ensures err.Some? ==> err.value.CyclicDependencyAt? && err.value.name in components
    {
      ghost var g := G();
      var visited: set<string> := {};
      ghost var finished: seq<string> := [];
      var names := components.Keys;
      while names != {}
        invariant names <= components.Keys
        invariant SearchInv(g, visited, {}, [], finished)
        invariant components.Keys - names <= visited
        decreases names
      {
        var name :| name in names;
        names := names - {name};
        if name !in visited {
          var c;
          c, visited, finished := IsCyclic(name, visited, {}, [], finished);
          if c {
            return Some(CyclicDependencyAt(name));
          }
        }
      }
      forall n | n in g ensures n in finished {
        assert n in Elems(finished);
      }
      OrderedGraphIsAcyclic(g, finished);
      return None;
    }

    /**
     * The first half of Go's `getOrderedComponents`: the dependents list and
     * the in-degree counter of every name, or the first unregistered
     * dependency met (in map iteration order).
     */
    method BuildGraph() returns (dependents: Graph, inDegree: map<string, int>, err: Option<SystemError>)
      ensures err.None? <==> Registered(G())
      ensures err.Some? ==> MissingDependency(err.value)
      ensures err.None? ==> DependentsOf(G(), dependents) && DegreesCount(G(), inDegree, [])
    {
      ghost var g := G();
      dependents, inDegree := map[], map[];
      var names := components.Keys;
      while names != {}
        invariant names <= components.Keys
        invariant dependents.Keys == inDegree.Keys == components.Keys - names
        invariant forall n :: n in dependents ==> dependents[n] == [] && inDegree[n] == 0
        decreases names
      {
        var name :| name in names;
        names := names - {name};
        inDegree := inDegree[name := 0];
        dependents := dependents[name := []];
      }
      ghost var done: set<string> := {};
      names := components.Keys;
      while names != {}
        invariant names <= components.Keys && done == components.Keys - names
        invariant BuiltFor(g, dependents, inDegree, done)
        invariant RegisteredFor(g, done)
        decreases names
      {
        var name :| name in names;
        MoveName(components.Keys, names, done, name);
        names := names - {name};
        var component := components[name];
        var deps := component.GetDependencies();
        BeginName(g, dependents, inDegree, done, name);
        var missing;
        dependents, inDegree, missing := RecordDependents(name, deps, dependents, inDegree, done);
        if missing.Some? {
          return dependents, inDegree, Some(DependencyNotFound(missing.value, name));
        }
        EndName(g, dependents, inDegree, done, name);
        done := done + {name};
      }
      BuiltAll(g, dependents, inDegree);
      return dependents, inDegree, None;
    }

    /**
     * The inner loop of the in-degree pass of `getOrderedComponents`: records
     * `name` as a dependent of each of its dependencies `deps`, stopping at
     * the first one that is not registered.
     */
    method RecordDependents(name: string, deps: seq<string>, dependents: Graph, inDegree: map<string, int>,
                            ghost done: set<string>)
      returns (dependents': Graph, inDegree': map<string, int>, missing: Option<string>)
      requires name in components && deps == components[name].dependencies
      requires BuildingFor(G(), dependents, inDegree, done, name, [])
      ensures missing.Some? ==> missing.value in deps && missing.value !in components
      ensures missing.None? ==>
        BuildingFor(G(), dependents', inDegree', done, name, deps) && forall d :: d in deps ==> d in components
    {
      ghost var g := G();
      dependents', inDegree' := dependents, inDegree;
      ghost var listed: seq<string> := [];
      var k := 0;
      while k < |deps|
        invariant 0 <= k <= |deps| && listed == deps[..k]
        invariant BuildingFor(g, dependents', inDegree', done, name, listed)
        invariant forall d :: d in listed ==> d in g
      {
        var dep := deps[k];
        if dep !in components {
          return dependents', inDegree', Some(dep);
        }
        ListDependent(g, dependents', inDegree', done, name, listed, dep);
        TakeOneMore(deps, k);
        dependents' := dependents'[dep := dependents'[dep] + [name]];
        inDegree' := inDegree'[name := inDegree'[name] + 1];
        listed := listed + [dep];
        k := k + 1;
      }
      assert listed == deps;
      return dependents', inDegree', None;
    }

    /**
     * Go's `getOrderedComponents`: Kahn's algorithm that sorts the ready
     * queue before taking its head, so it outputs `KahnOrder(G())`; a
     * missing dependency or a short output is an error.
     */
    method GetOrderedComponents() returns (ord: seq<string>, err: Option<SystemError>)
      ensures err.None? <==> Registered(G()) && !HasCycle(G())
      ensures err.None? ==> ord == KahnOrder(G()) && IsTopologicalOrder(G(), ord)
      ensures err.Some? ==> ord == []
      ensures !Registered(G()) ==> err.Some? && MissingDependency(err.value)
      ensures Registered(G()) && HasCycle(G()) ==> err == Some(CyclicDependency)
    {
      ghost var g := G();
      var graph, inDegree, missing := BuildGraph();
      if missing.Some? {
        return [], missing;
      }
      var queue := Sources(inDegree);
      SourcesReady(g, inDegree, queue);
      var result := SortLoop(graph, inDegree, queue, g);
      if |result| != |components| {
        KahnCompleteIffAcyclic(g);
        return [], Some(CyclicDependency);
      }
      KahnCompleteIffAcyclic(g);
      return result, None;
    }

    /**
     * The context loop of Go's `Start` for `name`: every declared dependency
     * must be registered and started, and its lifecycle instance goes into
     * the context.
     */
    method BuildStartContext(name: string) returns (ctx: Context, err: Option<SystemError>)
      requires name in components
      ensures err.None? <==>
                forall d :: d in components[name].dependencies ==> d in components && components[d].started
      ensures err.None? ==> ctx == DependencyContext(name)
      ensures err.Some? ==>
                (err.value.DependencyNotFound? && err.value.dep !in components) ||
                (err.value.DependencyNotStarted? && err.value.dep in components && !components[err.value.dep].started)
      ensures err.Some? ==>
                (err.value.DependencyNotFound? || err.value.DependencyNotStarted?) &&
                err.value.dependent == name && err.value.dep in components[name].dependencies
    {
      var component := components[name];
      var deps := component.GetDependencies();
      ctx := map[];
      ghost var listed: seq<string> := [];
      var k := 0;
      while k < |deps|
        invariant 0 <= k <= |deps| && listed == deps[..k]
        invariant ctx == InstancesOf(listed)
        invariant forall d :: d in listed ==> d in components && components[d].started
      {
        var dep := deps[k];
        if dep !in components {
          return ctx, Some(DependencyNotFound(dep, name));
        }
        var depComponent := components[dep];
        var ready := depComponent.IsStarted();
        if !ready {
          return ctx, Some(DependencyNotStarted(dep, name));
        }
        ctx := ctx[dep := depComponent.instance];
        assert deps[..k + 1] == listed + [dep];
        listed := listed + [dep];
        k := k + 1;
      }
      assert listed == deps;
      return ctx, None;
    }

    /** `ord[k]` is registered and is not repeated in `ord[..k]`. */
    ghost predicate FreshAt(ord: seq<string>, k: nat)
    {
      k < |ord| && ord[k] in components && ord[k] !in ord[..k]
    }

    /**
     * `ord[k]` is registered, is not repeated in `ord[..k]`, and every
     * dependency it declares is registered and comes before it.
     */
    ghost predicate ReadyAt(ord: seq<string>, k: nat)
    {
      FreshAt(ord, k) && forall d :: d in components[ord[k]].dependencies ==> d in components && d in ord[..k]
    }

    /** Along a topological order, every name is ready in its turn. */
    lemma TopologicalReady(ord: seq<string>)
      requires Registered(G()) && IsTopologicalOrder(G(), ord)
      ensures forall k :: 0 <= k < |ord| ==> ReadyAt(ord, k)
    {
      var g := G();
      forall k | 0 <= k < |ord| ensures ReadyAt(ord, k) {
        assert ord[k] in g;
        forall d | d in components[ord[k]].dependencies ensures d in components && d in ord[..k] {
          assert Edge(g, ord[k], d);
        }
      }
    }

    /**
     * `ord[k]` is registered, has not been started along `ord[..k]`, and every
     * dependency it declares is registered and started once `ord[..k]` are.
     */
    ghost predicate NextReady(was: map<string, Snapshot>, ord: seq<string>, k: nat, replies: string -> StartReply)
    {
      k < |ord| && ord[k] in components && ord[k] in was &&
      StartAll(was, ord, k, replies)[ord[k]] == was[ord[k]] &&
      forall d :: d in components[ord[k]].dependencies ==> d in was && StartAll(was, ord, k, replies)[d].started
    }

    /** Along a start order, the next name to start is ready, as long as no start has failed. */
    lemma DependenciesStarted(was: map<string, Snapshot>, ord: seq<string>, k: nat, replies: string -> StartReply)
      requires ReadyAt(ord, k) && was.Keys == components.Keys
      requires k <= FirstFailure(ord, LiveIn(was), replies)
      ensures NextReady(was, ord, k, replies)
    {
      StartAllStarted(was, ord, k, replies);
      forall d | d in components[ord[k]].dependencies ensures d in was && StartAll(was, ord, k, replies)[d].started {
        var j :| 0 <= j < k && ord[j] == d;
      }
      StartAllOutside(was, ord, k, replies);
    }

    /**
     * One round of the start loop of Go's `Start`: builds the dependency
     * context of `ord[k]` and starts its record; the error is the start
     * failure, if this is the first failing start.
     */
    method StartNext(ord: seq<string>, k: nat, replies: string -> StartReply, ghost was: map<string, Snapshot>)
      returns (lifecycle: Lifecycle, err: Option<SystemError>)
      requires NextReady(was, ord, k, replies) && RecordsDistinct() && was.Keys == components.Keys
      requires k <= FirstFailure(ord, LiveIn(was), replies)
      requires Records() == StartAll(was, ord, k, replies)
      modifies components[ord[k]]
      ensures Records() == StartAll(was, ord, k + 1, replies)
      ensures err == if k == FirstFailure(ord, LiveIn(was), replies) then Some(ComponentStartFailed(ord[k])) else None
      ensures err.None? ==> lifecycle == Launched(ord[k], LiveIn(was), replies)
    {
      var name := ord[k];
      var component := components[name];
      var ctx, notReady := BuildStartContext(name);
      if notReady.Some? {
        return Nil, notReady;
      }
      var startErr;
      lifecycle, startErr := component.Start(ctx, replies(name));
      RecordsAfterOne(name);
      if startErr.Some? {
        return lifecycle, Some(ComponentStartFailed(name));
      }
      return lifecycle, None;
    }

    /**
     * The state of the start loop before `ord[k]`: the records of `ord[..k]`
     * are started, their values stored in the context and their start calls
     * recorded, and none of those starts failed.
     */
    ghost predicate StartingAt(ord: seq<string>, k: nat, s0: SystemState, replies: string -> StartReply)
      reads this, components.Values
    {
      k <= FirstFailure(ord, LiveIn(s0.records), replies) && State() == StartPrefix(s0, ord, k, replies)
    }

    /** A start loop that went through the whole order without a failure started along all of it. */
    lemma StartingDone(ord: seq<string>, s0: SystemState, replies: string -> StartReply)
      requires StartingAt(ord, |ord|, s0, replies)
      ensures (None, State()) == StartAlong(s0, ord, replies)
    {
    }

    /**
     * One round of the start loop: starts `ord[k]`, records the call, and
     * either stores the value its start returned or reports the failure.
     */
    method StartStep(ord: seq<string>, k: nat, replies: string -> StartReply, ghost s0: SystemState)
      returns (err: Option<SystemError>)
      requires NextReady(s0.records, ord, k, replies) && RecordsDistinct() && s0.records.Keys == components.Keys
      requires StartingAt(ord, k, s0, replies)
      modifies this, components[ord[k]]
      ensures started == old(started)
      ensures err.None? ==> StartingAt(ord, k + 1, s0, replies)
      ensures err.Some? ==> (err, State()) == StartAlong(s0, ord, replies)
    {
      var name := ord[k];
      RecordsAreNotThis();
      trace := trace + [StartInvoked(name, DependencyContext(name))];
      var lifecycle, startErr := StartNext(ord, k, replies, s0.records);
      assert started == old(started);
      if startErr.Some? {
        return startErr;
      }
      context := context[name := lifecycle];
      return None;
    }

    /**
     * The start loop of Go's `Start`: starts the records along `ord`, each
     * with its dependency context, storing what each start returns, and
     * stops at the first start that fails.
     */
    method StartInOrder(ord: seq<string>, replies: string -> StartReply) returns (err: Option<SystemError>)
      requires RecordsDistinct() && forall k :: 0 <= k < |ord| ==> ReadyAt(ord, k)
      modifies this, components.Values
      ensures started == old(started)
      ensures (err, State()) == StartAlong(old(State()), ord, replies)
    {
      ghost var s0 := State();
      var k := 0;
      while k < |ord|
        invariant k <= |ord| && started == old(started)
        invariant StartingAt(ord, k, s0, replies)
      {
        DependenciesStarted(s0.records, ord, k, replies);
        err := StartStep(ord, k, replies, s0);
        if err.Some? {
          return;
        }
        k := k + 1;
      }
      StartingDone(ord, s0, replies);
      return None;
    }

    /** A start along any order keeps every record explained by its call history. */
    lemma StartAlongExplained(s0: SystemState, ord: seq<string>, replies: string -> StartReply)
      requires AllExplained(s0.records)
      ensures AllExplained(StartAlong(s0, ord, replies).1.records)
    {
      var i := FirstFailure(ord, LiveIn(s0.records), replies);
      if i < |ord| {
        StartAllExplained(s0.records, ord, i + 1, replies);
      } else {
        StartAllExplained(s0.records, ord, |ord|, replies);
      }
    }

    /**
     * A start along an order of all the records in which no start fails
     * leaves every record started, with an entry in the context.
     */
    lemma StartAlongCompletes(s0: SystemState, ord: seq<string>, replies: string -> StartReply)
      requires Elems(ord) == s0.records.Keys
      requires StartAlong(s0, ord, replies).0.None?
      ensures var s := StartAlong(s0, ord, replies).1;
              forall n :: n in s0.records ==> n in s.records && s.records[n].started && n in s.context
    {
      var was := s0.records;
      var s := StartAlong(s0, ord, replies).1;
      assert s == StartPrefix(s0, ord, |ord|, replies);
      StartAllStarted(was, ord, |ord|, replies);
      StartContextAt(s0.context, ord, |ord|, LiveIn(was), replies);
      forall n | n in was ensures n in s.records && s.records[n].started && n in s.context {
        assert n in Elems(ord);
        var j :| 0 <= j < |ord| && ord[j] == n;
      }
    }

    /**
     * A start along an order without repeats that fails at `ord[i]` leaves
     * the records before it started with their values in the context, the
     * failing record not started, every later record as it was, and one
     * start call recorded for each of `ord[..i + 1]`.
     */
    lemma StartAlongAborts(s0: SystemState, ord: seq<string>, replies: string -> StartReply)
      requires Distinct(ord)
      requires StartAlong(s0, ord, replies).0.Some?
      ensures var i := FirstFailure(ord, LiveIn(s0.records), replies);
              var s := StartAlong(s0, ord, replies).1;
              i < |ord| && StartAlong(s0, ord, replies).0 == Some(ComponentStartFailed(ord[i])) &&
              (forall j :: 0 <= j < i && ord[j] in s0.records ==> s.records[ord[j]].started) &&
              (forall j :: 0 <= j < i ==> ord[j] in s.context && s.context[ord[j]] == Launched(ord[j], LiveIn(s0.records), replies)) &&
              (ord[i] in s0.records ==> !s.records[ord[i]].started) &&
              (forall n :: n in s0.records && n !in ord[..i + 1] ==> s.records[n] == s0.records[n]) &&
              |s.trace| == |s0.trace| + i + 1
    {
      var was := s0.records;
      var i := FirstFailure(ord, LiveIn(was), replies);
      StartAllStarted(was, ord, i, replies);
      StartAllOutside(was, ord, i, replies);
      StartAllOutside(was, ord, i + 1, replies);
      StartContextAt(s0.context, ord, i, LiveIn(was), replies);
      StartTraceAt(s0.trace, ord, i + 1);
      assert ord[i] !in ord[..i];
      forall j | 0 <= j < i && ord[j] in was ensures StartAll(was, ord, i + 1, replies)[ord[j]].started {
        assert ord[j] != ord[i];
      }
    }

    /**
     * After a start along an order of all the records, every record is still
     * explained by its history; when no start failed, every record is
     * started and has an entry in the context.
     */
    lemma StartValid(ord: seq<string>, s0: SystemState, replies: string -> StartReply, err: Option<SystemError>)
      requires Elems(ord) == components.Keys && s0.records.Keys == components.Keys && AllExplained(s0.records)
      requires (err, State()) == StartAlong(s0, ord, replies)
      ensures AllExplained(Records())
      ensures err.None? ==> forall n :: n in components ==> components[n].started && n in context
    {
      StartAlongExplained(s0, ord, replies);
      if err.None? {
        StartAlongCompletes(s0, ord, replies);
        forall n | n in components ensures components[n].started && n in context {
          assert Records()[n] == components[n].Current();
        }
      }
    }

    /**
     * The starting half of Go's `Start`, once the records are known to form
     * an acyclic graph: starts them along `ord` and marks the system started
     * when no start failed.
     */
    method StartOrdered(ord: seq<string>, replies: string -> StartReply) returns (err: Option<SystemError>)
      requires RecordsDistinct() && AllExplained(Records()) && !started
      requires Registered(G()) && IsTopologicalOrder(G(), ord)
      modifies this, components.Values
      ensures (err, State()) == StartAlong(old(State()), ord, replies) && started == err.None?
      ensures RecordsDistinct() && AllExplained(Records())
      ensures err.None? ==> forall n :: n in components ==> components[n].started && n in context
    {
      ghost var s0 := State();
      TopologicalReady(ord);
      err := StartInOrder(ord, replies);
      StartValid(ord, s0, replies, err);
      ghost var outcome := (err, State());
      assert outcome == StartAlong(s0, ord, replies);
      if err.Some? {
        return;
      }
      RecordsAreNotThis();
      started := true;
      assert State() == outcome.1;
    }

    /**
     * Go's `Start`: nothing happens on a started system; a cycle or a missing
     * dependency is reported before any record is touched; otherwise the
     * records are started in `KahnOrder` until the first failing start, and
     * the system is started exactly when none failed.
     */
    method Start(replies: string -> StartReply) returns (err: Option<SystemError>)
      requires Valid()
      modifies this, components.Values
      ensures Valid()
      ensures old(started) ==> err.None? && unchanged(this) && Records() == old(Records())
      ensures !old(started) && HasCycle(G()) ==>
                err.Some? && err.value.CyclicDependencyAt? && err.value.name in components &&
                unchanged(this) && Records() == old(Records())
      ensures !old(started) && !HasCycle(G()) && !Registered(G()) ==>
                err.Some? && MissingDependency(err.value) && unchanged(this) && Records() == old(Records())
      ensures !old(started) && !HasCycle(G()) && Registered(G()) ==>
                (err, State()) == StartAlong(old(State()), KahnOrder(G()), replies) && started == err.None?
    {
      if started {
        return None;
      }
      err := CheckCyclicDependencies();
      if err.Some? {
        return;
      }
      var ord;
      ord, err := GetOrderedComponents();
      if err.Some? {
        return;
      }
      ghost var s0 := State();
      assert s0 == old(State());
      err := StartOrdered(ord, replies);
    }

    /** The records `was` after the stops along `rev[..k]`, each passed the whole context `ctx`. */
    function StopAll(was: map<string, Snapshot>, rev: seq<string>, k: nat, ctx: Context, replies: string -> StopReply)
      : (now: map<string, Snapshot>)
      requires k <= |rev|
      ensures now.Keys == was.Keys
    {
      if k == 0 then was
      else
        var m := StopAll(was, rev, k - 1, ctx, replies);
        var n := rev[k - 1];
        if n in m then m[n := AfterStop(m[n], ctx, replies(n))] else m
    }

    /** The stops along `rev[..k]` leave every record whose name is not among them as it was. */
    lemma {:induction false} StopAllOutside(was: map<string, Snapshot>, rev: seq<string>, k: nat, ctx: Context,
                                            replies: string -> StopReply)
      requires k <= |rev|
      ensures forall n :: n in was && n !in rev[..k] ==> StopAll(was, rev, k, ctx, replies)[n] == was[n]
    {
      if k > 0 {
        StopAllOutside(was, rev, k - 1, ctx, replies);
        assert rev[..k] == rev[..k - 1] + [rev[k - 1]];
      }
    }

    /** Along an order without repeats, each record of `rev[..k]` is stopped once, with the whole context. */
    lemma {:induction false} StopAllAt(was: map<string, Snapshot>, rev: seq<string>, k: nat, ctx: Context,
                                       replies: string -> StopReply)
      requires k <= |rev| && Distinct(rev)
      ensures forall j :: 0 <= j < k && rev[j] in was ==>
                StopAll(was, rev, k, ctx, replies)[rev[j]] == AfterStop(was[rev[j]], ctx, replies(rev[j]))
    {
      if k > 0 {
        StopAllAt(was, rev, k - 1, ctx, replies);
        StopAllOutside(was, rev, k - 1, ctx, replies);
        assert rev[k - 1] !in rev[..k - 1];
      }
    }

    /** Stopping records keeps every record explained by its call history. */
    lemma {:induction false} StopAllExplained(was: map<string, Snapshot>, rev: seq<string>, k: nat, ctx: Context,
                                              replies: string -> StopReply)
      requires k <= |rev|
      requires AllExplained(was)
      ensures AllExplained(StopAll(was, rev, k, ctx, replies))
    {
      if k > 0 {
        StopAllExplained(was, rev, k - 1, ctx, replies);
        var m := StopAll(was, rev, k - 1, ctx, replies);
        var n := rev[k - 1];
        if n in m { AfterStopExplained(m[n], ctx, replies(n)); }
      }
    }

    /** `trace0` followed by the stop calls made on the records of `rev[..k]`, each with the whole context `ctx`. */
    function StopTrace(trace0: seq<Event>, rev: seq<string>, k: nat, ctx: Context): seq<Event>
      requires k <= |rev|
    {
      if k == 0 then trace0 else StopTrace(trace0, rev, k - 1, ctx) + [StopInvoked(rev[k - 1], ctx)]
    }

    /** After `trace0`, the `j`-th stop call is made on `rev[j]`, with the whole context. */
    lemma {:induction false} StopTraceAt(trace0: seq<Event>, rev: seq<string>, k: nat, ctx: Context)
      requires k <= |rev|
      ensures |StopTrace(trace0, rev, k, ctx)| == |trace0| + k
      ensures StopTrace(trace0, rev, k, ctx)[..|trace0|] == trace0
      ensures forall j :: 0 <= j < k ==> StopTrace(trace0, rev, k, ctx)[|trace0| + j] == StopInvoked(rev[j], ctx)
    {
      if k > 0 {
        StopTraceAt(trace0, rev, k - 1, ctx);
        var t := StopTrace(trace0, rev, k - 1, ctx);
        assert (t + [StopInvoked(rev[k - 1], ctx)])[..|trace0|] == t[..|trace0|];
      }
    }

    /** `s` once the records of `rev[..k]` are stopped and their stop calls recorded; the context stays. */
    function StopPrefix(s: SystemState, rev: seq<string>, k: nat, replies: string -> StopReply): SystemState
      requires k <= |rev|
    {
      SystemState(StopAll(s.records, rev, k, s.context, replies), s.context, StopTrace(s.trace, rev, k, s.context))
    }

    /**
     * What a stop of the system along `rev` does from `s`: it calls the stop
     * of every record, each with the whole context, whatever the earlier
     * stops returned, and reports the last failure.
     */
    function StopAlong(s: SystemState, rev: seq<string>, replies: string -> StopReply)
      : (Option<SystemError>, SystemState)
    {
      (StopError(rev, |rev|, LiveIn(s.records), replies), StopPrefix(s, rev, |rev|, replies))
    }

    /**
     * After a stop along an order of all the records, the context is as it
     * was, and a record is still started exactly when it was started and its
     * stop failed.
     */
    lemma StopAlongOutcome(s0: SystemState, rev: seq<string>, replies: string -> StopReply)
      requires Distinct(rev) && Elems(rev) == s0.records.Keys
      ensures var s := StopAlong(s0, rev, replies).1;
              s.records.Keys == s0.records.Keys && s.context == s0.context &&
              forall n :: n in s.records ==> (s.records[n].started <==> StopFails(n, LiveIn(s0.records), replies))
    {
      var was := s0.records;
      var now := StopAll(was, rev, |rev|, s0.context, replies);
      StopAllAt(was, rev, |rev|, s0.context, replies);
      forall n | n in now ensures now[n].started <==> StopFails(n, LiveIn(was), replies) {
        assert n in Elems(rev);
        var j :| 0 <= j < |rev| && rev[j] == n;
      }
    }

    /** The state of the stop loop before `rev[k]`: `rev[..k]` are stopped and `err` is their last failure. */
    ghost predicate StoppingAt(rev: seq<string>, k: nat, s0: SystemState, replies: string -> StopReply,
                               err: Option<SystemError>)
      reads this, components.Values
    {
      k <= |rev| && State() == StopPrefix(s0, rev, k, replies) && err == StopError(rev, k, LiveIn(s0.records), replies)
    }

    /** One round of the stop loop of Go's `Stop`: stops `rev[k]` and keeps the last failure. */
    method StopStep(rev: seq<string>, k: nat, replies: string -> StopReply, ghost s0: SystemState,
                    err: Option<SystemError>)
      returns (err': Option<SystemError>)
      requires FreshAt(rev, k) && RecordsDistinct() && s0.records.Keys == components.Keys
      requires StoppingAt(rev, k, s0, replies, err)
      modifies this, components[rev[k]]
      ensures started == old(started)
      ensures StoppingAt(rev, k + 1, s0, replies, err')
    {
      var name := rev[k];
      var component := components[name];
      ghost var m := StopAll(s0.records, rev, k, s0.context, replies);
      assert Records() == m && context == s0.context;
      StopAllOutside(s0.records, rev, k, s0.context, replies);
      assert m[name] == s0.records[name];
      RecordsAreNotThis();
      assert component as object != this;
      trace := trace + [StopInvoked(name, context)];
      var stopErr := component.Stop(context, replies(name));
      assert started == old(started);
      RecordsAfterOne(name);
      assert Records() == m[name := AfterStop(m[name], s0.context, replies(name))];
      err' := if stopErr.Some? then Some(ComponentStopFailed(name)) else err;
      assert State() == StopPrefix(s0, rev, k + 1, replies);
    }

    /**
     * The stop loop of Go's `Stop`: stops every record along `rev`, each with
     * the whole context, and goes on past failures, keeping the last one.
     */
    method StopInOrder(rev: seq<string>, replies: string -> StopReply) returns (err: Option<SystemError>)
      requires RecordsDistinct() && forall k :: 0 <= k < |rev| ==> FreshAt(rev, k)
      modifies this, components.Values
      ensures started == old(started)
      ensures (err, State()) == StopAlong(old(State()), rev, replies)
    {
      ghost var s0 := State();
      err := None;
      var k := 0;
      while k < |rev|
        invariant started == old(started)
        invariant StoppingAt(rev, k, s0, replies, err)
      {
        assert FreshAt(rev, k);
        err := StopStep(rev, k, replies, s0, err);
        k := k + 1;
      }
    }

    /** The reverse of an order of all the records repeats no name. */
    lemma ReversedFresh(ord: seq<string>)
      requires Distinct(ord) && Elems(ord) == components.Keys
      ensures forall k :: 0 <= k < |Reversed(ord)| ==> FreshAt(Reversed(ord), k)
    {
      var rev := Reversed(ord);
      forall k | 0 <= k < |rev| ensures FreshAt(rev, k) {
        assert rev[k] == ord[|ord| - 1 - k] && rev[k] in Elems(ord);
        forall j | 0 <= j < k ensures rev[j] != rev[k] {
          assert rev[j] == ord[|ord| - 1 - j];
        }
      }
    }

    /** The reversal in Go's `Stop`: the start order reversed, in a fresh array. */
    method ReverseOrder(ord: seq<string>) returns (rev: seq<string>)
      ensures rev == Reversed(ord)
    {
      var order := new string[|ord|](i requires 0 <= i < |ord| => ord[i]);
      assert order[..] == ord;
      ReverseInPlace(order);
      rev := order[..];
    }

    /** A stop from explained records leaves the records explained. */
    lemma StopValid(rev: seq<string>, s0: SystemState, replies: string -> StopReply, err: Option<SystemError>)
      requires AllExplained(s0.records)
      requires (err, State()) == StopAlong(s0, rev, replies)
      ensures AllExplained(Records())
    {
      StopAllExplained(s0.records, rev, |rev|, s0.context, replies);
    }

    /**
     * The stopping half of Go's `Stop`, once the start order is known: stops
     * every record along its reverse and marks the system stopped.
     */
    method StopOrdered(ord: seq<string>, replies: string -> StopReply) returns (err: Option<SystemError>)
      requires RecordsDistinct() && AllExplained(Records()) && Distinct(ord) && Elems(ord) == components.Keys
      modifies this, components.Values
      ensures (err, State()) == StopAlong(old(State()), Reversed(ord), replies) && !started
      ensures RecordsDistinct() && AllExplained(Records())
    {
      ghost var s0 := State();
      var rev := ReverseOrder(ord);
      ReversedFresh(ord);
      err := StopInOrder(rev, replies);
      StopValid(rev, s0, replies, err);
      ghost var outcome := (err, State());
      assert outcome == StopAlong(s0, rev, replies);
      RecordsAreNotThis();
      started := false;
      assert State() == outcome.1;
    }

    /**
     * Go's `Stop`: nothing happens on a system that is not started;
     * otherwise every record is stopped in the reverse of `KahnOrder`, each
     * with the whole context, the last failure is reported, and the system
     * is no longer started.
     */
    method Stop(replies: string -> StopReply) returns (err: Option<SystemError>)
      requires Valid()
      modifies this, components.Values
      ensures Valid() && !started
      ensures !old(started) ==> err.None? && unchanged(this) && Records() == old(Records())
      ensures old(started) ==> (err, State()) == StopAlong(old(State()), Reversed(KahnOrder(G())), replies)
    {
      if !started {
        return None;
      }
      var ord, orderErr := GetOrderedComponents();
      if orderErr.Some? {
        return orderErr;
      }
      ghost var s0 := State();
      assert s0 == old(State());
      err := StopOrdered(ord, replies);
    }

    /** Go's `GetContext`: a copy of the context, made entry by entry. */
    method GetContext() returns (ctx: Context)
      ensures ctx == context
    {
      ctx := map[];
      var rest := context.Keys;
      while rest != {}
        invariant rest <= context.Keys
        invariant ctx.Keys == context.Keys - rest
        invariant forall n :: n in ctx ==> ctx[n] == context[n]
        decreases rest
      {
        var n :| n in rest;
        ctx := ctx[n := context[n]];
        rest := rest - {n};
      }
    }
  }
}
