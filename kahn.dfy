/**
 * The bookkeeping of the topological sort in component/system.go
 * (`getOrderedComponents`): the reversed adjacency lists ("dependents"), the
 * in-degree counters and the ready queue, and the facts that tie them to
 * the pure definitions of module Graphs.
 */
module KahnSteps {
  import opened StringOrder
  import opened Graphs

  /** `s[..k + 1]` extends `s[..k]` by one element. */
  lemma TakeOneMore(s: seq<string>, k: int)
    requires 0 <= k < |s|
    ensures s[..k + 1] == s[..k] + [s[k]]
  {
  }

  /** Moving `name` from the names still to visit to the names done. */
  lemma MoveName(keys: set<string>, names: set<string>, done: set<string>, name: string)
    requires names <= keys && done == keys - names && name in names
    ensures done + {name} == keys - (names - {name})
  {
  }

  /** The queue holds each name of `s` exactly once and nothing else. */
  ghost predicate OnceEach(queue: seq<string>, s: set<string>)
  {
    forall n :: multiset(queue)[n] == if n in s then 1 else 0
  }

  /** `s[k..]` is `s[k]` followed by `s[k + 1..]`. */
  lemma DropOne(s: seq<string>, k: int)
    requires 0 <= k < |s|
    ensures multiset(s[k..]) == multiset{s[k]} + multiset(s[k + 1..])
  {
    assert s[k..] == [s[k]] + s[k + 1..];
  }

  // ---------------------------------------------------------------------------
  // Building the dependents lists and the in-degrees

  /** How often `dependents[d]` must list `n` once the building loop has recorded `listed` for `name`. */
  ghost function Expected(g: Graph, done: set<string>, name: string, listed: seq<string>, d: string, n: string): nat
  {
    if n in done && n in g then multiset(g[n])[d] else if n == name then multiset(listed)[d] else 0
  }

  /** Every dependents list counts each registered name as `Expected` says. */
  ghost predicate CountsAgree(g: Graph, dependents: Graph, done: set<string>, name: string, listed: seq<string>)
  {
    forall d, n :: d in dependents && n in g ==>
      multiset(dependents[d])[n] == Expected(g, done, name, listed, d, n)
  }

  /** Dependents lists name registered components only. */
  ghost predicate ListsRegistered(g: Graph, dependents: Graph)
  {
    forall d, n :: d in dependents && n in dependents[d] ==> n in g
  }

  /**
   * The state of the building loop while the dependencies `listed` of `name`
   * are being processed, after the names of `done`: every registered name has
   * a dependents list and a counter, the lists count as `Expected` says and
   * each counter holds the number of entries recorded for its name.
   */
  ghost predicate BuildingFor(g: Graph, dependents: Graph, inDegree: map<string, int>, done: set<string>,
                              name: string, listed: seq<string>)
  {
    name !in done &&
    dependents.Keys == g.Keys && inDegree.Keys == g.Keys &&
    ListsRegistered(g, dependents) && CountsAgree(g, dependents, done, name, listed) &&
    (forall n :: n in g ==> inDegree[n] == if n in done then |g[n]| else if n == name then |listed| else 0)
  }

  /** All dependencies of the names in `done` are registered. */
  ghost predicate RegisteredFor(g: Graph, done: set<string>)
  {
    forall n, d :: n in done && n in g && d in g[n] ==> d in g
  }

  /** Recording `name` as a dependent of `dep` adds one to exactly one expected count. */
  lemma CountsStep(g: Graph, dependents: Graph, done: set<string>, name: string, listed: seq<string>, dep: string)
    requires CountsAgree(g, dependents, done, name, listed) && name !in done && dep in dependents
    ensures CountsAgree(g, dependents[dep := dependents[dep] + [name]], done, name, listed + [dep])
  {
    var dependents' := dependents[dep := dependents[dep] + [name]];
    var listed' := listed + [dep];
    assert multiset(listed') == multiset(listed) + multiset{dep};
    assert multiset(dependents'[dep]) == multiset(dependents[dep]) + multiset{name};
    forall d, n | d in dependents' && n in g
      ensures multiset(dependents'[d])[n] == Expected(g, done, name, listed', d, n)
    {
      if d != dep {
        assert dependents'[d] == dependents[d];
      }
    }
  }

  /** Recording the registered `name` as a dependent of `dep`. */
  lemma ListDependent(g: Graph, dependents: Graph, inDegree: map<string, int>, done: set<string>,
                      name: string, listed: seq<string>, dep: string)
    requires BuildingFor(g, dependents, inDegree, done, name, listed) && name in g && dep in g
    ensures BuildingFor(g, dependents[dep := dependents[dep] + [name]],
                        inDegree[name := inDegree[name] + 1], done, name, listed + [dep])
  {
    CountsStep(g, dependents, done, name, listed, dep);
  }

  /**
   * The state of the building loop after the names of `done`: every
   * registered name has a dependents list and a counter, `dependents[d]`
   * lists each name of `done` as often as that name lists `d`, and the
   * counter of a name of `done` holds the length of its dependency list.
   */
  ghost predicate BuiltFor(g: Graph, dependents: Graph, inDegree: map<string, int>, done: set<string>)
  {
    dependents.Keys == g.Keys && inDegree.Keys == g.Keys &&
    ListsRegistered(g, dependents) &&
    (forall d, n :: d in dependents && n in g ==>
       multiset(dependents[d])[n] == if n in done then multiset(g[n])[d] else 0) &&
    (forall n :: n in g ==> inDegree[n] == if n in done then |g[n]| else 0)
  }

  lemma BeginName(g: Graph, dependents: Graph, inDegree: map<string, int>, done: set<string>, name: string)
    requires BuiltFor(g, dependents, inDegree, done) && name !in done
    ensures BuildingFor(g, dependents, inDegree, done, name, [])
  {
    forall d, n | d in dependents && n in g
      ensures multiset(dependents[d])[n] == Expected(g, done, name, [], d, n)
    {
    }
  }

  lemma EndName(g: Graph, dependents: Graph, inDegree: map<string, int>, done: set<string>, name: string)
    requires name in g && BuildingFor(g, dependents, inDegree, done, name, g[name])
    ensures BuiltFor(g, dependents, inDegree, done + {name})
  {
    forall d, n | d in dependents && n in g
      ensures multiset(dependents[d])[n] == if n in done + {name} then multiset(g[n])[d] else 0
    {
      assert multiset(dependents[d])[n] == Expected(g, done, name, g[name], d, n);
    }
  }

  // ---------------------------------------------------------------------------
  // The main loop

  /** `dependents[d]` lists every registered name once per time it lists `d`. */
  ghost predicate DependentsOf(g: Graph, dependents: Graph)
  {
    dependents.Keys == g.Keys &&
    (forall d, n :: d in dependents && n in dependents[d] ==> n in g) &&
    (forall d, n :: d in dependents && n in g ==> multiset(dependents[d])[n] == multiset(g[n])[d])
  }

  /** Every counter holds the number of dependency entries whose target is not yet output. */
  ghost predicate DegreesCount(g: Graph, inDegree: map<string, int>, result: seq<string>)
  {
    inDegree.Keys == g.Keys &&
    forall n :: n in g ==> inDegree[n] == Pending(g[n], Elems(result))
  }

  lemma BuiltAll(g: Graph, dependents: Graph, inDegree: map<string, int>)
    requires BuiltFor(g, dependents, inDegree, g.Keys)
    ensures DependentsOf(g, dependents) && DegreesCount(g, inDegree, [])
  {
    forall n | n in g ensures inDegree[n] == Pending(g[n], Elems([])) {
      PendingInitially(g[n]);
      assert Elems([]) == {};
    }
  }

  /** In a registered graph, a name is ready exactly when its counter is zero. */
  lemma ReadyIffZero(g: Graph, inDegree: map<string, int>, result: seq<string>)
    requires Registered(g) && DegreesCount(g, inDegree, result)
    ensures forall n :: n in Ready(g, result) <==> n in g && n !in result && inDegree[n] == 0
  {
    forall n | n in g
      ensures IsReady(g, result, n) <==> n !in result && inDegree[n] == 0
    {
      PendingZero(g[n], Elems(result));
    }
  }

  /** Every name of `result` was the least ready name when it was output. */
  ghost predicate GreedyPrefix(g: Graph, result: seq<string>)
  {
    forall i :: 0 <= i < |result| ==> GreedyStep(g, result, i)
  }

  /** Outputting the head of the sorted ready queue extends a greedy prefix. */
  lemma TakeLeast(g: Graph, result: seq<string>, queue: seq<string>)
    requires GreedyPrefix(g, result)
    requires Sorted(queue) && queue != []
    requires forall n :: n in queue <==> n in Ready(g, result)
    ensures IsReady(g, result, queue[0])
    ensures GreedyPrefix(g, result + [queue[0]])
  {
    var c := queue[0];
    var r := result + [c];
    SortedHeadIsLeast(queue);
    forall i | 0 <= i < |r| ensures GreedyStep(g, r, i) {
      if i < |result| {
        assert r[..i] == result[..i] && r[i] == result[i];
        assert GreedyStep(g, result, i);
      } else {
        assert r[..i] == result && r[i] == c;
        assert c in Ready(g, result);
      }
    }
  }

  /** A greedy prefix after which nothing is ready is the whole sort order. */
  lemma GreedyComplete(g: Graph, result: seq<string>)
    requires GreedyPrefix(g, result) && Ready(g, result) == {}
    ensures result == KahnOrder(g)
  {
    GreedyOrderUnique(g, result);
  }

  /** Outputting a registered name not yet output leaves one name fewer to output. */
  lemma OneMoreOutput(g: Graph, result: seq<string>, c: string)
    requires c in g && c !in result
    ensures |g.Keys - Elems(result + [c])| < |g.Keys - Elems(result)|
  {
    assert g.Keys - Elems(result + [c]) == (g.Keys - Elems(result)) - {c};
  }

  /** Once the zero counters are collected, the queue holds the names ready at the start. */
  lemma SourcesReady(g: Graph, inDegree: map<string, int>, queue: seq<string>)
    requires Registered(g) && DegreesCount(g, inDegree, [])
    requires forall n :: multiset(queue)[n] == if n in inDegree && inDegree[n] == 0 then 1 else 0
    ensures OnceEach(queue, Ready(g, []))
  {
    ReadyIffZero(g, inDegree, []);
  }

  /**
   * The state of the neighbour loop once the first `k` entries of `nbrs`
   * are released: each counter exceeds its target by the entries still to
   * come that name it, those entries name registered names not yet output,
   * and the queue holds exactly the zero counters of names not yet output.
   */
  ghost predicate Releasing(g: Graph, inDegree: map<string, int>, result: seq<string>,
                            nbrs: seq<string>, k: int, queue: seq<string>)
  {
    0 <= k <= |nbrs| && inDegree.Keys == g.Keys &&
    (forall n :: n in g ==> inDegree[n] == Pending(g[n], Elems(result)) + multiset(nbrs[k..])[n]) &&
    (forall n :: n in nbrs ==> n in g && n !in result) &&
    (forall n :: multiset(queue)[n] == if n in g && n !in result && inDegree[n] == 0 then 1 else 0)
  }

  /** After `c` is output, each counter exceeds its new target by the entries of `dependents[c]` naming it. */
  lemma ReleaseCounts(g: Graph, dependents: Graph, inDegree: map<string, int>, result: seq<string>, c: string)
    requires Registered(g) && DependentsOf(g, dependents) && DegreesCount(g, inDegree, result)
    requires DepsBefore(g, result) && IsReady(g, result, c)
    ensures forall n :: n in g ==>
      inDegree[n] == Pending(g[n], Elems(result + [c])) + multiset(dependents[c][0..])[n]
    ensures forall n :: n in dependents[c] ==> n in g && n !in result + [c]
  {
    var s := Elems(result);
    assert Elems(result + [c]) == s + {c};
    assert dependents[c][0..] == dependents[c];
    forall n | n in g
      ensures inDegree[n] == Pending(g[n], Elems(result + [c])) + multiset(dependents[c][0..])[n]
    {
      PendingAfterOutput(g[n], s, c);
    }
    forall n | n in dependents[c] ensures n in g && n !in result + [c] {
      assert multiset(g[n])[c] > 0;
      assert Edge(g, n, c);
    }
  }

  /** Taking the head off the ready queue leaves the zero counters of the names other than those output. */
  lemma QueueTail(g: Graph, inDegree: map<string, int>, result: seq<string>, queue: seq<string>)
    requires Registered(g) && DegreesCount(g, inDegree, result)
    requires OnceEach(queue, Ready(g, result)) && queue != []
    ensures IsReady(g, result, queue[0])
    ensures forall n ::
              multiset(queue[1..])[n] == if n in g && n !in result + [queue[0]] && inDegree[n] == 0 then 1 else 0
  {
    ReadyIffZero(g, inDegree, result);
    assert queue == [queue[0]] + queue[1..];
    assert multiset(queue) == multiset{queue[0]} + multiset(queue[1..]);
  }

  /** Counters and queue after the head `queue[0]` of the sorted ready queue is output. */
  lemma BeginRelease(g: Graph, dependents: Graph, inDegree: map<string, int>, result: seq<string>, queue: seq<string>)
    requires Registered(g) && DependentsOf(g, dependents) && DegreesCount(g, inDegree, result)
    requires DepsBefore(g, result) && OnceEach(queue, Ready(g, result)) && queue != []
    ensures queue[0] in dependents
    ensures Releasing(g, inDegree, result + [queue[0]], dependents[queue[0]], 0, queue[1..])
  {
    QueueTail(g, inDegree, result, queue);
    ReleaseCounts(g, dependents, inDegree, result, queue[0]);
  }

  /** One turn of the main loop up to the neighbour loop: sort the queue and output its head. */
  lemma OutputHead(g: Graph, dependents: Graph, inDegree: map<string, int>, result: seq<string>, queue: seq<string>)
    requires Registered(g) && DependentsOf(g, dependents) && DegreesCount(g, inDegree, result)
    requires Distinct(result) && DepsBefore(g, result) && GreedyPrefix(g, result)
    requires OnceEach(queue, Ready(g, result)) && queue != []
    ensures var sorted := SortStrings(queue);
      sorted != [] && sorted[0] in dependents &&
      |g.Keys - Elems(result + [sorted[0]])| < |g.Keys - Elems(result)|
    ensures var sorted := SortStrings(queue);
      var result' := result + [sorted[0]];
      Distinct(result') && DepsBefore(g, result') && GreedyPrefix(g, result') &&
      Releasing(g, inDegree, result', dependents[sorted[0]], 0, sorted[1..])
  {
    var sorted := SortStrings(queue);
    assert multiset(sorted) == multiset(queue);
    assert queue[0] in multiset(sorted);
    assert OnceEach(sorted, Ready(g, result));
    var c := sorted[0];
    TakeLeast(g, result, sorted);
    ExtendWithReady(g, result, c);
    OneMoreOutput(g, result, c);
    BeginRelease(g, dependents, inDegree, result, sorted);
  }

  /** Every entry still to be released has a counter. */
  lemma NeighborCounted(g: Graph, inDegree: map<string, int>, result: seq<string>, nbrs: seq<string>, k: int,
                        queue: seq<string>)
    requires Releasing(g, inDegree, result, nbrs, k, queue) && k < |nbrs|
    ensures nbrs[k] in inDegree
  {
    assert nbrs[k] in nbrs;
  }

  /** Releasing the entry at position `k`: its counter drops, and joins the queue on reaching zero. */
  lemma ReleaseStep(g: Graph, inDegree: map<string, int>, result: seq<string>, nbrs: seq<string>, k: int,
                    queue: seq<string>, left: int, inDegree': map<string, int>, queue': seq<string>)
    requires Releasing(g, inDegree, result, nbrs, k, queue) && k < |nbrs| && nbrs[k] in inDegree
    requires left == inDegree[nbrs[k]] - 1 && inDegree' == inDegree[nbrs[k] := left]
    requires queue' == if left == 0 then queue + [nbrs[k]] else queue
    ensures Releasing(g, inDegree', result, nbrs, k + 1, queue')
  {
    var nb := nbrs[k];
    DropOne(nbrs, k);
    assert multiset(queue') == if inDegree'[nb] == 0 then multiset(queue) + multiset{nb} else multiset(queue);
    forall n | n in g
      ensures inDegree'[n] == Pending(g[n], Elems(result)) + multiset(nbrs[k + 1..])[n]
    {
    }
    forall n
      ensures multiset(queue')[n] == if n in g && n !in result && inDegree'[n] == 0 then 1 else 0
    {
      if n == nb {
        assert inDegree[nb] > 0;
      }
    }
  }

  /** When the neighbour loop has run through all entries, the main loop's invariant holds again. */
  lemma EndRelease(g: Graph, inDegree: map<string, int>, result: seq<string>, nbrs: seq<string>, queue: seq<string>)
    requires Registered(g) && Releasing(g, inDegree, result, nbrs, |nbrs|, queue)
    ensures DegreesCount(g, inDegree, result) && OnceEach(queue, Ready(g, result))
  {
    assert nbrs[|nbrs|..] == [];
    ReadyIffZero(g, inDegree, result);
  }

  /**
   * The neighbour loop of `getOrderedComponents`: every entry of the dependents
   * list of the name just output lowers that dependent's counter by one, and a
   * counter that reaches zero puts its name on the queue.
   */
  method ReleaseDependents(neighbors: seq<string>, inDegree: map<string, int>, queue: seq<string>,
                           ghost g: Graph, ghost result: seq<string>)
    returns (inDegree': map<string, int>, queue': seq<string>)
    requires Registered(g) && Releasing(g, inDegree, result, neighbors, 0, queue)
    ensures DegreesCount(g, inDegree', result) && OnceEach(queue', Ready(g, result))
  {
    inDegree', queue' := inDegree, queue;
    var k := 0;
    while k < |neighbors|
      invariant Releasing(g, inDegree', result, neighbors, k, queue')
    {
      var neighbor := neighbors[k];
      NeighborCounted(g, inDegree', result, neighbors, k, queue');
      ghost var inDegree0, queue0 := inDegree', queue';
      var left := inDegree'[neighbor] - 1;
      inDegree' := inDegree'[neighbor := left];
      if left == 0 {
        queue' := queue' + [neighbor];
      }
      ReleaseStep(g, inDegree0, result, neighbors, k, queue0, left, inDegree', queue');
      k := k + 1;
    }
    EndRelease(g, inDegree', result, neighbors, queue');
  }

  /** The source-collecting loop of `getOrderedComponents`: every name whose counter is zero, once each. */
  method Sources(inDegree: map<string, int>) returns (queue: seq<string>)
    ensures forall n :: multiset(queue)[n] == if n in inDegree && inDegree[n] == 0 then 1 else 0
  {
    queue := [];
    var names := inDegree.Keys;
    while names != {}
      invariant names <= inDegree.Keys
      invariant forall n :: multiset(queue)[n] == if n in inDegree && n !in names && inDegree[n] == 0 then 1 else 0
      decreases names
    {
      var name :| name in names;
      names := names - {name};
      if inDegree[name] == 0 {
        queue := queue + [name];
      }
    }
  }

  /** The state of the main loop of `SortLoop`: counters and queue agree with the names output so far. */
  ghost predicate Sorting(g: Graph, dependents: Graph, inDegree: map<string, int>, queue: seq<string>,
                          result: seq<string>)
  {
    Registered(g) && DependentsOf(g, dependents) && DegreesCount(g, inDegree, result) &&
    OnceEach(queue, Ready(g, result)) &&
    Distinct(result) && DepsBefore(g, result) && GreedyPrefix(g, result)
  }

  /** Before the first round nothing is output and the queue holds the sources. */
  lemma SortingStarts(g: Graph, dependents: Graph, inDegree: map<string, int>, queue: seq<string>)
    requires Registered(g) && DependentsOf(g, dependents) && DegreesCount(g, inDegree, [])
    requires OnceEach(queue, Ready(g, []))
    ensures Sorting(g, dependents, inDegree, queue, [])
  {
    assert GreedyPrefix(g, []);
  }

  /** When the queue runs dry the names output are `KahnOrder(g)`. */
  lemma SortingDone(g: Graph, dependents: Graph, inDegree: map<string, int>, result: seq<string>)
    requires Sorting(g, dependents, inDegree, [], result)
    ensures result == KahnOrder(g)
  {
    assert Ready(g, result) == {} by {
      forall n ensures n !in Ready(g, result) {
        var none: seq<string> := [];
        assert multiset(none)[n] == 0;
      }
    }
    GreedyComplete(g, result);
  }

  /**
   * One round of the main loop: sort the queue, output its head and release
   * the head's dependents.
   */
  method OutputNext(dependents: Graph, inDegree: map<string, int>, queue: seq<string>,
                    ghost g: Graph, ghost result: seq<string>)
    returns (current: string, inDegree': map<string, int>, queue': seq<string>)
    requires Sorting(g, dependents, inDegree, queue, result) && queue != []
    ensures Sorting(g, dependents, inDegree', queue', result + [current])
    ensures |g.Keys - Elems(result + [current])| < |g.Keys - Elems(result)|
  {
    OutputHead(g, dependents, inDegree, result, queue);
    var sorted := SortStrings(queue);
    current := sorted[0];
    inDegree', queue' := ReleaseDependents(dependents[current], inDegree, sorted[1..], g, result + [current]);
  }

  /**
   * The main loop of Kahn's algorithm as `getOrderedComponents` runs it:
   * it outputs exactly `KahnOrder(g)`.
   */
  method SortLoop(dependents: Graph, inDegree: map<string, int>, queue: seq<string>, ghost g: Graph)
    returns (result: seq<string>)
    requires Registered(g) && DependentsOf(g, dependents) && DegreesCount(g, inDegree, [])
    requires OnceEach(queue, Ready(g, []))
    ensures result == KahnOrder(g)
  {
    SortingStarts(g, dependents, inDegree, queue);
    var degrees, ready := inDegree, queue;
    result := [];
    while ready != []
      invariant Sorting(g, dependents, degrees, ready, result)
      decreases |g.Keys - Elems(result)|
    {
      var current;
      current, degrees, ready := OutputNext(dependents, degrees, ready, g, result);
      result := result + [current];
    }
    SortingDone(g, dependents, degrees, result);
  }
}
