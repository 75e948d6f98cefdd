/**
 * The bookkeeping of the depth-first cycle search in component/system.go
 * (`checkCyclicDependencies` and `isCyclic`) and the facts it relies on.
 */
module DepthFirst {
  import opened Graphs

  /**
   * What the search knows at every point: `path` is a walk along edges
   * holding exactly the names on the recursion stack, and every name it
   * has left comes after each of its registered dependencies.
   */
  ghost predicate SearchInv(g: Graph, visited: set<string>, recStack: set<string>,
                            path: seq<string>, finished: seq<string>)
  {
    visited <= g.Keys && recStack <= visited &&
    recStack == Elems(path) &&
    (forall k :: 0 <= k < |path| - 1 ==> Edge(g, path[k], path[k + 1])) &&
    Elems(finished) == visited - recStack &&
    DepsBefore(g, finished)
  }

  /** An edge from the end of a walk back onto the walk closes a cycle. */
  lemma BackEdgeCloses(g: Graph, path: seq<string>, dep: string)
    requires |path| > 0 && dep in path
    requires forall k :: 0 <= k < |path| - 1 ==> Edge(g, path[k], path[k + 1])
    requires Edge(g, path[|path| - 1], dep)
    ensures HasCycle(g)
  {
    var j :| 0 <= j < |path| && path[j] == dep;
    var p := path[j..] + [dep];
    forall m | 0 <= m < |p| - 1 ensures Edge(g, p[m], p[m + 1]) {
      if m < |p| - 2 {
        assert p[m] == path[j + m] && p[m + 1] == path[j + m + 1];
      } else {
        assert p[m] == path[|path| - 1];
      }
    }
    assert IsCycle(g, p);
  }

  /** Entering a new name pushes it onto the path and the recursion stack. */
  lemma EnterName(g: Graph, visited: set<string>, recStack: set<string>,
                  path: seq<string>, finished: seq<string>, name: string)
    requires SearchInv(g, visited, recStack, path, finished)
    requires name in g && name !in visited
    requires path != [] ==> Edge(g, path[|path| - 1], name)
    ensures SearchInv(g, visited + {name}, recStack + {name}, path + [name], finished)
  {
    var path' := path + [name];
    forall k | 0 <= k < |path'| - 1 ensures Edge(g, path'[k], path'[k + 1]) {
      if k < |path| - 1 { assert path'[k] == path[k] && path'[k + 1] == path[k + 1]; }
    }
  }

  /** Leaving a name whose dependencies are all finished appends it to the finished names. */
  lemma LeaveName(g: Graph, visited: set<string>, recStack: set<string>,
                  path: seq<string>, finished: seq<string>, name: string)
    requires SearchInv(g, visited, recStack + {name}, path + [name], finished)
    requires recStack == Elems(path) && name !in recStack
    requires forall d :: Edge(g, name, d) ==> d in visited && d !in recStack + {name}
    ensures SearchInv(g, visited, recStack, path, finished + [name])
  {
    var f := finished + [name];
    assert Elems(f) == Elems(finished) + {name};
    forall k | 0 <= k < |path| - 1 ensures Edge(g, path[k], path[k + 1]) {
      assert (path + [name])[k] == path[k] && (path + [name])[k + 1] == path[k + 1];
    }
    forall j | 0 <= j < |f|
      ensures f[j] in g && forall d :: Edge(g, f[j], d) ==> d in f[..j]
    {
      if j < |finished| {
        assert f[..j] == finished[..j];
      } else {
        assert f[..j] == finished;
        forall d | Edge(g, name, d) ensures d in finished {
          assert d in Elems(finished);
        }
      }
    }
  }

  /** Visiting one more name leaves fewer names to visit. */
  lemma FewerUnvisited(g: Graph, before: set<string>, visited: set<string>, name: string)
    requires before + {name} <= visited && name in g && name !in before
    ensures |g.Keys - visited| < |g.Keys - before|
  {
    SubsetCard(g.Keys - visited, (g.Keys - before) - {name});
  }

  /** Every registered name among the first `i` dependencies is in `done`. */
  ghost predicate Handled(g: Graph, deps: seq<string>, i: int, done: set<string>)
  {
    forall j :: 0 <= j < i && j < |deps| && deps[j] in g ==> deps[j] in done
  }

  /** Handling dependency `i` extends `Handled` by one. */
  lemma HandledStep(g: Graph, deps: seq<string>, i: int, done: set<string>, done': set<string>)
    requires 0 <= i < |deps| && Handled(g, deps, i, done) && done <= done'
    requires deps[i] in g ==> deps[i] in done'
    ensures Handled(g, deps, i + 1, done')
  {
  }

  /** Once all dependencies are handled, every edge leads into `done`. */
  lemma HandledAll(g: Graph, name: string, deps: seq<string>, done: set<string>)
    requires name in g && deps == g[name] && Handled(g, deps, |deps|, done)
    ensures forall d :: Edge(g, name, d) ==> d in done
  {
    forall d | Edge(g, name, d) ensures d in done {
      var j :| 0 <= j < |deps| && deps[j] == d;
    }
  }
}
