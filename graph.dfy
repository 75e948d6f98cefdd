/**
 * The dependency graph behind component/system.go, as pure definitions:
 * cycles, dependency-respecting orders, and the order Kahn's algorithm with
 * a lexicographically sorted ready queue produces.
 *
 * Edges run from a component to a component it depends on. Names that are
 * not registered are not nodes: an edge to one is no edge at all.
 */
module Graphs {
  import opened StringOrder

  /** Registered name to its declared dependency names (in order, duplicates allowed). */
  type Graph = map<string, seq<string>>

  /** `u` declares a dependency on the registered component `v`. */
  predicate Edge(g: Graph, u: string, v: string)
  {
    u in g && v in g && v in g[u]
  }

  /** `p` walks along edges and returns to where it began; `[a, a]` is a self-loop. */
  ghost predicate IsCycle(g: Graph, p: seq<string>)
  {
    |p| >= 2 && p[0] == p[|p| - 1] &&
    forall k :: 0 <= k < |p| - 1 ==> Edge(g, p[k], p[k + 1])
  }

  ghost predicate HasCycle(g: Graph)
  {
    exists p :: IsCycle(g, p)
  }

  /** Every declared dependency name is registered. */
  predicate Registered(g: Graph)
  {
    forall n, d :: n in g && d in g[n] ==> d in g
  }

  predicate Distinct(s: seq<string>)
  {
    forall i, j :: 0 <= i < j < |s| ==> s[i] != s[j]
  }

  function Elems(s: seq<string>): set<string>
  {
    set x | x in s
  }

  /** Every name of `ord` is registered and comes after each of its registered dependencies. */
  ghost predicate DepsBefore(g: Graph, ord: seq<string>)
  {
    forall i :: 0 <= i < |ord| ==> ord[i] in g && forall d :: Edge(g, ord[i], d) ==> d in ord[..i]
  }

  /** A start order: every registered name exactly once, each after its dependencies. */
  ghost predicate IsTopologicalOrder(g: Graph, ord: seq<string>)
  {
    Distinct(ord) && Elems(ord) == g.Keys && DepsBefore(g, ord)
  }

  // ---------------------------------------------------------------------------
  // An order that respects every edge rules out a cycle

  function FirstIndex(s: seq<string>, x: string): (i: nat)
    requires x in s
    ensures i < |s| && s[i] == x
    ensures forall j :: 0 <= j < i ==> s[j] != x
  {
    if s[0] == x then 0 else 1 + FirstIndex(s[1..], x)
  }

  lemma EdgeGoesToEarlierName(g: Graph, ord: seq<string>, u: string, v: string)
    requires DepsBefore(g, ord) && u in ord && Edge(g, u, v)
    ensures v in ord && FirstIndex(ord, v) < FirstIndex(ord, u)
  {
    var i := FirstIndex(ord, u);
    assert v in ord[..i];
    var j :| 0 <= j < i && ord[j] == v;
  }

  lemma {:induction false} CycleClimbsOrder(g: Graph, ord: seq<string>, p: seq<string>, k: nat)
    requires DepsBefore(g, ord) && IsCycle(g, p)
    requires forall n :: n in g ==> n in ord
    requires 1 <= k < |p|
    ensures p[0] in ord && p[k] in ord && FirstIndex(ord, p[k]) < FirstIndex(ord, p[0])
  {
    assert Edge(g, p[k - 1], p[k]);
    EdgeGoesToEarlierName(g, ord, p[k - 1], p[k]);
    if k > 1 {
      CycleClimbsOrder(g, ord, p, k - 1);
    }
  }

  /** A graph whose names all appear in an order that respects every edge has no cycle. */
  lemma OrderedGraphIsAcyclic(g: Graph, ord: seq<string>)
    requires DepsBefore(g, ord)
    requires forall n :: n in g ==> n in ord
    ensures !HasCycle(g)
  {
    if HasCycle(g) {
      var p :| IsCycle(g, p);
      CycleClimbsOrder(g, ord, p, |p| - 1);
      assert false;
    }
  }

  // ---------------------------------------------------------------------------
  // Kahn's algorithm, always taking the least ready name

  /** `n` is registered, not yet output, and all its registered dependencies have been output. */
  ghost predicate IsReady(g: Graph, done: seq<string>, n: string)
  {
    n in g && n !in done && forall d :: Edge(g, n, d) ==> d in done
  }

  /** The names the sort may output next. */
  ghost function Ready(g: Graph, done: seq<string>): set<string>
  {
    set n | n in g && IsReady(g, done, n)
  }

  ghost function KahnFrom(g: Graph, done: seq<string>): seq<string>
    decreases |g.Keys - Elems(done)|
  {
    var ready := Ready(g, done);
    if ready == {} then done
    else
      var next := Least(ready);
      assert g.Keys - Elems(done + [next]) == (g.Keys - Elems(done)) - {next};
      KahnFrom(g, done + [next])
  }

  /**
   * The order the topological sort produces for `g`, as far as it gets, when
   * every dependency of `g` is registered. Unregistered names are ignored
   * here; the program rejects such a graph before it sorts.
   */
  ghost function KahnOrder(g: Graph): seq<string>
  {
    KahnFrom(g, [])
  }

  /** The `i`-th name of `ord` is the least of the names ready after `ord[..i]`. */
  ghost predicate GreedyStep(g: Graph, ord: seq<string>, i: nat)
    requires i < |ord|
  {
    ord[i] in Ready(g, ord[..i]) && forall y :: y in Ready(g, ord[..i]) ==> LessEq(ord[i], y)
  }

  /** Every step takes the least ready name, and the sequence ends when nothing is ready. */
  ghost predicate GreedyOrder(g: Graph, ord: seq<string>)
  {
    (forall i :: 0 <= i < |ord| ==> GreedyStep(g, ord, i)) && Ready(g, ord) == {}
  }

  /** Outputting a ready name keeps an order duplicate-free and dependency-respecting. */
  lemma ExtendWithReady(g: Graph, done: seq<string>, next: string)
    requires Distinct(done) && DepsBefore(g, done)
    requires next in Ready(g, done)
    ensures Distinct(done + [next]) && DepsBefore(g, done + [next])
  {
    var done' := done + [next];
    forall i | 0 <= i < |done'|
      ensures done'[i] in g && forall d :: Edge(g, done'[i], d) ==> d in done'[..i]
    {
      if i < |done| { assert done'[..i] == done[..i]; } else { assert done'[..i] == done; }
    }
  }

  /** One step of the sort: with a name ready, it outputs the least one and carries on. */
  lemma KahnFromUnfold(g: Graph, done: seq<string>)
    requires Ready(g, done) != {}
    ensures KahnFrom(g, done) == KahnFrom(g, done + [Least(Ready(g, done))])
  {
  }

  /** A sequence that starts with `done + [next]` starts with `done`, followed by `next`. */
  lemma PrefixSplit(k: seq<string>, done: seq<string>, next: string)
    requires |done| + 1 <= |k| && k[..|done| + 1] == done + [next]
    ensures k[..|done|] == done && k[|done|] == next
  {
    assert k[..|done|] == k[..|done| + 1][..|done|];
  }

  /** Outputting the least ready name leaves fewer names to output. */
  lemma LeastReadyShrinks(g: Graph, done: seq<string>)
    requires Ready(g, done) != {}
    ensures |g.Keys - Elems(done + [Least(Ready(g, done))])| < |g.Keys - Elems(done)|
  {
    var next := Least(Ready(g, done));
    assert g.Keys - Elems(done + [next]) == (g.Keys - Elems(done)) - {next};
  }

  lemma {:induction false} KahnFromExtends(g: Graph, done: seq<string>)
    requires Distinct(done) && DepsBefore(g, done)
    ensures var k := KahnFrom(g, done);
      |done| <= |k| && k[..|done|] == done && Distinct(k) && DepsBefore(g, k) && Ready(g, k) == {}
    decreases |g.Keys - Elems(done)|
  {
    if Ready(g, done) == {} {
      assert done[..|done|] == done;
    } else {
      var next := Least(Ready(g, done));
      LeastReadyShrinks(g, done);
      ExtendWithReady(g, done, next);
      KahnFromExtends(g, done + [next]);
      KahnFromUnfold(g, done);
      PrefixSplit(KahnFrom(g, done), done, next);
    }
  }

  lemma {:induction false} KahnFromGreedy(g: Graph, done: seq<string>)
    requires Distinct(done) && DepsBefore(g, done)
    ensures var k := KahnFrom(g, done);
      |done| <= |k| && forall i :: |done| <= i < |k| ==> GreedyStep(g, k, i)
    decreases |g.Keys - Elems(done)|
  {
    var ready := Ready(g, done);
    if ready != {} {
      var next := Least(ready);
      var done' := done + [next];
      LeastReadyShrinks(g, done);
      ExtendWithReady(g, done, next);
      KahnFromGreedy(g, done');
      KahnFromExtends(g, done');
      KahnFromUnfold(g, done);
      var k := KahnFrom(g, done);
      PrefixSplit(k, done, next);
      forall i | |done| <= i < |k| ensures GreedyStep(g, k, i) {
        if i == |done| {
          assert next in ready && forall y :: y in ready ==> LessEq(next, y);
        }
      }
    }
  }

  /** The sort outputs the least ready name at every step and stops only when none is ready. */
  lemma KahnOrderIsGreedy(g: Graph)
    ensures GreedyOrder(g, KahnOrder(g))
    ensures Distinct(KahnOrder(g)) && DepsBefore(g, KahnOrder(g))
  {
    KahnFromExtends(g, []);
    KahnFromGreedy(g, []);
  }

  lemma {:induction false} GreedySuffix(g: Graph, ord: seq<string>, i: nat)
    requires GreedyOrder(g, ord) && i <= |ord|
    ensures KahnFrom(g, ord[..i]) == ord
    decreases |ord| - i
  {
    if i == |ord| {
      assert ord[..i] == ord;
    } else {
      assert GreedyStep(g, ord, i);
      var ready := Ready(g, ord[..i]);
      LeastUnique(ready, ord[i]);
      assert ord[..i] + [ord[i]] == ord[..i + 1];
      GreedySuffix(g, ord, i + 1);
    }
  }

  /** Greedy-least is a full characterisation: only one sequence is greedy, the sort's output. */
  lemma GreedyOrderUnique(g: Graph, ord: seq<string>)
    requires GreedyOrder(g, ord)
    ensures ord == KahnOrder(g)
  {
    GreedySuffix(g, ord, 0);
    assert ord[..0] == [];
  }

  // ---------------------------------------------------------------------------
  // The sort outputs every name exactly when the graph has no cycle

  lemma {:induction false} DistinctCard(s: seq<string>)
    requires Distinct(s)
    ensures |Elems(s)| == |s|
  {
    if s != [] {
      DistinctCard(s[1..]);
      assert Elems(s) == Elems(s[1..]) + {s[0]};
      assert s[0] !in Elems(s[1..]);
    }
  }

  lemma {:induction false} SubsetCard(a: set<string>, b: set<string>)
    requires a <= b
    ensures |a| <= |b|
    ensures |a| == |b| ==> a == b
    decreases |b|
  {
    if b != {} {
      var x :| x in b;
      SubsetCard(a - {x}, b - {x});
      if x in a {
        assert a == (a - {x}) + {x};
      } else {
        assert a - {x} == a;
      }
    }
  }

  /** When nothing is ready, every registered name not yet output waits for another such name. */
  lemma StuckNameWaits(g: Graph, done: seq<string>, n: string) returns (d: string)
    requires Ready(g, done) == {}
    requires n in g && n !in done
    ensures Edge(g, n, d) && d !in done
  {
    assert n !in Ready(g, done);
    assert !IsReady(g, done, n);
    d :| Edge(g, n, d) && d !in done;
  }

  /** When nothing is ready, a walk of any length runs through names not yet output. */
  lemma {:induction false} StuckWalk(g: Graph, done: seq<string>, start: string, len: nat) returns (w: seq<string>)
    requires Ready(g, done) == {}
    requires start in g && start !in done
    ensures |w| == len + 1 && w[0] == start
    ensures forall k :: 0 <= k < |w| ==> w[k] in g.Keys - Elems(done)
    ensures forall k :: 0 <= k < |w| - 1 ==> Edge(g, w[k], w[k + 1])
    decreases len
  {
    if len == 0 {
      w := [start];
    } else {
      var d := StuckNameWaits(g, done, start);
      var rest := StuckWalk(g, done, d, len - 1);
      w := [start] + rest;
    }
  }

  /** A sequence longer than the set it draws from repeats an element. */
  lemma {:induction false} Pigeonhole(w: seq<string>, r: set<string>) returns (i: nat, j: nat)
    requires forall k :: 0 <= k < |w| ==> w[k] in r
    requires |w| > |r|
    ensures i < j < |w| && w[i] == w[j]
    decreases |r|
  {
    if w[0] in w[1..] {
      var k :| 0 <= k < |w| - 1 && w[1..][k] == w[0];
      i, j := 0, k + 1;
    } else {
      var i', j' := Pigeonhole(w[1..], r - {w[0]});
      i, j := i' + 1, j' + 1;
    }
  }

  /** A walk along edges that meets the same name twice contains a cycle. */
  lemma RepeatCloses(g: Graph, w: seq<string>, i: nat, j: nat)
    requires i < j < |w| && w[i] == w[j]
    requires forall k :: 0 <= k < |w| - 1 ==> Edge(g, w[k], w[k + 1])
    ensures IsCycle(g, w[i..j + 1])
  {
    var p := w[i..j + 1];
    forall m | 0 <= m < |p| - 1 ensures Edge(g, p[m], p[m + 1]) {
      assert p[m] == w[i + m] && p[m + 1] == w[i + m + 1];
    }
  }

  /** A duplicate-free sequence shorter than the registered names leaves one of them out. */
  lemma SomeNameLeft(g: Graph, k: seq<string>)
    requires Distinct(k) && Elems(k) <= g.Keys && |k| < |g|
    ensures g.Keys - Elems(k) != {}
  {
    DistinctCard(k);
    SubsetCard(Elems(k), g.Keys);
    assert |g.Keys| == |g|;
    assert Elems(k) != g.Keys;
    var x :| x in g.Keys && x !in Elems(k);
    assert x in g.Keys - Elems(k);
  }

  /** If the sort stops before every name is output, the names left over contain a cycle. */
  lemma KahnShortHasCycle(g: Graph)
    requires |KahnOrder(g)| < |g|
    ensures HasCycle(g)
  {
    var k := KahnOrder(g);
    KahnOrderIsGreedy(g);
    assert Elems(k) <= g.Keys;
    SomeNameLeft(g, k);
    var r := g.Keys - Elems(k);
    var start :| start in r;
    var w := StuckWalk(g, k, start, |r|);
    var i, j := Pigeonhole(w, r);
    RepeatCloses(g, w, i, j);
  }

  /** The sort outputs a start order of all names exactly when the graph has no cycle. */
  lemma KahnCompleteIffAcyclic(g: Graph)
    ensures |KahnOrder(g)| <= |g|
    ensures |KahnOrder(g)| == |g| <==> !HasCycle(g)
    ensures |KahnOrder(g)| == |g| ==> IsTopologicalOrder(g, KahnOrder(g))
  {
    var k := KahnOrder(g);
    KahnOrderIsGreedy(g);
    DistinctCard(k);
    assert Elems(k) <= g.Keys;
    SubsetCard(Elems(k), g.Keys);
    if |k| == |g| {
      OrderedGraphIsAcyclic(g, k);
    } else {
      KahnShortHasCycle(g);
    }
  }

  // ---------------------------------------------------------------------------
  // In-degrees: how many dependency entries still wait for their target

  /** The number of entries of `deps` (duplicates counted) not yet in `done`. */
  function Pending(deps: seq<string>, done: set<string>): nat
  {
    if deps == [] then 0 else (if deps[0] in done then 0 else 1) + Pending(deps[1..], done)
  }

  lemma {:induction false} PendingZero(deps: seq<string>, done: set<string>)
    ensures Pending(deps, done) == 0 <==> forall d :: d in deps ==> d in done
  {
    if deps != [] {
      PendingZero(deps[1..], done);
      assert forall d :: d in deps <==> d == deps[0] || d in deps[1..];
    }
  }

  lemma {:induction false} PendingInitially(deps: seq<string>)
    ensures Pending(deps, {}) == |deps|
  {
    if deps != [] { PendingInitially(deps[1..]); }
  }

  /** Outputting `c` lowers the count by the number of times `c` is listed. */
  lemma {:induction false} PendingAfterOutput(deps: seq<string>, done: set<string>, c: string)
    requires c !in done
    ensures Pending(deps, done + {c}) == Pending(deps, done) - multiset(deps)[c]
    ensures multiset(deps)[c] <= Pending(deps, done)
  {
    if deps != [] {
      PendingAfterOutput(deps[1..], done, c);
      assert deps == [deps[0]] + deps[1..];
      assert multiset(deps)[c] == (if deps[0] == c then 1 else 0) + multiset(deps[1..])[c];
    }
  }

  // ---------------------------------------------------------------------------
  // Reversal, for the stop sequence

  function Reversed(s: seq<string>): (r: seq<string>)
    ensures |r| == |s|
  {
    seq(|s|, i requires 0 <= i < |s| => s[|s| - 1 - i])
  }

  /** In the reverse of a start order, every component comes before all of its dependencies. */
  lemma ReversedStopsDependentsFirst(g: Graph, ord: seq<string>)
    requires IsTopologicalOrder(g, ord)
    ensures forall i, d :: 0 <= i < |ord| && Edge(g, Reversed(ord)[i], d) ==> d in Reversed(ord)[i + 1..]
  {
    var rev := Reversed(ord);
    forall i, d | 0 <= i < |ord| && Edge(g, rev[i], d) ensures d in rev[i + 1..] {
      var n := |ord| - 1 - i;
      assert rev[i] == ord[n];
      assert d in ord[..n];
      var j :| 0 <= j < n && ord[j] == d;
      assert rev[|ord| - 1 - j] == d;
      assert rev[i + 1..][|ord| - 1 - j - (i + 1)] == d;
    }
  }
}
