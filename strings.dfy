/**
 * The string order used by the ready queue of the topological sort.
 *
 * Go compares strings byte by byte (UTF-8); on valid text this is the same
 * as comparing code points one by one, which is what `LessEq` does on
 * Dafny's `char`.
 */
module StringOrder {

  /** Lexicographic order: `a` is a prefix of `b`, or is smaller at the first difference. */
  predicate LessEq(a: string, b: string)
    decreases |a|
  {
    |a| == 0 || (|b| > 0 && (a[0] < b[0] || (a[0] == b[0] && LessEq(a[1..], b[1..]))))
  }

  lemma {:induction false} LessEqReflexive(a: string)
    ensures LessEq(a, a)
    decreases |a|
  {
    if |a| > 0 { LessEqReflexive(a[1..]); }
  }

  lemma {:induction false} LessEqAntisymmetric(a: string, b: string)
    requires LessEq(a, b) && LessEq(b, a)
    ensures a == b
    decreases |a|
  {
    if |a| > 0 {
      LessEqAntisymmetric(a[1..], b[1..]);
      assert a == [a[0]] + a[1..] && b == [b[0]] + b[1..];
    }
  }

  lemma {:induction false} LessEqTransitive(a: string, b: string, c: string)
    requires LessEq(a, b) && LessEq(b, c)
    ensures LessEq(a, c)
    decreases |a|
  {
    if |a| > 0 && a[0] == b[0] && b[0] == c[0] {
      LessEqTransitive(a[1..], b[1..], c[1..]);
    }
  }

  lemma {:induction false} LessEqTotal(a: string, b: string)
    ensures LessEq(a, b) || LessEq(b, a)
    decreases |a|
  {
    if |a| > 0 && |b| > 0 && a[0] == b[0] {
      LessEqTotal(a[1..], b[1..]);
    }
  }

  predicate Sorted(s: seq<string>)
  {
    forall i, j :: 0 <= i < j < |s| ==> LessEq(s[i], s[j])
  }

  /** Prepending an element below every element of a sorted sequence keeps it sorted. */
  lemma SortedCons(h: string, t: seq<string>)
    requires Sorted(t)
    requires forall y :: y in t ==> LessEq(h, y)
    ensures Sorted([h] + t)
  {
    var r := [h] + t;
    forall i, j | 0 <= i < j < |r| ensures LessEq(r[i], r[j]) {
      if i == 0 { assert r[j] == t[j - 1]; } else { assert r[i] == t[i - 1] && r[j] == t[j - 1]; }
    }
  }

  /** Inserts `x` into a sorted sequence before the first element not below it. */
  function Insert(x: string, s: seq<string>): seq<string>
  {
    if s == [] then [x]
    else if LessEq(x, s[0]) then [x] + s
    else [s[0]] + Insert(x, s[1..])
  }

  lemma {:induction false} InsertPermutes(x: string, s: seq<string>)
    ensures multiset(Insert(x, s)) == multiset(s) + multiset{x}
  {
    if s != [] && !LessEq(x, s[0]) {
      InsertPermutes(x, s[1..]);
      assert s == [s[0]] + s[1..];
    }
  }

  lemma {:induction false} InsertSorted(x: string, s: seq<string>)
    requires Sorted(s)
    ensures Sorted(Insert(x, s))
  {
    if s == [] {
    } else if LessEq(x, s[0]) {
      forall y | y in s ensures LessEq(x, y) {
        if y != s[0] {
          var j :| 0 < j < |s| && s[j] == y;
          LessEqTransitive(x, s[0], y);
        }
      }
      SortedCons(x, s);
    } else {
      var t := s[1..];
      assert Sorted(t) by {
        forall i, j | 0 <= i < j < |t| ensures LessEq(t[i], t[j]) { assert t[i] == s[i + 1] && t[j] == s[j + 1]; }
      }
      InsertSorted(x, t);
      InsertPermutes(x, t);
      LessEqTotal(x, s[0]);
      forall y | y in Insert(x, t) ensures LessEq(s[0], y) {
        assert y in multiset(Insert(x, t));
        if y != x {
          var j :| 0 <= j < |t| && t[j] == y;
          assert s[j + 1] == y;
        }
      }
      SortedCons(s[0], Insert(x, t));
    }
  }

  /** Go's `sort.Strings`: a sorted permutation of `q`. */
  function SortStrings(q: seq<string>): (r: seq<string>)
    ensures Sorted(r)
    ensures multiset(r) == multiset(q)
  {
    if q == [] then []
    else
      var rest := SortStrings(q[1..]);
      InsertStep(q, rest);
      Insert(q[0], rest)
  }

  /** Inserting the head of `q` into a sorted permutation of its tail sorts `q`. */
  lemma InsertStep(q: seq<string>, rest: seq<string>)
    requires q != [] && Sorted(rest) && multiset(rest) == multiset(q[1..])
    ensures Sorted(Insert(q[0], rest)) && multiset(Insert(q[0], rest)) == multiset(q)
  {
    InsertSorted(q[0], rest);
    InsertPermutes(q[0], rest);
    assert q == [q[0]] + q[1..];
  }

  /** The head of a sorted sequence is below every element of it. */
  lemma SortedHeadIsLeast(s: seq<string>)
    requires Sorted(s) && |s| > 0
    ensures forall y :: y in s ==> LessEq(s[0], y)
  {
    forall y | y in s ensures LessEq(s[0], y) {
      var j :| 0 <= j < |s| && s[j] == y;
      if j == 0 { LessEqReflexive(y); }
    }
  }

  /** The least element of a non-empty finite set of names. */
  ghost function Least(s: set<string>): (r: string)
    requires s != {}
    ensures r in s
    ensures forall y :: y in s ==> LessEq(r, y)
    decreases |s|
  {
    var x :| x in s;
    if s == {x} then
      LessEqReflexive(x);
      x
    else
      var m := Least(s - {x});
      LessEqTotal(x, m);
      LessEqReflexive(x);
      LessEqReflexive(m);
      if LessEq(x, m) then
        assert forall y :: y in s ==> LessEq(x, y) by {
          forall y | y in s ensures LessEq(x, y) {
            if y != x { LessEqTransitive(x, m, y); }
          }
        }
        x
      else
        m
  }

  /** The least element is the only element below all others. */
  lemma LeastUnique(s: set<string>, x: string)
    requires x in s
    requires forall y :: y in s ==> LessEq(x, y)
    ensures x == Least(s)
  {
    LessEqAntisymmetric(x, Least(s));
  }
}
