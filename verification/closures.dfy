/**
 * `withClosure`: the reflexive-transitive closure of a start list under an
 * edge function, as a duplicate-free list. The closure is computed with a
 * first-in-first-out work list; an element joins the result the first time
 * it is taken from the work list.
 *
 * The work list only ever holds elements of a finite `universe` that the
 * edges cannot leave, which is what makes the walk terminate on cyclic edges.
 */
module Closures {
  import opened Collections

  /** Every element of `xs` belongs to `s`. */
  predicate AllIn<T>(xs: seq<T>, s: set<T>) {
    forall x :: x in xs ==> x in s
  }

  /** Following an edge from a member of `s` never leaves `s`. */
  ghost predicate ClosedUnder<T>(s: set<T>, edges: T -> seq<T>) {
    forall x, y :: x in s && y in edges(x) ==> y in s
  }

  /** The work-list walk: `visited` is the result so far, `work` what is still to be taken. */
  function Visit<T(==,!new)>(work: seq<T>, visited: seq<T>, edges: T -> seq<T>, ghost universe: set<T>): (r: seq<T>)
    requires AllIn(work, universe) && AllIn(visited, universe)
    requires ClosedUnder(universe, edges)
    ensures AllIn(r, universe)
    ensures |visited| <= |r| && r[..|visited|] == visited
    ensures AllIn(work, Elements(r))
    decreases |universe - Elements(visited)|, |work|
  {
    if work == [] then visited
    else if work[0] in visited then Visit(work[1..], visited, edges, universe)
    else
      var x := work[0];
      VisitShrinks(universe, visited, x);
      var r := Visit(work[1..] + edges(x), visited + [x], edges, universe);
      assert r[|visited|] == (visited + [x])[|visited|];
      r
  }

  /** Taking a new element of the universe leaves fewer elements still to visit. */
  lemma VisitShrinks<T(!new)>(universe: set<T>, visited: seq<T>, x: T)
    requires x in universe && x !in visited
    ensures |universe - Elements(visited + [x])| < |universe - Elements(visited)|
  {
    var before, after := universe - Elements(visited), universe - Elements(visited + [x]);
    assert before == after + {x} && x !in after;
  }

  /** The closure of `start` under `edges`. */
  function Closure<T(==,!new)>(start: seq<T>, edges: T -> seq<T>, ghost universe: set<T>): (r: seq<T>)
    requires AllIn(start, universe)
    requires ClosedUnder(universe, edges)
    ensures AllIn(start, Elements(r))
    ensures AllIn(r, universe)
    ensures Distinct(r)
    ensures forall x, y :: x in r && y in edges(x) ==> y in r
  {
    VisitDistinct(start, [], edges, universe);
    VisitClosed(start, [], edges, universe);
    Visit(start, [], edges, universe)
  }

  lemma {:induction false} VisitDistinct<T(!new)>(work: seq<T>, visited: seq<T>, edges: T -> seq<T>, universe: set<T>)
    requires AllIn(work, universe) && AllIn(visited, universe)
    requires ClosedUnder(universe, edges)
    requires Distinct(visited)
    ensures Distinct(Visit(work, visited, edges, universe))
    decreases |universe - Elements(visited)|, |work|
  {
    if work != [] {
      var x := work[0];
      if x in visited {
        VisitDistinct(work[1..], visited, edges, universe);
      } else {
        VisitShrinks(universe, visited, x);
        VisitDistinct(work[1..] + edges(x), visited + [x], edges, universe);
      }
    }
  }

  /** If every edge out of `visited` lands in `visited` or `work`, the walk ends closed under the edges. */
  lemma {:induction false} VisitClosed<T(!new)>(work: seq<T>, visited: seq<T>, edges: T -> seq<T>, universe: set<T>)
    requires AllIn(work, universe) && AllIn(visited, universe)
    requires ClosedUnder(universe, edges)
    requires forall x, y :: x in visited && y in edges(x) ==> y in visited || y in work
    ensures forall x, y :: x in Visit(work, visited, edges, universe) && y in edges(x) ==> y in Visit(work, visited, edges, universe)
    decreases |universe - Elements(visited)|, |work|
  {
    var r := Visit(work, visited, edges, universe);
    if work != [] {
      var x := work[0];
      if x in visited {
        assert forall y :: y in work ==> y == x || y in work[1..];
        VisitClosed(work[1..], visited, edges, universe);
      } else {
        VisitShrinks(universe, visited, x);
        var work', visited' := work[1..] + edges(x), visited + [x];
        forall z, y | z in visited' && y in edges(z)
          ensures y in visited' || y in work'
        {
          if z != x {
            assert y in visited || y in work;
            assert y in work ==> y == x || y in work[1..];
          }
        }
        VisitClosed(work', visited', edges, universe);
      }
    }
  }

  /** The walk adds nothing outside any edge-closed set that already holds `work` and `visited`. */
  lemma {:induction false} VisitLeast<T(!new)>(work: seq<T>, visited: seq<T>, edges: T -> seq<T>, universe: set<T>, s: set<T>)
    requires AllIn(work, universe) && AllIn(visited, universe)
    requires ClosedUnder(universe, edges)
    requires AllIn(work, s) && AllIn(visited, s) && ClosedUnder(s, edges)
    ensures AllIn(Visit(work, visited, edges, universe), s)
    decreases |universe - Elements(visited)|, |work|
  {
    if work != [] {
      var x := work[0];
      if x in visited {
        VisitLeast(work[1..], visited, edges, universe, s);
      } else {
        VisitShrinks(universe, visited, x);
        VisitLeast(work[1..] + edges(x), visited + [x], edges, universe, s);
      }
    }
  }

  /** The walk does not depend on which bounding universe justified its termination. */
  lemma {:induction false} VisitUniverse<T(!new)>(work: seq<T>, visited: seq<T>, edges: T -> seq<T>, u1: set<T>, u2: set<T>)
    requires AllIn(work, u1) && AllIn(visited, u1) && ClosedUnder(u1, edges)
    requires AllIn(work, u2) && AllIn(visited, u2) && ClosedUnder(u2, edges)
    ensures Visit(work, visited, edges, u1) == Visit(work, visited, edges, u2)
    decreases |u1 - Elements(visited)|, |work|
  {
    if work != [] {
      var x := work[0];
      if x in visited {
        VisitUniverse(work[1..], visited, edges, u1, u2);
      } else {
        VisitShrinks(u1, visited, x);
        VisitUniverse(work[1..] + edges(x), visited + [x], edges, u1, u2);
      }
    }
  }

  /**
   * The closure is the least edge-closed set holding `start`: every element of
   * it lies in any set that holds `start` and is closed under the edges.
   */
  lemma ClosureLeast<T(!new)>(start: seq<T>, edges: T -> seq<T>, universe: set<T>, s: set<T>)
    requires AllIn(start, universe) && ClosedUnder(universe, edges)
    requires AllIn(start, s) && ClosedUnder(s, edges)
    ensures AllIn(Closure(start, edges, universe), s)
  {
    VisitLeast(start, [], edges, universe, s);
  }

  /** The closure is the same whichever bounding universe is named. */
  lemma ClosureUniverse<T(!new)>(start: seq<T>, edges: T -> seq<T>, u1: set<T>, u2: set<T>)
    requires AllIn(start, u1) && ClosedUnder(u1, edges)
    requires AllIn(start, u2) && ClosedUnder(u2, edges)
    ensures Closure(start, edges, u1) == Closure(start, edges, u2)
  {
    VisitUniverse(start, [], edges, u1, u2);
  }

  /** Two edge functions that agree on an edge-closed set holding the walk's elements give the same walk. */
  lemma {:induction false} VisitAgree<T(!new)>(work: seq<T>, visited: seq<T>, e1: T -> seq<T>, e2: T -> seq<T>, u1: set<T>, u2: set<T>, s: set<T>)
    requires AllIn(work, u1) && AllIn(visited, u1) && ClosedUnder(u1, e1)
    requires AllIn(work, u2) && AllIn(visited, u2) && ClosedUnder(u2, e2)
    requires AllIn(work, s) && AllIn(visited, s) && ClosedUnder(s, e1)
    requires forall x :: x in s ==> e1(x) == e2(x)
    ensures Visit(work, visited, e1, u1) == Visit(work, visited, e2, u2)
    decreases |u1 - Elements(visited)|, |work|
  {
    if work != [] {
      var x := work[0];
      if x in visited {
        VisitAgree(work[1..], visited, e1, e2, u1, u2, s);
      } else {
        VisitShrinks(u1, visited, x);
        assert e1(x) == e2(x);
        VisitAgree(work[1..] + e1(x), visited + [x], e1, e2, u1, u2, s);
      }
    }
  }

  /**
   * The closure only looks at the edges of what it reaches: edge functions
   * that agree on an edge-closed set holding `start` give the same closure.
   */
  lemma ClosureAgree<T(!new)>(start: seq<T>, e1: T -> seq<T>, e2: T -> seq<T>, u1: set<T>, u2: set<T>, s: set<T>)
    requires AllIn(start, u1) && ClosedUnder(u1, e1)
    requires AllIn(start, u2) && ClosedUnder(u2, e2)
    requires AllIn(start, s) && ClosedUnder(s, e1)
    requires forall x :: x in s ==> e1(x) == e2(x)
    ensures Closure(start, e1, u1) == Closure(start, e2, u2)
  {
    VisitAgree(start, [], e1, e2, u1, u2, s);
  }
}
