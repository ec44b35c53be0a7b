/** Finite directed graphs given by their edge set: reachability, acyclicity and sources. */
module Graph {
  type Edges<!T(==)> = set<(T, T)>

  ghost predicate IsPath<T>(edges: Edges<T>, path: seq<T>) {
    && |path| > 0
    && forall i {:trigger path[i]} :: 0 <= i < |path| - 1 ==> (path[i], path[i + 1]) in edges
  }

  ghost predicate IsPathFromTo<T>(edges: Edges<T>, path: seq<T>, a: T, b: T) {
    IsPath(edges, path) && path[0] == a && path[|path| - 1] == b
  }

  /** A path, possibly of one node, leads from `a` to `b`. */
  ghost predicate Reaches<T(!new)>(edges: Edges<T>, a: T, b: T) {
    exists path: seq<T> :: IsPathFromTo(edges, path, a, b)
  }

  /** No edge can be closed into a cycle. */
  ghost predicate Acyclic<T(!new)>(edges: Edges<T>) {
    forall a, b :: (a, b) in edges ==> !Reaches(edges, b, a)
  }

  lemma ReachesItself<T(!new)>(edges: Edges<T>, a: T)
    ensures Reaches(edges, a, a)
  {
    assert IsPathFromTo(edges, [a], a, a);
  }

  lemma EdgeReaches<T(!new)>(edges: Edges<T>, a: T, b: T)
    requires (a, b) in edges
    ensures Reaches(edges, a, b)
  {
    assert IsPathFromTo(edges, [a, b], a, b);
  }

  lemma ReachesTransitively<T(!new)>(edges: Edges<T>, a: T, b: T, c: T)
    requires Reaches(edges, a, b) && Reaches(edges, b, c)
    ensures Reaches(edges, a, c)
  {
    var p: seq<T> :| IsPathFromTo(edges, p, a, b);
    var q: seq<T> :| IsPathFromTo(edges, q, b, c);
    assert IsPathFromTo(edges, p + q[1..], a, c);
  }

  lemma ReachesMonotonic<T(!new)>(edges: Edges<T>, more: Edges<T>, a: T, b: T)
    requires edges <= more && Reaches(edges, a, b)
    ensures Reaches(more, a, b)
  {
    var p: seq<T> :| IsPathFromTo(edges, p, a, b);
    assert IsPathFromTo(more, p, a, b);
  }

  /** The definition says what is usually meant: a walk of at least one edge never returns. */
  lemma {:induction false} AcyclicMeansNoReturn<T(!new)>(edges: Edges<T>, path: seq<T>)
    requires Acyclic(edges) && IsPath(edges, path) && |path| > 1
    ensures path[0] != path[|path| - 1]
  {
    assert (path[0], path[1]) in edges;
    assert IsPathFromTo(edges, path[1..], path[1], path[|path| - 1]);
  }

  /** A path through `edges + {(f, t)}` avoids the new edge, or reaches `f` and leaves from `t` without it. */
  lemma {:induction false} ThroughNewEdge<T(!new)>(edges: Edges<T>, f: T, t: T, path: seq<T>)
    requires IsPath(edges + {(f, t)}, path)
    ensures var a, b := path[0], path[|path| - 1];
      Reaches(edges, a, b) || (Reaches(edges, a, f) && Reaches(edges, t, b))
  {
    var a, b := path[0], path[|path| - 1];
    ReachesItself(edges, a);
    if |path| > 1 {
      var rest := path[1..];
      assert (path[0], path[1]) in edges + {(f, t)};
      ThroughNewEdge(edges, f, t, rest);
      if (a, path[1]) in edges {
        EdgeReaches(edges, a, path[1]);
        if Reaches(edges, path[1], b) {
          ReachesTransitively(edges, a, path[1], b);
        } else {
          ReachesTransitively(edges, a, path[1], f);
        }
      }
    }
  }

  /** The guard of the projection: an edge whose head does not reach its tail closes no cycle. */
  lemma GuardedEdgeKeepsAcyclic<T(!new)>(edges: Edges<T>, f: T, t: T)
    requires Acyclic(edges) && !Reaches(edges, t, f)
    ensures Acyclic(edges + {(f, t)})
  {
    var more := edges + {(f, t)};
    forall a, b | (a, b) in more
      ensures !Reaches(more, b, a)
    {
      if Reaches(more, b, a) {
        var p: seq<T> :| IsPathFromTo(more, p, b, a);
        ThroughNewEdge(edges, f, t, p);
        if (a, b) in edges {
          EdgeReaches(edges, a, b);
          ReachesTransitively(edges, t, a, b);
          ReachesTransitively(edges, t, b, f);
        }
        assert false;
      }
    }
  }

  /** The nodes other than `x` itself from which `x` can be reached. */
  ghost function Above<T(!new)>(edges: Edges<T>, x: T): set<T> {
    set e | e in edges && e.0 != x && Reaches(edges, e.0, x) :: e.0
  }

  lemma AboveShrinks<T(!new)>(edges: Edges<T>, p: T, x: T)
    requires Acyclic(edges) && (p, x) in edges
    ensures Above(edges, p) < Above(edges, x)
  {
    EdgeReaches(edges, p, x);
    ReachesItself(edges, x);
    assert p in Above(edges, x) by {
      assert (p, x).0 == p;
    }
    forall y | y in Above(edges, p)
      ensures y in Above(edges, x)
    {
      var e :| e in edges && e.0 == y && e.0 != p && Reaches(edges, e.0, p);
      ReachesTransitively(edges, y, p, x);
    }
  }

  /** Following edges backwards in a finite acyclic graph ends at a node nothing points to. */
  lemma {:induction false} SourceAbove<T(!new)>(edges: Edges<T>, x: T) returns (source: T)
    requires Acyclic(edges)
    ensures Reaches(edges, source, x)
    ensures forall a :: (a, source) !in edges
    decreases Above(edges, x)
  {
    if p :| (p, x) in edges {
      AboveShrinks(edges, p, x);
      source := SourceAbove(edges, p);
      EdgeReaches(edges, p, x);
      ReachesTransitively(edges, source, p, x);
    } else {
      ReachesItself(edges, x);
      source := x;
    }
  }

  // ---- The worklist ----

  /** The successor lists of a worklist search as an edge set. */
  ghost function EdgesOf<T(!new)>(successors: map<T, seq<T>>): Edges<T> {
    set a, i | a in successors && 0 <= i < |successors[a]| :: (a, successors[a][i])
  }

  /** A set closed under successors keeps every path that starts in it. */
  lemma {:induction false} ClosedSetKeepsPaths<T(!new)>(edges: Edges<T>, closed: set<T>, path: seq<T>)
    requires forall a, b :: a in closed && (a, b) in edges ==> b in closed
    requires IsPath(edges, path) && path[0] in closed
    ensures path[|path| - 1] in closed
  {
    if |path| > 1 {
      assert (path[0], path[1]) in edges;
      ClosedSetKeepsPaths(edges, closed, path[1..]);
    }
  }

  method ReachesByWorklist<T(==, !new)>(successors: map<T, seq<T>>, start: T, target: T) returns (found: bool)
    ensures found <==> Reaches(EdgesOf(successors), start, target)
  {
    ghost var edges := EdgesOf(successors);
    ghost var nodes := {start} + set e | e in edges :: e.1;
    var pending: seq<T> := [start];
    var seen: set<T> := {};
    ReachesItself(edges, start);
    while |pending| > 0
      invariant forall n :: n in pending ==> n in nodes && Reaches(edges, start, n)
      invariant start in seen || start in pending
      invariant target !in seen
      invariant forall a, b :: a in seen && (a, b) in edges ==> b in seen || b in pending
      decreases nodes - seen, |pending|
    {
      var current := pending[|pending| - 1];
      ghost var before := pending;
      pending := pending[..|pending| - 1];
      assert forall n :: n in before ==> n == current || n in pending;
      if current == target {
        return true;
      }
      if current !in seen {
        ghost var unseen := nodes - seen;
        assert current in unseen;
        seen := seen + {current};
        assert nodes - seen < unseen;
        var pushed := if current in successors then successors[current] else [];
        forall n | n in pushed
          ensures (current, n) in edges && n in nodes && Reaches(edges, start, n)
        {
          var i :| 0 <= i < |pushed| && pushed[i] == n;
          assert (current, successors[current][i]) in edges;
          assert (current, n).1 == n;
          EdgeReaches(edges, current, n);
          ReachesTransitively(edges, start, current, n);
        }
        pending := pending + pushed;
      }
    }
    if Reaches(edges, start, target) {
      var p: seq<T> :| IsPathFromTo(edges, p, start, target);
      ClosedSetKeepsPaths(edges, seen, p);
    }
    return false;
  }
}
