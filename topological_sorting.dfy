/**
 * Tarjan's depth-first topological sorting with cycle detection. The two marker
 * sets of one traversal are fields of a `Tarjan` object that the recursive visit
 * updates in place. The visitor callback is recorded as `visited`, the sequence
 * of vertices it is called with, in call order; the visitor's boolean answer is
 * not modelled because the early `return` it controls is the last statement of
 * the visit, so it changes nothing.
 */
module TopologicalSorting {
  import opened Wrappers
  import opened Graphs

  /** The "graph is not a DAG" failure. */
  datatype GraphNotDag = GraphNotDag

  /** Every selector neighbour of a visited vertex was visited before it. */
  ghost predicate TopologicallyOrdered<V(!new)>(g: DirectedGraph<V>, dir: Direction, order: seq<V>) {
    forall i :: 0 <= i < |order| ==> forall w :: w in Neighbors(g, dir, order[i]) ==> w in order[..i]
  }

  /** Each vertex exactly once, and after all of its selector neighbours. */
  ghost predicate IsTopologicalOrder<V(!new)>(g: DirectedGraph<V>, dir: Direction, order: seq<V>) {
    && Distinct(order)
    && (forall v :: v in order <==> v in g.vertices)
    && TopologicallyOrdered(g, dir, order)
  }

  class Tarjan<V(==, !new)> {
    const g: DirectedGraph<V>
    const dir: Direction
    /** Vertices whose visit has not finished. */
    var unmarked: set<V>
    /** Vertices on the current recursion path. */
    var tmpMarked: set<V>
    /** The visitor's calls so far, in order. */
    var visited: seq<V>

    ghost predicate Valid()
      reads this
    {
      && ValidGraph(g)
      && (forall v :: v in unmarked ==> v in g.vertices)
      && (forall v :: v in visited ==> v in g.vertices && v !in unmarked)
      && (forall v :: v in g.vertices ==> v in unmarked || v in visited)
      && tmpMarked <= unmarked
      && Distinct(visited)
      && TopologicallyOrdered(g, dir, visited)
    }

    /** Seeds `unmarked` with every vertex, from the vertex iterator. */
    constructor (g: DirectedGraph<V>, dir: Direction)
      requires ValidGraph(g)
      ensures Valid() && this.g == g && this.dir == dir
      ensures unmarked == Elements(g.vertices) && tmpMarked == {} && visited == []
    {
      var all: set<V> := {};
      var k := 0;
      while k < |g.vertices|
        invariant 0 <= k <= |g.vertices|
        invariant all == Elements(g.vertices[..k])
      {
        assert g.vertices[..k + 1] == g.vertices[..k] + [g.vertices[k]];
        all := all + {g.vertices[k]};
        k := k + 1;
      }
      assert g.vertices[..k] == g.vertices;
      this.g := g;
      this.dir := dir;
      unmarked := all;
      tmpMarked := {};
      visited := [];
    }

    /**
     * Tarjan's visit of `v`. `stack` is the recursion path that led here (ghost):
     * the vertices in `tmpMarked`, each a selector neighbour of the one before,
     * with `v` a neighbour of the last. Returns true when the graph is found not
     * to be a DAG (the exception); the sets are then left as they were at the throw.
     */
    method StartFromImpl(v: V, ghost stack: seq<V>) returns (notDag: bool)
      requires Valid() && v in g.vertices
      requires forall x :: x in tmpMarked <==> x in stack
      requires stack == [] || (IsPath(g, dir, stack) && v in Neighbors(g, dir, stack[|stack| - 1]))
      modifies this
      decreases unmarked - tmpMarked
      ensures Valid()
      ensures unmarked <= old(unmarked)
      ensures old(visited) <= visited
      ensures notDag ==> HasCycle(g, dir)
      ensures !notDag ==> tmpMarked == old(tmpMarked) && v !in unmarked
    {
      if v in tmpMarked {
        CycleThroughStack(g, dir, stack, v);
        return true;
      }
      if v in unmarked {
        tmpMarked := tmpMarked + {v};
        var nextVertices := Neighbors(g, dir, v);
        NeighborsAreVertices(g, dir);
        var k := 0;
        while k < |nextVertices|
          invariant 0 <= k <= |nextVertices|
          invariant Valid()
          invariant v in unmarked && tmpMarked == old(tmpMarked) + {v}
          invariant unmarked <= old(unmarked)
          invariant old(visited) <= visited
          invariant forall j :: 0 <= j < k ==> nextVertices[j] !in unmarked
        {
          PathExtend(g, dir, stack, v);
          assert v in old(unmarked) - old(tmpMarked) && v !in unmarked - tmpMarked;
          notDag := StartFromImpl(nextVertices[k], stack + [v]);
          if notDag {
            return;
          }
          k := k + 1;
        }
        assert forall w :: w in nextVertices ==> w !in unmarked;
        FinishVisit(v);
      }
      return false;
    }

    /**
     * The end of a visit, once every selector neighbour of `v` is finished: `v`
     * leaves both marks and the visitor is called on it.
     */
    method FinishVisit(v: V)
      requires Valid() && v in unmarked
      requires forall w :: w in Neighbors(g, dir, v) ==> w !in unmarked
      modifies this
      ensures Valid()
      ensures unmarked == old(unmarked) - {v} && tmpMarked == old(tmpMarked) - {v}
      ensures visited == old(visited) + [v]
    {
      NeighborsAreVertices(g, dir);
      ghost var before := visited;
      unmarked := unmarked - {v};
      tmpMarked := tmpMarked - {v};
      visited := visited + [v];
      OrderedAppend(g, dir, before, v);
    }
  }

  /** The recursion path extended by the vertex being visited is still a path. */
  lemma PathExtend<V(!new)>(g: DirectedGraph<V>, dir: Direction, stack: seq<V>, v: V)
    requires v in g.vertices
    requires stack == [] || (IsPath(g, dir, stack) && v in Neighbors(g, dir, stack[|stack| - 1]))
    ensures IsPath(g, dir, stack + [v])
  {
    if stack != [] {
      PathConcat(g, dir, stack, [stack[|stack| - 1], v]);
      assert stack + [stack[|stack| - 1], v][1..] == stack + [v];
    }
  }

  /** Reaching a vertex of the recursion path again closes a cycle. */
  lemma CycleThroughStack<V(!new)>(g: DirectedGraph<V>, dir: Direction, stack: seq<V>, v: V)
    requires v in stack && IsPath(g, dir, stack) && v in Neighbors(g, dir, stack[|stack| - 1])
    ensures HasCycle(g, dir)
  {
    var j :| 0 <= j < |stack| && stack[j] == v;
    var p := stack[j..] + [v];
    forall i | 0 <= i < |p| - 1
      ensures p[i + 1] in Neighbors(g, dir, p[i])
    {
      if i + 1 < |stack| - j {
        assert p[i + 1] == stack[j + i + 1] && p[i] == stack[j + i];
      }
    }
    assert IsPath(g, dir, p) && |p| >= 2 && p[0] == p[|p| - 1];
  }

  lemma OrderedAppend<V(!new)>(g: DirectedGraph<V>, dir: Direction, order: seq<V>, v: V)
    requires TopologicallyOrdered(g, dir, order)
    requires forall w :: w in Neighbors(g, dir, v) ==> w in order
    ensures TopologicallyOrdered(g, dir, order + [v])
  {
    var o := order + [v];
    forall i | 0 <= i < |o|
      ensures forall w :: w in Neighbors(g, dir, o[i]) ==> w in o[..i]
    {
      if i < |order| {
        assert o[..i] == order[..i] && o[i] == order[i];
      } else {
        assert o[..i] == order;
      }
    }
  }

  /** Position of the first occurrence of `x` in `s`. */
  ghost function IndexOf<T>(s: seq<T>, x: T): (r: nat)
    requires x in s
    ensures r < |s| && s[r] == x && forall j :: 0 <= j < r ==> s[j] != x
  {
    if s[0] == x then 0 else 1 + IndexOf(s[1..], x)
  }

  /** Along a path, positions in a topological order strictly decrease. */
  lemma {:induction false} PositionsDescend<V(!new)>(g: DirectedGraph<V>, dir: Direction, order: seq<V>, p: seq<V>, k: nat)
    requires TopologicallyOrdered(g, dir, order)
    requires forall v :: v in g.vertices ==> v in order
    requires IsPath(g, dir, p) && 1 <= k < |p|
    ensures IndexOf(order, p[k]) < IndexOf(order, p[0])
  {
    var i := IndexOf(order, p[k - 1]);
    assert p[k] in Neighbors(g, dir, order[i]);
    assert p[k] in order[..i];
    var j :| 0 <= j < i && order[..i][j] == p[k];
    assert order[j] == p[k];
    if k > 1 {
      PositionsDescend(g, dir, order, p, k - 1);
    }
  }

  /** A graph with a topological order of all its vertices has no cycle. */
  lemma OrderedMeansAcyclic<V(!new)>(g: DirectedGraph<V>, dir: Direction, order: seq<V>)
    requires TopologicallyOrdered(g, dir, order)
    requires forall v :: v in g.vertices ==> v in order
    ensures !HasCycle(g, dir)
  {
    if HasCycle(g, dir) {
      var p :| IsPath(g, dir, p) && |p| >= 2 && p[0] == p[|p| - 1];
      PositionsDescend(g, dir, order, p, |p| - 1);
    }
  }

  /**
   * `startImpl`: visits from an arbitrary unmarked vertex until none is left.
   * Fails exactly when the graph has a cycle along the selector; otherwise the
   * visitor was called once per vertex, each vertex after its neighbours.
   */
  method StartImpl<V(==, !new)>(g: DirectedGraph<V>, dir: Direction) returns (r: Result<seq<V>, GraphNotDag>)
    requires ValidGraph(g)
    ensures r.Failure? <==> HasCycle(g, dir)
    ensures r.Success? ==> IsTopologicalOrder(g, dir, r.value)
  {
    var t := new Tarjan(g, dir);
    while t.unmarked != {}
      invariant t.Valid() && t.g == g && t.dir == dir && t.tmpMarked == {}
      decreases t.unmarked
    {
      var v :| v in t.unmarked;
      var notDag := t.StartFromImpl(v, []);
      if notDag {
        return Failure(GraphNotDag);
      }
    }
    OrderedMeansAcyclic(g, dir, t.visited);
    return Success(t.visited);
  }

  /** `startForward`: the selector follows out-edges, so in a term graph every parent is visited before its children. */
  method StartForward<V(==, !new)>(g: DirectedGraph<V>) returns (r: Result<seq<V>, GraphNotDag>)
    requires ValidGraph(g)
    ensures r.Failure? <==> HasCycle(g, Forward)
    ensures r.Success? ==> IsTopologicalOrder(g, Forward, r.value)
  {
    r := StartImpl(g, Forward);
  }

  /** `startReverse`: the selector follows in-edges, so every child is visited before its parents; it fails on the same graphs. */
  method StartReverse<V(==, !new)>(g: DirectedGraph<V>) returns (r: Result<seq<V>, GraphNotDag>)
    requires ValidGraph(g)
    ensures r.Failure? <==> HasCycle(g, Forward)
    ensures r.Success? ==> IsTopologicalOrder(g, Reverse, r.value)
  {
    r := StartImpl(g, Reverse);
    CycleEitherWay(g);
  }
}
