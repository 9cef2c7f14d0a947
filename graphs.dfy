/**
 * The immutable directed graph the ontology is built on: a vertex sequence (the
 * vertex iterator's order) and an edge sequence (insertion order, which is the
 * order in which a vertex's out- and in-edge lists are iterated).
 */
module Graphs {

  /** An edge from `source` to `dest`; edge ids are unique within a graph. */
  datatype Edge<V> = Edge(source: V, dest: V, id: int)

  datatype DirectedGraph<V> = DirectedGraph(vertices: seq<V>, edges: seq<Edge<V>>)

  /**
   * The neighbour selector of a traversal: `Forward` follows edges from source to
   * dest (child to parent in an ontology), `Reverse` from dest to source.
   */
  datatype Direction = Forward | Reverse

  ghost predicate Distinct<T>(s: seq<T>) {
    forall i, j :: 0 <= i < j < |s| ==> s[i] != s[j]
  }

  function Elements<T>(s: seq<T>): set<T> {
    set x | x in s
  }

  /** Vertices are unique, every edge joins two vertices, and edge ids are unique. */
  ghost predicate ValidGraph<V(!new)>(g: DirectedGraph<V>) {
    && Distinct(g.vertices)
    && (forall e :: e in g.edges ==> e.source in g.vertices && e.dest in g.vertices)
    && (forall i, j :: 0 <= i < j < |g.edges| ==> g.edges[i].id != g.edges[j].id)
  }

  /** The end an edge is left from when followed in direction `dir`. */
  function Tail<V(!new)>(e: Edge<V>, dir: Direction): V {
    if dir == Forward then e.source else e.dest
  }

  /** The end an edge leads to when followed in direction `dir`. */
  function Head<V(!new)>(e: Edge<V>, dir: Direction): V {
    if dir == Forward then e.dest else e.source
  }

  /** The neighbours of `v` along `edges` in direction `dir`, in edge order. */
  function NextFrom<V(==, !new)>(edges: seq<Edge<V>>, dir: Direction, v: V): (r: seq<V>)
    ensures forall w :: w in r <==> exists e :: e in edges && Tail(e, dir) == v && Head(e, dir) == w
  {
    if edges == [] then []
    else
      var rest := NextFrom(edges[1..], dir, v);
      assert forall e :: e in edges <==> e == edges[0] || e in edges[1..];
      if Tail(edges[0], dir) == v then [Head(edges[0], dir)] + rest else rest
  }

  /**
   * What the forward neighbour selector (`viaOutEdgeIterator`) or the reverse one
   * (`viaInEdgeIterator`) yields for `v`.
   */
  function Neighbors<V(==, !new)>(g: DirectedGraph<V>, dir: Direction, v: V): seq<V> {
    NextFrom(g.edges, dir, v)
  }

  lemma NeighborsAreVertices<V(!new)>(g: DirectedGraph<V>, dir: Direction)
    requires ValidGraph(g)
    ensures forall v, w :: w in Neighbors(g, dir, v) ==> w in g.vertices
  {
  }

  /** The reverse selector yields `w` from `v` exactly when the forward one yields `v` from `w`. */
  lemma ReverseNeighbors<V(!new)>(g: DirectedGraph<V>, v: V, w: V)
    ensures w in Neighbors(g, Reverse, v) <==> v in Neighbors(g, Forward, w)
  {
  }

  /** A walk of zero or more steps along the selector's edges; `|p| - 1` is its length in edges. */
  ghost predicate IsPath<V(!new)>(g: DirectedGraph<V>, dir: Direction, p: seq<V>) {
    && |p| >= 1
    && (forall i :: 0 <= i < |p| ==> p[i] in g.vertices)
    && (forall i :: 0 <= i < |p| - 1 ==> p[i + 1] in Neighbors(g, dir, p[i]))
  }

  ghost predicate PathFromTo<V(!new)>(g: DirectedGraph<V>, dir: Direction, p: seq<V>, s: V, d: V) {
    IsPath(g, dir, p) && p[0] == s && p[|p| - 1] == d
  }

  /** `d` can be reached from `s` (possibly `s == d`, by the empty walk). */
  ghost predicate Reachable<V(!new)>(g: DirectedGraph<V>, dir: Direction, s: V, d: V) {
    exists p :: PathFromTo(g, dir, p, s, d)
  }

  /** Some vertex can be reached from itself by at least one edge. */
  ghost predicate HasCycle<V(!new)>(g: DirectedGraph<V>, dir: Direction) {
    exists p :: IsPath(g, dir, p) && |p| >= 2 && p[0] == p[|p| - 1]
  }

  lemma PathTail<V(!new)>(g: DirectedGraph<V>, dir: Direction, p: seq<V>)
    requires IsPath(g, dir, p) && |p| >= 2
    ensures IsPath(g, dir, p[1..])
  {
    forall i | 0 <= i < |p| - 2
      ensures p[1..][i + 1] in Neighbors(g, dir, p[1..][i])
    {
      assert p[1..][i + 1] == p[i + 2] && p[1..][i] == p[i + 1];
    }
  }

  lemma PathCons<V(!new)>(g: DirectedGraph<V>, dir: Direction, v: V, q: seq<V>)
    requires IsPath(g, dir, q) && v in g.vertices && q[0] in Neighbors(g, dir, v)
    ensures IsPath(g, dir, [v] + q)
  {
    var p := [v] + q;
    forall i | 0 <= i < |p| - 1
      ensures p[i + 1] in Neighbors(g, dir, p[i])
    {
      if i > 0 {
        assert p[i + 1] == q[i] && p[i] == q[i - 1];
      }
    }
  }

  /** Two walks that meet can be joined. */
  lemma PathConcat<V(!new)>(g: DirectedGraph<V>, dir: Direction, p: seq<V>, q: seq<V>)
    requires IsPath(g, dir, p) && IsPath(g, dir, q) && p[|p| - 1] == q[0]
    ensures IsPath(g, dir, p + q[1..]) && |p + q[1..]| == |p| + |q| - 1
  {
    var r := p + q[1..];
    forall i | 0 <= i < |r| - 1
      ensures r[i + 1] in Neighbors(g, dir, r[i])
    {
      if i + 1 >= |p| {
        assert r[i + 1] == q[i + 2 - |p|] && r[i] == q[i + 1 - |p|];
      }
    }
  }

  lemma ReachableRefl<V(!new)>(g: DirectedGraph<V>, dir: Direction, v: V)
    requires v in g.vertices
    ensures Reachable(g, dir, v, v)
  {
    assert PathFromTo(g, dir, [v], v, v);
  }

  lemma ReachableStep<V(!new)>(g: DirectedGraph<V>, dir: Direction, s: V, u: V, w: V)
    requires ValidGraph(g) && Reachable(g, dir, s, u) && w in Neighbors(g, dir, u)
    ensures Reachable(g, dir, s, w)
  {
    NeighborsAreVertices(g, dir);
    var p :| PathFromTo(g, dir, p, s, u);
    PathConcat(g, dir, p, [u, w]);
    assert PathFromTo(g, dir, p + [u, w][1..], s, w);
  }

  lemma ReachableTrans<V(!new)>(g: DirectedGraph<V>, dir: Direction, a: V, b: V, c: V)
    requires Reachable(g, dir, a, b) && Reachable(g, dir, b, c)
    ensures Reachable(g, dir, a, c)
  {
    var p :| PathFromTo(g, dir, p, a, b);
    var q :| PathFromTo(g, dir, q, b, c);
    PathConcat(g, dir, p, q);
    assert PathFromTo(g, dir, p + q[1..], a, c);
  }

  /** A set closed under the selector contains every walk that starts in it. */
  lemma {:induction false} ClosedContainsPath<V(!new)>(g: DirectedGraph<V>, dir: Direction, c: set<V>, p: seq<V>)
    requires IsPath(g, dir, p) && p[0] in c
    requires forall u, w :: u in c && w in Neighbors(g, dir, u) ==> w in c
    ensures forall i :: 0 <= i < |p| ==> p[i] in c
    decreases |p|
  {
    if |p| >= 2 {
      PathTail(g, dir, p);
      ClosedContainsPath(g, dir, c, p[1..]);
      forall i | 1 <= i < |p|
        ensures p[i] in c
      {
        assert p[i] == p[1..][i - 1];
      }
    }
  }

  /** Reversing a walk along one selector gives a walk along the other. */
  lemma {:induction false} PathReverse<V(!new)>(g: DirectedGraph<V>, dir: Direction, p: seq<V>)
    requires IsPath(g, dir, p)
    ensures IsPath(g, Opposite(dir), Reversed(p)) && |Reversed(p)| == |p|
    ensures Reversed(p)[0] == p[|p| - 1] && Reversed(p)[|p| - 1] == p[0]
  {
    var r := Reversed(p);
    ReversedIndex(p);
    forall i | 0 <= i < |r| - 1
      ensures r[i + 1] in Neighbors(g, Opposite(dir), r[i])
    {
      var j := |p| - 2 - i;
      assert r[i + 1] == p[j] && r[i] == p[j + 1];
      assert p[j + 1] in Neighbors(g, dir, p[j]);
      OppositeNeighbors(g, dir, p[j], p[j + 1]);
    }
  }

  function Opposite(dir: Direction): Direction {
    if dir == Forward then Reverse else Forward
  }

  lemma OppositeNeighbors<V(!new)>(g: DirectedGraph<V>, dir: Direction, v: V, w: V)
    ensures w in Neighbors(g, dir, v) <==> v in Neighbors(g, Opposite(dir), w)
  {
  }

  function Reversed<T>(s: seq<T>): seq<T> {
    if s == [] then [] else Reversed(s[1..]) + [s[0]]
  }

  lemma {:induction false} ReversedIndex<T>(s: seq<T>)
    ensures |Reversed(s)| == |s|
    ensures forall i :: 0 <= i < |s| ==> Reversed(s)[i] == s[|s| - 1 - i]
  {
    if s != [] {
      ReversedIndex(s[1..]);
    }
  }

  /** The graph has a cycle along one selector exactly when it has one along the other. */
  lemma CycleEitherWay<V(!new)>(g: DirectedGraph<V>)
    ensures HasCycle(g, Forward) <==> HasCycle(g, Reverse)
  {
    if HasCycle(g, Forward) {
      var p :| IsPath(g, Forward, p) && |p| >= 2 && p[0] == p[|p| - 1];
      PathReverse(g, Forward, p);
      assert IsPath(g, Reverse, Reversed(p));
    }
    if HasCycle(g, Reverse) {
      var p :| IsPath(g, Reverse, p) && |p| >= 2 && p[0] == p[|p| - 1];
      PathReverse(g, Reverse, p);
      assert IsPath(g, Forward, Reversed(p));
    }
  }
}
