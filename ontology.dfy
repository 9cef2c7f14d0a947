/**
 * The ancestor queries of an ontology: a term graph whose edges point from a
 * child term to its parent (the `Forward` direction), a root term and the
 * partition of term ids into non-obsolete and obsolete ones. Ancestor sets are
 * computed by a breadth-first closure over out-edges and proved equal to the
 * set of terms reachable by walking child-to-parent edges.
 */
module Ontologies {
  import opened Graphs
  import opened TermIds

  datatype Ontology = Ontology(
    graph: DirectedGraph<TermId>,
    root: TermId,
    nonObsoleteTermIds: set<TermId>,
    obsoleteTermIds: set<TermId>)

  /** A well-formed term graph containing the root and every known term id. */
  ghost predicate WellFormed(o: Ontology) {
    && ValidGraph(o.graph)
    && o.root in o.graph.vertices
    && o.nonObsoleteTermIds !! o.obsoleteTermIds
    && o.nonObsoleteTermIds + o.obsoleteTermIds <= Elements(o.graph.vertices)
  }

  /** A well-formed ontology whose child-to-parent edges form no cycle. */
  ghost predicate ValidOntology(o: Ontology) {
    WellFormed(o) && !HasCycle(o.graph, Forward)
  }

  /** `x` can be reached from at least one of `seeds` along child-to-parent edges. */
  ghost predicate ReachableFromAny(g: DirectedGraph<TermId>, seeds: seq<TermId>, x: TermId) {
    exists u :: u in seeds && Reachable(g, Forward, u, x)
  }

  /** The elements of `s` that are not in `acc`, in order. */
  function NotIn(s: seq<TermId>, acc: set<TermId>): (r: seq<TermId>)
    ensures forall x :: x in r <==> x in s && x !in acc
  {
    if s == [] then []
    else
      assert forall x :: x in s <==> x == s[0] || x in s[1..];
      if s[0] in acc then NotIn(s[1..], acc) else [s[0]] + NotIn(s[1..], acc)
  }

  /** Adding new vertices to the found set shrinks what is left to find. */
  lemma ClosureShrinks(vs: set<TermId>, acc: set<TermId>, next: seq<TermId>)
    requires forall x :: x in next ==> x in vs && x !in acc
    ensures |vs - (acc + Elements(next))| <= |vs - acc|
    ensures next != [] ==> |vs - (acc + Elements(next))| < |vs - acc|
  {
    var a, b := vs - (acc + Elements(next)), vs - acc;
    assert b == a + (b - a);
    if next != [] {
      var x := next[0];
      assert x in Elements(next);
      assert x in b - a;
    }
  }

  /**
   * Breadth-first closure: `acc` holds every term found so far, `frontier` those
   * whose parents have not been looked at yet.
   */
  function Closure(g: DirectedGraph<TermId>, frontier: seq<TermId>, acc: set<TermId>): (r: set<TermId>)
    requires ValidGraph(g)
    requires acc <= Elements(g.vertices)
    requires forall v :: v in frontier ==> v in acc
    requires forall u, w :: u in acc && u !in frontier && w in Neighbors(g, Forward, u) ==> w in acc
    ensures acc <= r <= Elements(g.vertices)
    ensures forall u, w :: u in r && w in Neighbors(g, Forward, u) ==> w in r
    ensures forall x :: x in r ==> x in acc || ReachableFromAny(g, frontier, x)
    decreases |Elements(g.vertices) - acc|, |frontier|
  {
    if frontier == [] then acc
    else
      var u := frontier[0];
      var next := NotIn(Neighbors(g, Forward, u), acc);
      ClosureInvariant(g, frontier, acc, next);
      var r := Closure(g, frontier[1..] + next, acc + Elements(next));
      ClosureStep(g, frontier, next, acc, r);
      r
  }

  /**
   * Looking at the parents of the first frontier term keeps the closure's
   * invariant, and what is left to find does not grow.
   */
  lemma ClosureInvariant(g: DirectedGraph<TermId>, frontier: seq<TermId>, acc: set<TermId>, next: seq<TermId>)
    requires ValidGraph(g) && frontier != [] && acc <= Elements(g.vertices)
    requires forall v :: v in frontier ==> v in acc
    requires forall u, w :: u in acc && u !in frontier && w in Neighbors(g, Forward, u) ==> w in acc
    requires forall x :: x in next <==> x in Neighbors(g, Forward, frontier[0]) && x !in acc
    ensures frontier[0] in g.vertices
    ensures acc + Elements(next) <= Elements(g.vertices)
    ensures forall v :: v in frontier[1..] + next ==> v in acc + Elements(next)
    ensures forall u, w :: u in acc + Elements(next) && u !in frontier[1..] + next && w in Neighbors(g, Forward, u) ==>
      w in acc + Elements(next)
    ensures |Elements(g.vertices) - (acc + Elements(next))| <= |Elements(g.vertices) - acc|
    ensures next != [] ==> |Elements(g.vertices) - (acc + Elements(next))| < |Elements(g.vertices) - acc|
  {
    NeighborsAreVertices(g, Forward);
    assert frontier[0] in acc;
    ClosureShrinks(Elements(g.vertices), acc, next);
    assert forall v :: v in frontier <==> v == frontier[0] || v in frontier[1..];
  }

  lemma ClosureStep(g: DirectedGraph<TermId>, frontier: seq<TermId>, next: seq<TermId>, acc: set<TermId>, r: set<TermId>)
    requires ValidGraph(g) && frontier != [] && frontier[0] in g.vertices
    requires forall x :: x in next ==> x in Neighbors(g, Forward, frontier[0])
    requires forall x :: x in r ==> x in acc + Elements(next) || ReachableFromAny(g, frontier[1..] + next, x)
    ensures forall x :: x in r ==> x in acc || ReachableFromAny(g, frontier, x)
  {
    var u := frontier[0];
    ReachableRefl(g, Forward, u);
    forall x | x in r && x !in acc
      ensures ReachableFromAny(g, frontier, x)
    {
      if x in next {
        ReachableStep(g, Forward, u, u, x);
      } else {
        var v :| v in frontier[1..] + next && Reachable(g, Forward, v, x);
        if v in next {
          ReachableStep(g, Forward, u, u, v);
          ReachableTrans(g, Forward, u, v, x);
        } else {
          assert v in frontier;
        }
      }
    }
  }

  /** A set closed under parents holds everything reachable from its members. */
  lemma ClosedHasReachable(g: DirectedGraph<TermId>, c: set<TermId>, seeds: seq<TermId>)
    requires forall u, w :: u in c && w in Neighbors(g, Forward, u) ==> w in c
    requires forall s :: s in seeds ==> s in c
    ensures forall x :: ReachableFromAny(g, seeds, x) ==> x in c
  {
    forall x | ReachableFromAny(g, seeds, x)
      ensures x in c
    {
      var u :| u in seeds && Reachable(g, Forward, u, x);
      var p :| PathFromTo(g, Forward, p, u, x);
      ClosedContainsPath(g, Forward, c, p);
    }
  }

  lemma SeedsReachable(g: DirectedGraph<TermId>, seeds: seq<TermId>)
    requires forall s :: s in seeds ==> s in g.vertices
    ensures forall s :: s in seeds ==> ReachableFromAny(g, seeds, s)
  {
    forall s | s in seeds
      ensures ReachableFromAny(g, seeds, s)
    {
      ReachableRefl(g, Forward, s);
    }
  }

  /** Every term reachable from one of `seeds`, the seeds included. */
  function ReachFrom(g: DirectedGraph<TermId>, seeds: seq<TermId>): (r: set<TermId>)
    requires ValidGraph(g) && forall s :: s in seeds ==> s in g.vertices
    ensures forall x :: x in r <==> ReachableFromAny(g, seeds, x)
  {
    var r := Closure(g, seeds, Elements(seeds));
    ClosedHasReachable(g, r, seeds);
    SeedsReachable(g, seeds);
    r
  }

  /**
   * `getAncestors(termId, includeRoot)`: the term itself and every term reachable
   * from it along child-to-parent edges, without the root unless `includeRoot`.
   */
  function GetAncestors(o: Ontology, t: TermId, includeRoot: bool): (r: set<TermId>)
    requires ValidOntology(o) && t in o.graph.vertices
    ensures forall x :: x in r <==> Reachable(o.graph, Forward, t, x) && (includeRoot || x != o.root)
  {
    var all := ReachFrom(o.graph, [t]);
    assert forall x :: ReachableFromAny(o.graph, [t], x) <==> Reachable(o.graph, Forward, t, x);
    if includeRoot then all else all - {o.root}
  }

  /** `getAncestors(termId)`: the same with the root included. */
  function GetAncestorsWithRoot(o: Ontology, t: TermId): (r: set<TermId>)
    requires ValidOntology(o) && t in o.graph.vertices
    ensures forall x :: x in r <==> Reachable(o.graph, Forward, t, x)
  {
    GetAncestors(o, t, true)
  }

  /** The ancestor set holds the term itself, except a root the caller excluded. */
  lemma AncestorsContainTerm(o: Ontology, t: TermId, includeRoot: bool)
    requires ValidOntology(o) && t in o.graph.vertices
    requires includeRoot || t != o.root
    ensures t in GetAncestors(o, t, includeRoot)
  {
    ReachableRefl(o.graph, Forward, t);
  }

  /** Ancestor sets are closed: an ancestor's ancestors are ancestors. */
  lemma AncestorsTransitive(o: Ontology, t: TermId, a: TermId)
    requires ValidOntology(o) && t in o.graph.vertices
    requires a in GetAncestorsWithRoot(o, t)
    ensures a in o.graph.vertices
    ensures GetAncestorsWithRoot(o, a) <= GetAncestorsWithRoot(o, t)
  {
    var p :| PathFromTo(o.graph, Forward, p, t, a);
    forall x | x in GetAncestorsWithRoot(o, a)
      ensures x in GetAncestorsWithRoot(o, t)
    {
      ReachableTrans(o.graph, Forward, t, a, x);
    }
  }

  /**
   * `getAllAncestorTermIds(termIds, includeRoot)`: one closure from all the
   * given terms at once, without the root unless `includeRoot`.
   */
  function GetAllAncestorTermIds(o: Ontology, ts: seq<TermId>, includeRoot: bool): (r: set<TermId>)
    requires ValidOntology(o) && forall t :: t in ts ==> t in o.graph.vertices
    ensures forall x :: x in r <==> ReachableFromAny(o.graph, ts, x) && (includeRoot || x != o.root)
  {
    var all := ReachFrom(o.graph, ts);
    if includeRoot then all else all - {o.root}
  }

  /** `getAllAncestorTermIds(termIds)`: the same with the root included. */
  function GetAllAncestorTermIdsWithRoot(o: Ontology, ts: seq<TermId>): (r: set<TermId>)
    requires ValidOntology(o) && forall t :: t in ts ==> t in o.graph.vertices
    ensures forall x :: x in r <==> ReachableFromAny(o.graph, ts, x)
  {
    GetAllAncestorTermIds(o, ts, true)
  }

  /** The joint closure is the union of the single-term ancestor sets. */
  lemma AllAncestorsIsUnion(o: Ontology, ts: seq<TermId>, includeRoot: bool)
    requires ValidOntology(o) && forall t :: t in ts ==> t in o.graph.vertices
    ensures forall x :: x in GetAllAncestorTermIds(o, ts, includeRoot) <==>
      exists t :: t in ts && x in GetAncestors(o, t, includeRoot)
  {
  }

  /** Every given term is in the result, except a root the caller excluded. */
  lemma AllAncestorsContainInputs(o: Ontology, ts: seq<TermId>, includeRoot: bool)
    requires ValidOntology(o) && forall t :: t in ts ==> t in o.graph.vertices
    ensures forall t :: t in ts && (includeRoot || t != o.root) ==> t in GetAllAncestorTermIds(o, ts, includeRoot)
  {
    forall t | t in ts
      ensures ReachableFromAny(o.graph, ts, t)
    {
      ReachableRefl(o.graph, Forward, t);
    }
  }

  /** `getParentTermIds(termId)`: the targets of the term's out-edges. */
  function GetParentTermIds(o: Ontology, t: TermId): (r: set<TermId>)
    requires ValidOntology(o)
    ensures forall x :: x in r <==> exists e :: e in o.graph.edges && e.source == t && e.dest == x
    ensures t in o.graph.vertices ==> r <= GetAncestorsWithRoot(o, t)
  {
    ParentsReachable(o.graph, t);
    Elements(Neighbors(o.graph, Forward, t))
  }

  lemma ParentsReachable(g: DirectedGraph<TermId>, t: TermId)
    requires ValidGraph(g)
    ensures t in g.vertices ==> forall x :: x in Neighbors(g, Forward, t) ==> Reachable(g, Forward, t, x)
  {
    if t in g.vertices {
      forall x | x in Neighbors(g, Forward, t)
        ensures Reachable(g, Forward, t, x)
      {
        ReachableRefl(g, Forward, t);
        ReachableStep(g, Forward, t, t, x);
      }
    }
  }

  /** A walk of at least one child-to-parent edge from `s` to `d`. */
  ghost predicate ProperPath(g: DirectedGraph<TermId>, s: TermId, d: TermId) {
    exists p :: PathFromTo(g, Forward, p, s, d) && |p| >= 2
  }

  lemma EdgeIsProperPath(g: DirectedGraph<TermId>, e: Edge<TermId>)
    requires e in g.edges && e.source in g.vertices && e.dest in g.vertices
    ensures ProperPath(g, e.source, e.dest)
  {
    assert PathFromTo(g, Forward, [e.source, e.dest], e.source, e.dest);
  }

  lemma ProperPathTrans(g: DirectedGraph<TermId>, a: TermId, b: TermId, c: TermId)
    requires ProperPath(g, a, b) && ProperPath(g, b, c)
    ensures ProperPath(g, a, c)
  {
    var p :| PathFromTo(g, Forward, p, a, b) && |p| >= 2;
    var q :| PathFromTo(g, Forward, q, b, c) && |q| >= 2;
    PathConcat(g, Forward, p, q);
    assert PathFromTo(g, Forward, p + q[1..], a, c);
  }

  /** `existsPath(source, dest)`: `dest` is reached from a parent of `source`. */
  function ExistsPath(o: Ontology, s: TermId, d: TermId): (r: bool)
    requires ValidOntology(o)
    ensures r <==> ProperPath(o.graph, s, d)
  {
    var g := o.graph;
    var parents := Neighbors(g, Forward, s);
    NeighborsAreVertices(g, Forward);
    var r := d in ReachFrom(g, parents);
    ExistsPathSpec(g, s, d, parents);
    r
  }

  lemma ExistsPathSpec(g: DirectedGraph<TermId>, s: TermId, d: TermId, parents: seq<TermId>)
    requires ValidGraph(g) && parents == Neighbors(g, Forward, s)
    ensures ReachableFromAny(g, parents, d) <==> ProperPath(g, s, d)
  {
    if ReachableFromAny(g, parents, d) {
      var u :| u in parents && Reachable(g, Forward, u, d);
      var q :| PathFromTo(g, Forward, q, u, d);
      var e :| e in g.edges && Tail(e, Forward) == s && Head(e, Forward) == u;
      PathCons(g, Forward, s, q);
      assert PathFromTo(g, Forward, [s] + q, s, d);
    }
    if ProperPath(g, s, d) {
      var p :| PathFromTo(g, Forward, p, s, d) && |p| >= 2;
      PathTail(g, Forward, p);
      assert PathFromTo(g, Forward, p[1..], p[1], d);
    }
  }

  /** In an acyclic ontology no term has a path to itself. */
  lemma NoSelfPath(o: Ontology, t: TermId)
    requires ValidOntology(o)
    ensures !ExistsPath(o, t, t)
  {
  }

  /** A proper path makes the source a strict descendant: never both ways. */
  lemma PathAntisymmetric(o: Ontology, a: TermId, b: TermId)
    requires ValidOntology(o)
    requires ExistsPath(o, a, b)
    ensures !ExistsPath(o, b, a)
  {
    if ExistsPath(o, b, a) {
      var p :| PathFromTo(o.graph, Forward, p, a, b) && |p| >= 2;
      var q :| PathFromTo(o.graph, Forward, q, b, a) && |q| >= 2;
      PathConcat(o.graph, Forward, p, q);
    }
  }

  // The five-term example of the ontology tests, over any five distinct term ids
  // (the tests use HP:0000001 to HP:0000005): id1 -> {id2, id3, id4},
  // id2 -> id5, id3 -> id5, id4 -> id5, with root id5.

  ghost predicate ExampleIds(ids: seq<TermId>) {
    |ids| == 5 && Distinct(ids)
  }

  function ExampleEdges(ids: seq<TermId>): seq<Edge<TermId>>
    requires |ids| == 5
  {
    [Edge(ids[0], ids[1], 1), Edge(ids[0], ids[2], 2), Edge(ids[0], ids[3], 3),
     Edge(ids[1], ids[4], 4), Edge(ids[2], ids[4], 5), Edge(ids[3], ids[4], 6)]
  }

  function Example(ids: seq<TermId>): Ontology
    requires |ids| == 5
  {
    Ontology(DirectedGraph(ids, ExampleEdges(ids)), ids[4], Elements(ids), {})
  }

  /** Position of a term in the example's child-before-parent numbering. */
  function ExampleRank(ids: seq<TermId>, t: TermId): int
    requires |ids| == 5
  {
    if t == ids[0] then 0 else if t == ids[4] then 2 else 1
  }

  lemma ExampleStepAscends(ids: seq<TermId>, x: TermId, y: TermId)
    requires ExampleIds(ids)
    requires y in Neighbors(Example(ids).graph, Forward, x)
    ensures ExampleRank(ids, x) < ExampleRank(ids, y)
  {
    var e :| e in ExampleEdges(ids) && e.source == x && e.dest == y;
  }

  /** On a graph where every child-to-parent edge raises `rank`, every walk raises it. */
  lemma {:induction false} RankAscends(g: DirectedGraph<TermId>, rank: TermId -> int, p: seq<TermId>, k: nat)
    requires forall x, y :: y in Neighbors(g, Forward, x) ==> rank(x) < rank(y)
    requires IsPath(g, Forward, p) && 1 <= k < |p|
    ensures rank(p[0]) < rank(p[k])
  {
    assert p[k - 1 + 1] in Neighbors(g, Forward, p[k - 1]);
    if k > 1 {
      RankAscends(g, rank, p, k - 1);
    }
  }

  /** The example's graph is well formed: distinct vertices, edges between them, distinct edge ids. */
  lemma ExampleWellFormed(ids: seq<TermId>)
    requires ExampleIds(ids)
    ensures WellFormed(Example(ids))
  {
    var es := ExampleEdges(ids);
    forall e | e in es
      ensures e.source in ids && e.dest in ids
    {
    }
  }

  /** Every edge of the example leads to a term of higher rank. */
  lemma ExampleEdgesAscend(ids: seq<TermId>)
    requires ExampleIds(ids)
    ensures forall x, y :: y in Neighbors(Example(ids).graph, Forward, x) ==> ExampleRank(ids, x) < ExampleRank(ids, y)
  {
    forall x, y | y in Neighbors(Example(ids).graph, Forward, x)
      ensures ExampleRank(ids, x) < ExampleRank(ids, y)
    {
      ExampleStepAscends(ids, x, y);
    }
  }

  lemma ExampleValid(ids: seq<TermId>)
    requires ExampleIds(ids)
    ensures ValidOntology(Example(ids))
  {
    ExampleWellFormed(ids);
    var g := Example(ids).graph;
    var rank := t => ExampleRank(ids, t);
    ExampleEdgesAscend(ids);
    assert forall x, y :: y in Neighbors(g, Forward, x) ==> rank(x) < rank(y);
    if HasCycle(g, Forward) {
      var p :| IsPath(g, Forward, p) && |p| >= 2 && p[0] == p[|p| - 1];
      RankAscends(g, rank, p, |p| - 1);
    }
  }

  lemma ExampleParentEdges(ids: seq<TermId>, x: TermId)
    requires ExampleIds(ids)
    ensures (exists e :: e in ExampleEdges(ids) && e.source == ids[0] && e.dest == x) <==> x in {ids[1], ids[2], ids[3]}
  {
    var es := ExampleEdges(ids);
    assert es[0] in es && es[1] in es && es[2] in es;
  }

  /** The parents of id1 are exactly id2, id3 and id4. */
  lemma ExampleParents(ids: seq<TermId>)
    requires ExampleIds(ids)
    ensures ValidOntology(Example(ids))
    ensures GetParentTermIds(Example(ids), ids[0]) == {ids[1], ids[2], ids[3]}
  {
    ExampleValid(ids);
    ExampleFirstNeighbors(ids);
    var ns := [ids[1], ids[2], ids[3]];
    assert GetParentTermIds(Example(ids), ids[0]) == Elements(ns);
    assert Elements(ns) == {ids[1], ids[2], ids[3]};
  }

  /** The out-edges of id1 lead to id2, id3 and id4, in that order. */
  lemma ExampleFirstNeighbors(ids: seq<TermId>)
    requires ExampleIds(ids)
    ensures Neighbors(Example(ids).graph, Forward, ids[0]) == [ids[1], ids[2], ids[3]]
  {
    var es := ExampleEdges(ids);
    var v := ids[0];
    assert ids[1] != v && ids[2] != v && ids[3] != v;
    assert NextFrom(es[5..], Forward, v) == [] by {
      assert es[5..][1..] == [];
    }
    assert NextFrom(es[4..], Forward, v) == [] by {
      assert es[4..][1..] == es[5..];
    }
    assert NextFrom(es[3..], Forward, v) == [] by {
      assert es[3..][1..] == es[4..];
    }
    assert NextFrom(es[2..], Forward, v) == [ids[3]] by {
      assert es[2..][1..] == es[3..];
    }
    assert NextFrom(es[1..], Forward, v) == [ids[2], ids[3]] by {
      assert es[1..][1..] == es[2..];
    }
  }

  lemma ExampleProperPaths(ids: seq<TermId>)
    requires ExampleIds(ids)
    ensures ProperPath(Example(ids).graph, ids[0], ids[1]) && ProperPath(Example(ids).graph, ids[0], ids[2])
    ensures ProperPath(Example(ids).graph, ids[0], ids[3]) && ProperPath(Example(ids).graph, ids[0], ids[4])
    ensures ProperPath(Example(ids).graph, ids[1], ids[4]) && ProperPath(Example(ids).graph, ids[3], ids[4])
  {
    var g := Example(ids).graph;
    var es := ExampleEdges(ids);
    EdgeIsProperPath(g, es[0]);
    EdgeIsProperPath(g, es[1]);
    EdgeIsProperPath(g, es[2]);
    EdgeIsProperPath(g, es[3]);
    EdgeIsProperPath(g, es[5]);
    ProperPathTrans(g, ids[0], ids[1], ids[4]);
  }

  lemma ExampleForwardPaths(ids: seq<TermId>)
    requires ExampleIds(ids)
    ensures ValidOntology(Example(ids))
    ensures ExistsPath(Example(ids), ids[0], ids[1]) && ExistsPath(Example(ids), ids[0], ids[2])
    ensures ExistsPath(Example(ids), ids[0], ids[3]) && ExistsPath(Example(ids), ids[0], ids[4])
    ensures ExistsPath(Example(ids), ids[1], ids[4]) && ExistsPath(Example(ids), ids[3], ids[4])
  {
    ExampleValid(ids);
    ExampleProperPaths(ids);
  }

  /** The tested path queries: paths run from child to parent and never back. */
  lemma ExamplePaths(ids: seq<TermId>)
    requires ExampleIds(ids)
    ensures ValidOntology(Example(ids))
    ensures ExistsPath(Example(ids), ids[0], ids[1]) && !ExistsPath(Example(ids), ids[1], ids[0])
    ensures ExistsPath(Example(ids), ids[0], ids[2]) && !ExistsPath(Example(ids), ids[2], ids[0])
    ensures ExistsPath(Example(ids), ids[0], ids[3]) && !ExistsPath(Example(ids), ids[3], ids[0])
    ensures ExistsPath(Example(ids), ids[0], ids[4]) && !ExistsPath(Example(ids), ids[4], ids[0])
    ensures ExistsPath(Example(ids), ids[1], ids[4]) && !ExistsPath(Example(ids), ids[4], ids[1])
    ensures ExistsPath(Example(ids), ids[3], ids[4]) && !ExistsPath(Example(ids), ids[4], ids[3])
    ensures !ExistsPath(Example(ids), ids[4], ids[4])
  {
    ExampleForwardPaths(ids);
    var o := Example(ids);
    PathAntisymmetric(o, ids[0], ids[1]);
    PathAntisymmetric(o, ids[0], ids[2]);
    PathAntisymmetric(o, ids[0], ids[3]);
    PathAntisymmetric(o, ids[0], ids[4]);
    PathAntisymmetric(o, ids[1], ids[4]);
    PathAntisymmetric(o, ids[3], ids[4]);
    NoSelfPath(o, ids[4]);
  }
}
