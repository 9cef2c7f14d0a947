/**
 * The all-pairs shortest-path table of an ontology: a dense `n * n` int array,
 * indexed through a term-id-to-index map, holding the least number of
 * child-to-parent edges from one term to another, or `DistanceInfinity` when
 * there is no such walk. It is filled by a visitor called on the terms in a
 * forward topological order (every term after all of its parents).
 */
module ShortestPaths {
  import opened Wrappers
  import opened Graphs
  import opened TermIds
  import opened Ontologies
  import opened TopologicalSorting

  /** The "no path" value. */
  const DistanceInfinity: int := -1

  /** What building the table can throw. */
  datatype BuildError =
    | NotDag                     // `GraphNotDagException` from the topological sorting
    | NullIndex(termId: TermId)  // `setDistance` unboxing the missing index of a term that is not indexed

  /** A walk of exactly `n` child-to-parent edges from `s` to `d`. */
  ghost predicate PathOfLength(g: DirectedGraph<TermId>, s: TermId, d: TermId, n: nat) {
    exists p :: PathFromTo(g, Forward, p, s, d) && |p| == n + 1
  }

  /** `r` is the least number of edges from `s` to `d`, or `DistanceInfinity` if there is no walk. */
  ghost predicate IsShortestDistance(g: DirectedGraph<TermId>, s: TermId, d: TermId, r: int) {
    || (r == DistanceInfinity && !Reachable(g, Forward, s, d))
    || (r >= 0 && PathOfLength(g, s, d, r) && forall m: nat :: m < r ==> !PathOfLength(g, s, d, m))
  }

  /** Cell `(i, j)` of an `n * n` row-major matrix is a distinct index below `n * n`. */
  lemma CellIndex(i: nat, j: nat, i': nat, j': nat, n: nat)
    requires i < n && j < n && i' < n && j' < n
    ensures i * n + j < n * n
    ensures i * n + j == i' * n + j' ==> i == i' && j == j'
  {
    RowBelow(i, j, n, n);
    if i < i' {
      RowBelow(i, j, i', n);
    } else if i' < i {
      RowBelow(i', j', i, n);
    }
  }

  /** A cell of row `i` lies before the start of any later row `k`. */
  lemma {:induction false} RowBelow(i: nat, j: nat, k: nat, n: nat)
    requires i < k && j < n
    ensures i * n + j < k * n
  {
    if k == i + 1 {
      assert (i + 1) * n == i * n + n;
    } else {
      RowBelow(i, j, k - 1, n);
      assert k * n == (k - 1) * n + n;
    }
  }

  /** Each term of `sorted` is mapped to its position, and every position is used. */
  method Positions(sorted: seq<TermId>) returns (idx: map<TermId, nat>)
    requires Distinct(sorted)
    ensures forall t :: t in idx <==> t in sorted
    ensures forall t :: t in idx ==> idx[t] < |sorted| && sorted[idx[t]] == t
    ensures forall j :: 0 <= j < |sorted| ==> j in idx.Values
    ensures forall a, b :: a in idx && b in idx && idx[a] == idx[b] ==> a == b
  {
    idx := map[];
    var i := 0;
    while i < |sorted|
      invariant 0 <= i <= |sorted|
      invariant forall t :: t in idx <==> t in sorted[..i]
      invariant forall t :: t in idx ==> idx[t] < i && sorted[idx[t]] == t
    {
      idx := idx[sorted[i] := i];
      i := i + 1;
    }
    assert sorted[..i] == sorted;
    forall j | 0 <= j < |sorted|
      ensures j in idx.Values
    {
      var k := idx[sorted[j]];
      assert sorted[k] == sorted[j];
      assert idx[sorted[j]] == j;
    }
  }

  /** Positions in a strictly sorted sequence follow the term-id order. */
  lemma PositionsOrdered(sorted: seq<TermId>, idx: map<TermId, nat>)
    requires StrictlySorted(sorted)
    requires forall t :: t in idx ==> idx[t] < |sorted| && sorted[idx[t]] == t
    ensures forall a, b :: a in idx && b in idx ==> (TermLess(a, b) <==> idx[a] < idx[b])
  {
    forall a, b | a in idx && b in idx
      ensures TermLess(a, b) <==> idx[a] < idx[b]
    {
      TermLessIrreflexive(a);
      if idx[b] < idx[a] {
        if TermLess(a, b) {
          TermLessTransitive(a, b, a);
        }
      }
    }
  }

  class ShortestPathTable {
    const termIdCount: nat
    const termIdToIdx: map<TermId, nat>
    const distances: array<int>
    /** The term graph the table was built from. */
    ghost const graph: DirectedGraph<TermId>

    /** The index map is a bijection from the indexed terms onto `[0, termIdCount)`. */
    ghost predicate Indexed()
      reads this
    {
      && distances.Length == termIdCount * termIdCount
      && (forall t :: t in termIdToIdx ==> termIdToIdx[t] < termIdCount)
      && (forall a, b :: a in termIdToIdx && b in termIdToIdx && termIdToIdx[a] == termIdToIdx[b] ==> a == b)
      && (forall i :: 0 <= i < termIdCount ==> i in termIdToIdx.Values)
    }

    function Index(s: TermId, d: TermId): (k: nat)
      reads this
      requires Indexed() && s in termIdToIdx && d in termIdToIdx
      ensures k < distances.Length
    {
      CellIndex(termIdToIdx[s], termIdToIdx[d], 0, 0, termIdCount);
      termIdToIdx[s] * termIdCount + termIdToIdx[d]
    }

    ghost function Cell(s: TermId, d: TermId): int
      reads this, distances
      requires Indexed() && s in termIdToIdx && d in termIdToIdx
    {
      distances[Index(s, d)]
    }

    /**
     * The rows of the terms in `seen` hold true distances; every other row is
     * still all `DistanceInfinity`.
     */
    ghost predicate Built(seen: set<TermId>)
      reads this, distances
      requires Indexed()
    {
      RowsDone(seen) && RowsUntouched(seen)
    }

    /** The rows of the terms in `seen` hold true distances. */
    ghost predicate RowsDone(seen: set<TermId>)
      reads this, distances
      requires Indexed()
    {
      forall s, d :: s in seen && s in termIdToIdx && d in termIdToIdx ==> IsShortestDistance(graph, s, d, Cell(s, d))
    }

    /** The rows of the terms outside `seen` are all `DistanceInfinity`. */
    ghost predicate RowsUntouched(seen: set<TermId>)
      reads this, distances
      requires Indexed()
    {
      forall s, d :: s !in seen && s in termIdToIdx && d in termIdToIdx ==> Cell(s, d) == DistanceInfinity
    }

    /** The indexed terms are vertices of a well-formed term graph. */
    ghost predicate IndexedVertices()
      reads this
    {
      && Indexed()
      && ValidGraph(graph)
      && (forall t :: t in termIdToIdx ==> t in graph.vertices)
    }

    /** A built table: every vertex of the acyclic term graph is indexed and has its row. */
    ghost predicate Valid()
      reads this, distances
    {
      && IndexedVertices()
      && !HasCycle(graph, Forward)
      && (forall t :: t in graph.vertices ==> t in termIdToIdx)
      && Built(Elements(graph.vertices))
    }

    /**
     * The constructor's index assignment: the non-obsolete term ids, in ascending
     * order, get the indices `0, 1, ..., n - 1`.
     */
    constructor (o: Ontology)
      ensures graph == o.graph && termIdCount == |o.nonObsoleteTermIds|
      ensures Indexed() && fresh(distances)
      ensures forall t :: t in termIdToIdx <==> t in o.nonObsoleteTermIds
      ensures forall a, b :: a in termIdToIdx && b in termIdToIdx ==>
        (TermLess(a, b) <==> termIdToIdx[a] < termIdToIdx[b])
    {
      var sorted := SortedCopy(o.nonObsoleteTermIds);
      var n := |o.nonObsoleteTermIds|;
      var idx := Positions(sorted);
      PositionsOrdered(sorted, idx);
      termIdCount := n;
      termIdToIdx := idx;
      distances := new int[n * n];
      graph := o.graph;
      new;
      assert Indexed();
    }

    /** `setDistance`: writes one cell and no other. */
    method SetDistance(s: TermId, d: TermId, distance: int)
      requires Indexed() && s in termIdToIdx && d in termIdToIdx
      modifies distances
      ensures Cell(s, d) == distance
      ensures forall a, b :: a in termIdToIdx && b in termIdToIdx && (a != s || b != d) ==>
        Cell(a, b) == old(Cell(a, b))
    {
      distances[Index(s, d)] := distance;
      forall a, b | a in termIdToIdx && b in termIdToIdx && (a != s || b != d)
        ensures Index(a, b) != Index(s, d)
      {
        CellIndex(termIdToIdx[a], termIdToIdx[b], termIdToIdx[s], termIdToIdx[d], termIdCount);
      }
    }

    /**
     * A write into the row of a term `v` outside `seen`: the finished rows stay
     * finished, the rows outside `seen + {v}` stay untouched, and the rest of the
     * row of `v` keeps its values.
     */
    method SetRowCell(seen: set<TermId>, v: TermId, d: TermId, distance: int)
      requires Indexed() && v in termIdToIdx && d in termIdToIdx && v !in seen
      requires RowsDone(seen) && RowsUntouched(seen + {v})
      modifies distances
      ensures Cell(v, d) == distance
      ensures forall e :: e in termIdToIdx && e != d ==> Cell(v, e) == old(Cell(v, e))
      ensures RowsDone(seen) && RowsUntouched(seen + {v})
    {
      SetDistance(v, d, distance);
    }

    /**
     * `getDistance`: `DistanceInfinity` for a term without an index, else the
     * stored cell; in a built table, the least number of child-to-parent edges.
     */
    function GetDistance(s: TermId, d: TermId): (r: int)
      reads this, distances
      requires Indexed()
      ensures s in termIdToIdx && d in termIdToIdx ==> r == Cell(s, d)
      ensures s !in termIdToIdx || d !in termIdToIdx ==> r == DistanceInfinity
      ensures Valid() ==> IsShortestDistance(graph, s, d, r)
    {
      if s !in termIdToIdx || d !in termIdToIdx then
        UnknownUnreachable(s, d);
        DistanceInfinity
      else
        distances[Index(s, d)]
    }

    lemma UnknownUnreachable(s: TermId, d: TermId)
      requires s !in termIdToIdx || d !in termIdToIdx
      ensures Valid() ==> !Reachable(graph, Forward, s, d)
    {
    }

    /**
     * `getDistanceSymmetric`: the distance from `s` to `d` if there is a walk,
     * otherwise the distance from `d` to `s`.
     */
    function GetDistanceSymmetric(s: TermId, d: TermId): (r: int)
      reads this, distances
      requires Valid()
      ensures r == DistanceInfinity <==> !Reachable(graph, Forward, s, d) && !Reachable(graph, Forward, d, s)
      ensures r != DistanceInfinity ==> IsShortestDistance(graph, s, d, r) || IsShortestDistance(graph, d, s, r)
      ensures Reachable(graph, Forward, s, d) ==> r == GetDistance(s, d)
    {
      var dist := GetDistance(s, d);
      if dist != DistanceInfinity then dist else GetDistance(d, s)
    }

    /** The first loop of `precomputeDistances`: every cell becomes `DistanceInfinity`. */
    method ClearAll()
      requires Indexed()
      modifies distances
      ensures forall k :: 0 <= k < distances.Length ==> distances[k] == DistanceInfinity
      ensures Built({})
    {
      for i := 0 to distances.Length
        invariant forall k :: 0 <= k < i ==> distances[k] == DistanceInfinity
      {
        distances[i] := DistanceInfinity;
      }
      assert Built({}) by {
        forall s, d | s in termIdToIdx && d in termIdToIdx
          ensures Cell(s, d) == DistanceInfinity
        {
          assert 0 <= Index(s, d) < distances.Length;
        }
      }
    }

    /**
     * `precomputeDistances`: sets every cell to `DistanceInfinity`, then runs the
     * forward topological sorting with the distance-building visitor. It fails
     * when the graph is not a DAG or when a vertex has no index (an obsolete
     * term); otherwise the table is built.
     */
    method PrecomputeDistances(g: DirectedGraph<TermId>) returns (o: Outcome<BuildError>)
      requires IndexedVertices() && g == graph
      modifies distances
      ensures o.Pass? <==> !HasCycle(graph, Forward) && forall t :: t in graph.vertices ==> t in termIdToIdx
      ensures o == Fail(NotDag) ==> HasCycle(graph, Forward)
      ensures o.Fail? && o.error.NullIndex? ==> o.error.termId in graph.vertices && o.error.termId !in termIdToIdx
      ensures o.Pass? ==> Valid()
    {
      ClearAll();
      var order := StartForward(g);
      if order.Failure? {
        return Fail(NotDag);
      }
      o := VisitAll(g, order.value);
    }

    /**
     * The visiting half of `precomputeDistances`: the distance-building visitor
     * is called on the terms in a forward topological order, and the first term
     * without an index stops it.
     */
    method VisitAll(g: DirectedGraph<TermId>, order: seq<TermId>) returns (o: Outcome<BuildError>)
      requires IndexedVertices() && g == graph
      requires Built({}) && IsTopologicalOrder(graph, Forward, order)
      modifies distances
      ensures o.Pass? <==> forall t :: t in graph.vertices ==> t in termIdToIdx
      ensures o.Pass? ==> Built(Elements(graph.vertices))
      ensures o.Fail? ==> exists i :: 0 <= i < |order| && o.error == NullIndex(order[i]) && FirstUnindexed(order, i)
    {
      var visitor := new BuildDistanceTableVertexVisitor(this);
      for i := 0 to |order|
        invariant visitor.table == this && visitor.seen == Elements(order[..i])
        invariant forall j :: 0 <= j < i ==> order[j] in termIdToIdx
        invariant Built(visitor.seen)
        invariant forall u, w :: u in visitor.seen && w in Neighbors(graph, Forward, u) ==> w in visitor.seen
      {
        var r := VisitNext(visitor, g, order, i);
        if r.Failure? {
          return Fail(r.error);
        }
      }
      assert order[..|order|] == order;
      assert Elements(order) == Elements(graph.vertices);
      return Pass;
    }

    /** One turn of the visiting loop: the visitor is called on `order[i]`, all terms before it being done. */
    method VisitNext(visitor: BuildDistanceTableVertexVisitor, g: DirectedGraph<TermId>, order: seq<TermId>, i: nat)
      returns (r: Result<bool, BuildError>)
      requires IndexedVertices() && g == graph && IsTopologicalOrder(graph, Forward, order) && i < |order|
      requires visitor.table == this && visitor.seen == Elements(order[..i])
      requires forall j :: 0 <= j < i ==> order[j] in termIdToIdx
      requires Built(visitor.seen)
      requires forall u, w :: u in visitor.seen && w in Neighbors(graph, Forward, u) ==> w in visitor.seen
      modifies visitor, distances
      ensures r.Success? <==> order[i] in termIdToIdx
      ensures r.Failure? ==> r.error == NullIndex(order[i]) && FirstUnindexed(order, i)
      ensures r.Success? ==> visitor.seen == Elements(order[..i + 1]) && Built(visitor.seen)
      ensures r.Success? ==> forall u, w :: u in visitor.seen && w in Neighbors(graph, Forward, u) ==> w in visitor.seen
    {
      assert order[..i + 1] == order[..i] + [order[i]];
      r := visitor.Visit(g, order[i]);
    }

    /** `order[i]` is the first term of `order` without an index. */
    ghost predicate FirstUnindexed(order: seq<TermId>, i: int)
      reads this
      requires 0 <= i < |order|
    {
      order[i] !in termIdToIdx && forall j :: 0 <= j < i ==> order[j] in termIdToIdx
    }

    /**
     * The constructor: the index assignment, then the distance computation. It
     * fails when the term graph has a cycle or a vertex that is not a
     * non-obsolete term.
     */
    static method Create(o: Ontology) returns (r: Result<ShortestPathTable, BuildError>)
      requires WellFormed(o)
      ensures r.Success? <==> !HasCycle(o.graph, Forward) && Elements(o.graph.vertices) <= o.nonObsoleteTermIds
      ensures r == Failure(NotDag) ==> HasCycle(o.graph, Forward)
      ensures r.Failure? && r.error.NullIndex? ==> r.error.termId in o.graph.vertices && r.error.termId !in o.nonObsoleteTermIds
      ensures r.Success? ==> r.value.Valid() && r.value.graph == o.graph
    {
      var t := new ShortestPathTable(o);
      var out := t.PrecomputeDistances(o.graph);
      if out.Fail? {
        return Failure(out.error);
      }
      return Success(t);
    }
  }

  /** The visitor that fills one row of the table per visited term. */
  class BuildDistanceTableVertexVisitor {
    const table: ShortestPathTable
    /** The terms whose rows are done. */
    var seen: set<TermId>

    constructor (table: ShortestPathTable)
      ensures this.table == table && seen == {}
    {
      this.table := table;
      seen := {};
    }

    /**
     * The inner loop of `visit`: one more than the least finite distance from a
     * parent of `v` to `d`, or `DistanceInfinity` when no parent reaches `d`;
     * this is the distance from `v` to `d`.
     */
    method DistanceVia(g: DirectedGraph<TermId>, v: TermId, d: TermId) returns (minDist: int)
      requires table.IndexedVertices() && g == table.graph
      requires table.RowsDone(seen) && forall u :: u in seen ==> u in table.termIdToIdx
      requires v in g.vertices && d in table.termIdToIdx && v != d
      requires forall w :: w in Neighbors(g, Forward, v) ==> w in seen
      ensures IsShortestDistance(g, v, d, minDist)
    {
      NeighborsAreVertices(g, Forward);
      minDist := DistanceInfinity;
      var via := Neighbors(g, Forward, v);
      for k := 0 to |via|
        invariant minDist == DistanceInfinity ==> forall j :: 0 <= j < k ==> !Reachable(g, Forward, via[j], d)
        invariant minDist != DistanceInfinity ==> minDist >= 1 && exists j :: 0 <= j < k && PathOfLength(g, via[j], d, minDist - 1)
        invariant forall j, m: nat :: 0 <= j < k && PathOfLength(g, via[j], d, m) ==> minDist != DistanceInfinity && minDist <= m + 1
      {
        var tmpDist := table.GetDistance(via[k], d);
        assert IsShortestDistance(g, via[k], d, tmpDist);
        if tmpDist != DistanceInfinity {
          var candDist := tmpDist + 1;
          if minDist == DistanceInfinity || candDist < minDist {
            minDist := candDist;
          }
        }
      }
      if minDist != DistanceInfinity {
        ghost var j :| 0 <= j < |via| && PathOfLength(g, via[j], d, minDist - 1);
        assert via[j] in Neighbors(g, Forward, v);
      }
      ShortestViaNeighbors(g, v, d, minDist);
    }

    /**
     * `visit`: called on `v` once all its parents are done. Sets the distance
     * from `v` to itself to 0 and, for each finished `d`, the distance from `v`
     * to `d` to one more than the least finite distance from a parent of `v`.
     * A term without an index makes the first `setDistance` throw, before
     * anything is written.
     */
    method Visit(g: DirectedGraph<TermId>, v: TermId) returns (r: Result<bool, BuildError>)
      requires table.IndexedVertices() && g == table.graph
      requires table.Built(seen) && forall u :: u in seen ==> u in table.termIdToIdx
      requires forall u, w :: u in seen && w in Neighbors(g, Forward, u) ==> w in seen
      requires v in g.vertices && v !in seen
      requires forall w :: w in Neighbors(g, Forward, v) ==> w in seen
      modifies this, table.distances
      ensures r.Success? <==> v in table.termIdToIdx
      ensures r.Failure? ==> r.error == NullIndex(v) && seen == old(seen) && unchanged(table.distances)
      ensures r.Success? ==> r.value && seen == old(seen) + {v} && table.Built(seen)
    {
      if v !in table.termIdToIdx {
        return Failure(NullIndex(v));
      }
      table.SetDistance(v, v, 0);
      FillRow(g, v);
      UnseenUnreachable(g, seen, v);
      RowDone(table, seen, v);
      seen := seen + {v};
      return Success(true);
    }

    /** The `for (destTermId : seen)` loop of `visit`: the row of `v` towards the finished terms. */
    method FillRow(g: DirectedGraph<TermId>, v: TermId)
      requires table.IndexedVertices() && g == table.graph
      requires forall u :: u in seen ==> u in table.termIdToIdx
      requires table.RowsDone(seen) && table.RowsUntouched(seen + {v})
      requires v in table.termIdToIdx && v !in seen
      requires forall w :: w in Neighbors(g, Forward, v) ==> w in seen
      requires forall d :: d in table.termIdToIdx && d != v ==> table.Cell(v, d) == DistanceInfinity
      modifies table.distances
      ensures table.RowsDone(seen) && table.RowsUntouched(seen + {v})
      ensures table.Cell(v, v) == old(table.Cell(v, v))
      ensures forall d :: d in seen ==> IsShortestDistance(g, v, d, table.Cell(v, d))
      ensures forall d :: d in table.termIdToIdx && d !in seen && d != v ==> table.Cell(v, d) == DistanceInfinity
    {
      var rest := seen;
      ghost var done: set<TermId> := {};
      while rest != {}
        invariant rest + done == seen && rest !! done
        invariant table.RowsDone(seen) && table.RowsUntouched(seen + {v})
        invariant table.Cell(v, v) == old(table.Cell(v, v))
        invariant forall d :: d in done ==> IsShortestDistance(g, v, d, table.Cell(v, d))
        invariant forall d :: d in table.termIdToIdx && d !in done && d != v ==> table.Cell(v, d) == DistanceInfinity
        decreases rest
      {
        var d :| d in rest;
        FillCell(g, v, d, done);
        rest := rest - {d};
        done := done + {d};
      }
    }

    /** One turn of the loop of `fillRow`: the distance from `v` to the finished term `d`. */
    method FillCell(g: DirectedGraph<TermId>, v: TermId, d: TermId, ghost done: set<TermId>)
      requires table.IndexedVertices() && g == table.graph
      requires forall u :: u in seen ==> u in table.termIdToIdx
      requires table.RowsDone(seen) && table.RowsUntouched(seen + {v})
      requires v in table.termIdToIdx && v !in seen && d in seen && d !in done && done <= seen
      requires forall w :: w in Neighbors(g, Forward, v) ==> w in seen
      requires forall e :: e in done ==> IsShortestDistance(g, v, e, table.Cell(v, e))
      requires forall e :: e in table.termIdToIdx && e !in done && e != v ==> table.Cell(v, e) == DistanceInfinity
      modifies table.distances
      ensures table.RowsDone(seen) && table.RowsUntouched(seen + {v})
      ensures table.Cell(v, v) == old(table.Cell(v, v))
      ensures forall e :: e in done + {d} ==> IsShortestDistance(g, v, e, table.Cell(v, e))
      ensures forall e :: e in table.termIdToIdx && e !in done + {d} && e != v ==> table.Cell(v, e) == DistanceInfinity
    {
      var minDist := DistanceVia(g, v, d);
      if minDist != DistanceInfinity {
        table.SetRowCell(seen, v, d, minDist);
      }
    }
  }

  /** Finishing the row of `v` extends the finished rows by `v`. */
  lemma RowDone(t: ShortestPathTable, seen: set<TermId>, v: TermId)
    requires t.Indexed() && v in t.termIdToIdx && v !in seen
    requires forall d :: d in seen ==> d in t.termIdToIdx
    requires forall x :: x in t.termIdToIdx ==> x in t.graph.vertices
    requires t.RowsDone(seen) && t.RowsUntouched(seen + {v})
    requires t.Cell(v, v) == 0
    requires forall d :: d in seen ==> IsShortestDistance(t.graph, v, d, t.Cell(v, d))
    requires forall d :: d in t.termIdToIdx && d !in seen && d != v ==> t.Cell(v, d) == DistanceInfinity
    requires forall d :: Reachable(t.graph, Forward, v, d) ==> d in seen + {v}
    ensures t.Built(seen + {v})
  {
    assert PathFromTo(t.graph, Forward, [v], v, v);
    assert PathOfLength(t.graph, v, v, 0);
  }

  /** A walk between two different terms starts with an edge to a parent. */
  lemma FirstStep(g: DirectedGraph<TermId>, p: seq<TermId>, v: TermId, d: TermId)
    requires PathFromTo(g, Forward, p, v, d) && v != d
    ensures |p| >= 2 && p[1] in Neighbors(g, Forward, v)
    ensures PathOfLength(g, p[1], d, |p| - 2) && Reachable(g, Forward, p[1], d)
  {
    PathTail(g, Forward, p);
    assert PathFromTo(g, Forward, p[1..], p[1], d);
  }

  /**
   * The recurrence of the visitor: the distance from `v` to another term is one
   * more than the least distance from a parent of `v`, or infinite when no
   * parent reaches it.
   */
  lemma ShortestViaNeighbors(g: DirectedGraph<TermId>, v: TermId, d: TermId, m: int)
    requires ValidGraph(g) && v in g.vertices && v != d
    requires m == DistanceInfinity ==> forall w :: w in Neighbors(g, Forward, v) ==> !Reachable(g, Forward, w, d)
    requires m != DistanceInfinity ==> m >= 1 && exists w :: w in Neighbors(g, Forward, v) && PathOfLength(g, w, d, m - 1)
    requires forall w, k: nat :: w in Neighbors(g, Forward, v) && PathOfLength(g, w, d, k) ==> m != DistanceInfinity && m <= k + 1
    ensures IsShortestDistance(g, v, d, m)
  {
    NeighborsAreVertices(g, Forward);
    if m == DistanceInfinity {
      if Reachable(g, Forward, v, d) {
        var p :| PathFromTo(g, Forward, p, v, d);
        FirstStep(g, p, v, d);
      }
    } else {
      var w :| w in Neighbors(g, Forward, v) && PathOfLength(g, w, d, m - 1);
      var q :| PathFromTo(g, Forward, q, w, d) && |q| == m;
      PathCons(g, Forward, v, q);
      assert PathFromTo(g, Forward, [v] + q, v, d);
      forall k: nat | k < m
        ensures !PathOfLength(g, v, d, k)
      {
        if PathOfLength(g, v, d, k) {
          var p :| PathFromTo(g, Forward, p, v, d) && |p| == k + 1;
          FirstStep(g, p, v, d);
        }
      }
    }
  }

  /**
   * Nothing outside the finished terms and `v` can be reached from `v`, when the
   * finished terms hold every parent of `v` and of each other.
   */
  lemma UnseenUnreachable(g: DirectedGraph<TermId>, seen: set<TermId>, v: TermId)
    requires forall u, w :: u in seen && w in Neighbors(g, Forward, u) ==> w in seen
    requires forall w :: w in Neighbors(g, Forward, v) ==> w in seen
    ensures forall d :: Reachable(g, Forward, v, d) ==> d in seen + {v}
  {
    forall d | Reachable(g, Forward, v, d)
      ensures d in seen + {v}
    {
      var p :| PathFromTo(g, Forward, p, v, d);
      ClosedContainsPath(g, Forward, seen + {v}, p);
    }
  }

  /** The shortest distance is unique. */
  lemma ShortestDistanceUnique(g: DirectedGraph<TermId>, s: TermId, d: TermId, r1: int, r2: int)
    requires IsShortestDistance(g, s, d, r1) && IsShortestDistance(g, s, d, r2)
    ensures r1 == r2
  {
    if r1 >= 0 {
      var p :| PathFromTo(g, Forward, p, s, d) && |p| == r1 + 1;
    }
    if r2 >= 0 {
      var p :| PathFromTo(g, Forward, p, s, d) && |p| == r2 + 1;
    }
  }

  /** Distances obey the triangle inequality. */
  lemma TriangleInequality(g: DirectedGraph<TermId>, a: TermId, b: TermId, c: TermId, x: int, y: int, z: int)
    requires IsShortestDistance(g, a, b, x) && IsShortestDistance(g, b, c, y) && IsShortestDistance(g, a, c, z)
    requires x != DistanceInfinity && y != DistanceInfinity
    ensures z != DistanceInfinity && z <= x + y
  {
    var p :| PathFromTo(g, Forward, p, a, b) && |p| == x + 1;
    var q :| PathFromTo(g, Forward, q, b, c) && |q| == y + 1;
    PathConcat(g, Forward, p, q);
    assert PathFromTo(g, Forward, p + q[1..], a, c);
    assert PathOfLength(g, a, c, x + y);
  }

  /** On an acyclic graph two different terms are at finite distance in at most one direction. */
  lemma AtMostOneDirection(g: DirectedGraph<TermId>, s: TermId, d: TermId)
    requires !HasCycle(g, Forward) && s != d
    ensures !(Reachable(g, Forward, s, d) && Reachable(g, Forward, d, s))
  {
    if Reachable(g, Forward, s, d) && Reachable(g, Forward, d, s) {
      var p :| PathFromTo(g, Forward, p, s, d);
      var q :| PathFromTo(g, Forward, q, d, s);
      PathConcat(g, Forward, p, q);
    }
  }

  /** `getDistanceSymmetric` does not depend on the order of its arguments. */
  lemma SymmetricDistanceSymmetric(t: ShortestPathTable, s: TermId, d: TermId)
    requires t.Valid()
    ensures t.GetDistanceSymmetric(s, d) == t.GetDistanceSymmetric(d, s)
  {
    if s != d {
      AtMostOneDirection(t.graph, s, d);
    }
  }

  /** Every term is at distance 0 from itself. */
  lemma DistanceToSelf(t: ShortestPathTable, s: TermId)
    requires t.Valid() && s in t.graph.vertices
    ensures t.GetDistance(s, s) == 0
  {
    assert PathFromTo(t.graph, Forward, [s], s, s);
    assert PathOfLength(t.graph, s, s, 0);
    ShortestDistanceUnique(t.graph, s, s, t.GetDistance(s, s), 0);
  }

  /** In the five-term example there is no walk of fewer than two edges from id1 to the root id5. */
  lemma ExampleNoShortcut(ids: seq<TermId>, m: nat)
    requires ExampleIds(ids) && m < 2
    ensures !PathOfLength(Example(ids).graph, ids[0], ids[4], m)
  {
    var g := Example(ids).graph;
    assert ids[0] != ids[4];
    ExampleFirstNeighbors(ids);
    forall p | IsPath(g, Forward, p) && |p| == 2 && p[0] == ids[0]
      ensures p[1] != ids[4]
    {
      assert p[0 + 1] in Neighbors(g, Forward, p[0]);
    }
  }

  /** In the five-term example, id1 is two edges below the root id5. */
  lemma ExampleShortest(ids: seq<TermId>)
    requires ExampleIds(ids)
    ensures IsShortestDistance(Example(ids).graph, ids[0], ids[4], 2)
  {
    var g := Example(ids).graph;
    var es := ExampleEdges(ids);
    assert es[0] in es && es[3] in es;
    var p := [ids[0], ids[1], ids[4]];
    assert PathFromTo(g, Forward, p, ids[0], ids[4]);
    assert PathOfLength(g, ids[0], ids[4], 2);
    forall m: nat | m < 2
      ensures !PathOfLength(g, ids[0], ids[4], m)
    {
      ExampleNoShortcut(ids, m);
    }
  }

  /** The table of the five-term example: id1 is two edges below id5, in either argument order. */
  lemma ExampleDistance(t: ShortestPathTable, ids: seq<TermId>)
    requires ExampleIds(ids) && t.Valid() && t.graph == Example(ids).graph
    ensures t.GetDistance(ids[0], ids[4]) == 2
    ensures t.GetDistanceSymmetric(ids[4], ids[0]) == 2
  {
    ExampleShortest(ids);
    ShortestDistanceUnique(t.graph, ids[0], ids[4], t.GetDistance(ids[0], ids[4]), 2);
    SymmetricDistanceSymmetric(t, ids[4], ids[0]);
  }
}
