/**
 * Term overlap similarity: both term lists are widened to the union of their
 * ancestors without the root; the score is the number of shared terms, divided
 * by the size of the smaller union when normalizing. Scores are `double`s in the
 * library; here they are exact reals, with `NaN` for the `0.0 / 0` case.
 */
module TermOverlap {
  import opened Graphs
  import opened TermIds
  import opened Ontologies

  /** A similarity score: a number, or the `NaN` that `0.0 / 0` yields. */
  datatype Score = Value(v: real) | NaN

  datatype TermOverlapSimilarity = TermOverlapSimilarity(ontology: Ontology, normalized: bool)

  /** The one-argument constructor: normalizing by the smaller set size is the default. */
  function WithOntology(o: Ontology): (r: TermOverlapSimilarity)
    ensures r.ontology == o && r.normalized
  {
    TermOverlapSimilarity(o, true)
  }

  function GetName(s: TermOverlapSimilarity): string {
    "Term overlap similarity"
  }

  function GetParameters(s: TermOverlapSimilarity): string {
    "{normalized: " + (if s.normalized then "true" else "false") + "}"
  }

  function IsSymmetric(s: TermOverlapSimilarity): bool {
    true
  }

  /** The parameter string tells the two settings apart. */
  lemma ParametersShowFlag(s: TermOverlapSimilarity)
    ensures GetParameters(s) == "{normalized: true}" <==> s.normalized
    ensures GetParameters(s) == "{normalized: false}" <==> !s.normalized
  {
    if s.normalized {
      assert |GetParameters(s)| != |"{normalized: false}"|;
    } else {
      assert |GetParameters(s)| != |"{normalized: true}"|;
    }
  }

  /** The queries of a default-constructed similarity. */
  lemma DefaultQueries(o: Ontology)
    ensures GetName(WithOntology(o)) == "Term overlap similarity"
    ensures IsSymmetric(WithOntology(o))
    ensures GetParameters(WithOntology(o)) == "{normalized: true}"
  {
    ParametersShowFlag(WithOntology(o));
  }

  /** The ancestors of some term of `ts`, without the root. */
  ghost function NonRootAncestors(o: Ontology, ts: seq<TermId>): set<TermId> {
    set x | x in Elements(o.graph.vertices) && ReachableFromAny(o.graph, ts, x) && x != o.root
  }

  function Min(a: int, b: int): int {
    if a <= b then a else b
  }

  lemma IntersectionSmaller<T>(a: set<T>, b: set<T>)
    ensures |a * b| <= |a| && |a * b| <= |b|
  {
    assert a == (a * b) + (a - b);
    assert b == (a * b) + (b - a);
  }

  /** Reachable terms are vertices: the ancestor union is the reference set above. */
  lemma AncestorUnion(o: Ontology, ts: seq<TermId>)
    requires ValidOntology(o) && forall t :: t in ts ==> t in o.graph.vertices
    ensures GetAllAncestorTermIds(o, ts, false) == NonRootAncestors(o, ts)
  {
    forall x | x in GetAllAncestorTermIds(o, ts, false)
      ensures x in Elements(o.graph.vertices)
    {
      var u :| u in ts && Reachable(o.graph, Forward, u, x);
      var p :| PathFromTo(o.graph, Forward, p, u, x);
      assert p[|p| - 1] in o.graph.vertices;
    }
  }

  /** The division of the normalized score, with its bounds. */
  lemma RatioBounds(overlap: nat, smaller: nat)
    requires overlap <= smaller && smaller > 0
    ensures 0.0 <= overlap as real / smaller as real <= 1.0
  {
  }

  /**
   * The score of two non-root ancestor sets: the number of shared terms, as is
   * or divided by the size of the smaller set; `NaN` when that size is zero.
   */
  function ScoreOfSets(a: set<TermId>, b: set<TermId>, normalized: bool): (r: Score)
    ensures !normalized ==> r == Value(|a * b| as real) && |a * b| <= Min(|a|, |b|)
    ensures normalized ==> (r == NaN <==> Min(|a|, |b|) == 0)
    ensures normalized && r.Value? ==> r.v == |a * b| as real / Min(|a|, |b|) as real && 0.0 <= r.v <= 1.0
  {
    IntersectionSmaller(a, b);
    var overlap := |a * b|;
    if !normalized then
      Value(overlap as real)
    else
      var smaller := Min(|a|, |b|);
      if smaller == 0 then NaN
      else
        RatioBounds(overlap, smaller);
        Value(overlap as real / smaller as real)
  }

  /**
   * `computeScore`: the number of non-root ancestors the two lists share, as is
   * or divided by the smaller of the two non-root ancestor counts. Normalized,
   * the score is `NaN` exactly when one side has no non-root ancestor, and else
   * lies in `[0, 1]`.
   */
  function ComputeScore(s: TermOverlapSimilarity, query: seq<TermId>, target: seq<TermId>): (r: Score)
    requires ValidOntology(s.ontology)
    requires forall t :: t in query ==> t in s.ontology.graph.vertices
    requires forall t :: t in target ==> t in s.ontology.graph.vertices
    ensures var a := NonRootAncestors(s.ontology, query);
      var b := NonRootAncestors(s.ontology, target);
      && (!s.normalized ==> r == Value(|a * b| as real) && |a * b| <= Min(|a|, |b|))
      && (s.normalized ==> (r == NaN <==> Min(|a|, |b|) == 0))
      && (s.normalized && r.Value? ==> r.v == |a * b| as real / Min(|a|, |b|) as real && 0.0 <= r.v <= 1.0)
  {
    AncestorUnion(s.ontology, query);
    AncestorUnion(s.ontology, target);
    ScoreOfSets(GetAllAncestorTermIds(s.ontology, query, false), GetAllAncestorTermIds(s.ontology, target, false), s.normalized)
  }

  /** The score does not depend on which list is the query. */
  lemma ScoreSymmetric(s: TermOverlapSimilarity, query: seq<TermId>, target: seq<TermId>)
    requires ValidOntology(s.ontology)
    requires forall t :: t in query ==> t in s.ontology.graph.vertices
    requires forall t :: t in target ==> t in s.ontology.graph.vertices
    ensures IsSymmetric(s)
    ensures ComputeScore(s, query, target) == ComputeScore(s, target, query)
  {
    var a := NonRootAncestors(s.ontology, query);
    var b := NonRootAncestors(s.ontology, target);
    assert a * b == b * a;
  }

  lemma DivSelf(n: real)
    requires n > 0.0
    ensures n / n == 1.0
  {
  }

  /**
   * A list compared with itself: the count is the size of its non-root ancestor
   * union, and the normalized score is 1 unless that union is empty.
   */
  lemma SelfSimilarity(s: TermOverlapSimilarity, ts: seq<TermId>)
    requires ValidOntology(s.ontology)
    requires forall t :: t in ts ==> t in s.ontology.graph.vertices
    ensures !s.normalized ==> ComputeScore(s, ts, ts) == Value(|NonRootAncestors(s.ontology, ts)| as real)
    ensures s.normalized && NonRootAncestors(s.ontology, ts) != {} ==> ComputeScore(s, ts, ts) == Value(1.0)
  {
    var a := NonRootAncestors(s.ontology, ts);
    assert a * a == a;
    var r := ComputeScore(s, ts, ts);
    if s.normalized && a != {} {
      var n := |a| as real;
      assert r.v == n / n;
      DivSelf(n);
    }
  }
}
