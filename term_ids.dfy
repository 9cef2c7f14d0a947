/**
 * Term identifiers ("HP:0000001" is prefix "HP", local id "0000001") and their
 * natural order: by prefix, then by local id, each compared character by
 * character as `String.compareTo` does.
 */
module TermIds {
  import opened Graphs

  datatype TermId = TermId(prefix: string, id: string)

  /** `String.compareTo(a, b) < 0`: lexicographic, a proper prefix comes first. */
  predicate StrLess(a: string, b: string) {
    if a == [] then b != []
    else if b == [] then false
    else if a[0] == b[0] then StrLess(a[1..], b[1..])
    else a[0] < b[0]
  }

  predicate TermLess(a: TermId, b: TermId) {
    StrLess(a.prefix, b.prefix) || (a.prefix == b.prefix && StrLess(a.id, b.id))
  }

  lemma {:induction false} StrLessIrreflexive(a: string)
    ensures !StrLess(a, a)
  {
    if a != [] {
      StrLessIrreflexive(a[1..]);
    }
  }

  lemma {:induction false} StrLessTransitive(a: string, b: string, c: string)
    requires StrLess(a, b) && StrLess(b, c)
    ensures StrLess(a, c)
  {
    if a != [] && b != [] && c != [] && a[0] == b[0] && b[0] == c[0] {
      StrLessTransitive(a[1..], b[1..], c[1..]);
    }
  }

  lemma {:induction false} StrLessTotal(a: string, b: string)
    requires a != b
    ensures StrLess(a, b) || StrLess(b, a)
  {
    if a != [] && b != [] && a[0] == b[0] {
      assert a == [a[0]] + a[1..] && b == [b[0]] + b[1..];
      StrLessTotal(a[1..], b[1..]);
    }
  }

  /** The term-id order is a strict total order. */
  lemma TermLessIrreflexive(a: TermId)
    ensures !TermLess(a, a)
  {
    StrLessIrreflexive(a.prefix);
    StrLessIrreflexive(a.id);
  }

  lemma TermLessTransitive(a: TermId, b: TermId, c: TermId)
    requires TermLess(a, b) && TermLess(b, c)
    ensures TermLess(a, c)
  {
    if StrLess(a.prefix, b.prefix) && StrLess(b.prefix, c.prefix) {
      StrLessTransitive(a.prefix, b.prefix, c.prefix);
    } else if a.prefix == b.prefix && b.prefix == c.prefix {
      StrLessTransitive(a.id, b.id, c.id);
    }
  }

  lemma TermLessTotal(a: TermId, b: TermId)
    requires a != b
    ensures TermLess(a, b) || TermLess(b, a)
  {
    if a.prefix != b.prefix {
      StrLessTotal(a.prefix, b.prefix);
    } else {
      StrLessTotal(a.id, b.id);
    }
  }

  ghost predicate StrictlySorted(s: seq<TermId>) {
    forall i, j :: 0 <= i < j < |s| ==> TermLess(s[i], s[j])
  }

  /** The least element of a non-empty set, by scanning it. */
  method Least(s: set<TermId>) returns (m: TermId)
    requires s != {}
    ensures m in s && forall x :: x in s && x != m ==> TermLess(m, x)
  {
    m :| m in s;
    var rest := s - {m};
    ghost var done := {m};
    while rest != {}
      invariant m in done && done + rest == s && done !! rest
      invariant forall x :: x in done && x != m ==> TermLess(m, x)
      decreases rest
    {
      var x :| x in rest;
      if TermLess(x, m) {
        forall y | y in done && y != m
          ensures TermLess(x, y)
        {
          TermLessTransitive(x, m, y);
        }
        m := x;
      } else {
        TermLessTotal(x, m);
      }
      rest := rest - {x};
      done := done + {x};
    }
  }

  /**
   * `ImmutableSortedSet.copyOf`: the elements of `s` in ascending order, each once,
   * so that position `i` in the result is a bijection onto `[0, |s|)`.
   */
  method SortedCopy(s: set<TermId>) returns (r: seq<TermId>)
    ensures StrictlySorted(r) && Distinct(r)
    ensures forall x :: x in r <==> x in s
    ensures |r| == |s|
  {
    r := [];
    var remaining := s;
    while remaining != {}
      invariant StrictlySorted(r)
      invariant forall x :: x in s <==> x in r || x in remaining
      invariant forall x :: x in r ==> x !in remaining
      invariant forall i, x :: 0 <= i < |r| && x in remaining ==> TermLess(r[i], x)
      invariant |r| + |remaining| == |s|
      decreases remaining
    {
      var m := Least(remaining);
      r := r + [m];
      remaining := remaining - {m};
    }
    forall i, j | 0 <= i < j < |r|
      ensures r[i] != r[j]
    {
      TermLessIrreflexive(r[i]);
    }
  }
}
