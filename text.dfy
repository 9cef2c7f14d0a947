/**
 * The two `java.lang.String` operations the line readers rely on: `trim`, which
 * drops leading and trailing characters up to and including the space
 * character, and `split` on a single ordinary character, which cuts at every
 * occurrence and then drops trailing empty pieces (or returns the string itself
 * when the separator does not occur).
 */
module Text {

  /** The pieces between the occurrences of `sep`, trailing empty pieces included. */
  function Fields(s: string, sep: char): (r: seq<string>)
    ensures |r| >= 1
  {
    if s == [] then [[]]
    else
      var rest := Fields(s[1..], sep);
      if s[0] == sep then [[]] + rest else [[s[0]] + rest[0]] + rest[1..]
  }

  /** No piece holds the separator. */
  lemma {:induction false} FieldsHaveNoSeparator(s: string, sep: char)
    ensures forall i :: 0 <= i < |Fields(s, sep)| ==> sep !in Fields(s, sep)[i]
  {
    if s != [] {
      var rest := Fields(s[1..], sep);
      FieldsHaveNoSeparator(s[1..], sep);
      if s[0] != sep {
        var r := [[s[0]] + rest[0]] + rest[1..];
        assert forall i :: 1 <= i < |r| ==> r[i] == rest[i];
      }
    }
  }

  /** No piece holds the separator, and joining the pieces gives the string back. */
  lemma {:induction false} FieldsJoin(s: string, sep: char)
    ensures forall i :: 0 <= i < |Fields(s, sep)| ==> sep !in Fields(s, sep)[i]
    ensures Join(Fields(s, sep), sep) == s
  {
    FieldsHaveNoSeparator(s, sep);
    if s != [] {
      var rest := Fields(s[1..], sep);
      FieldsJoin(s[1..], sep);
      assert s == [s[0]] + s[1..];
      if s[0] == sep {
        assert Join([[]] + rest, sep) == [] + [sep] + Join(rest, sep);
      } else if |rest| > 1 {
        var r := [[s[0]] + rest[0]] + rest[1..];
        assert r[1..] == rest[1..];
        assert Join(r, sep) == [s[0]] + rest[0] + [sep] + Join(rest[1..], sep);
        assert Join(rest, sep) == rest[0] + [sep] + Join(rest[1..], sep);
      }
    }
  }

  /** The pieces with `sep` between each two. */
  function Join(parts: seq<string>, sep: char): string {
    if parts == [] then []
    else if |parts| == 1 then parts[0]
    else parts[0] + [sep] + Join(parts[1..], sep)
  }

  /** A piece without the separator, then the separator, splits off as the first piece. */
  lemma {:induction false} FieldsAfterPiece(a: string, sep: char, rest: string)
    requires sep !in a
    ensures Fields(a + [sep] + rest, sep) == [a] + Fields(rest, sep)
  {
    if a != [] {
      assert (a + [sep] + rest)[1..] == a[1..] + [sep] + rest;
      FieldsAfterPiece(a[1..], sep, rest);
      assert [a[0]] + a[1..] == a;
    } else {
      assert (a + [sep] + rest)[1..] == rest;
    }
  }

  /** A string without the separator is a single piece. */
  lemma {:induction false} FieldsOfPiece(a: string, sep: char)
    requires sep !in a
    ensures Fields(a, sep) == [a]
  {
    if a != [] {
      FieldsOfPiece(a[1..], sep);
      assert [a[0]] + a[1..] == a;
    }
  }

  /** Cutting the joined pieces gives the pieces back: `Fields` and `Join` are inverse. */
  lemma {:induction false} FieldsOfJoin(parts: seq<string>, sep: char)
    requires |parts| >= 1 && forall i :: 0 <= i < |parts| ==> sep !in parts[i]
    ensures Fields(Join(parts, sep), sep) == parts
  {
    if |parts| == 1 {
      FieldsOfPiece(parts[0], sep);
    } else {
      FieldsOfJoin(parts[1..], sep);
      FieldsAfterPiece(parts[0], sep, Join(parts[1..], sep));
      assert [parts[0]] + parts[1..] == parts;
    }
  }

  /** The longest prefix of `parts` that does not end in an empty piece. */
  function DropTrailingEmpty(parts: seq<string>): (r: seq<string>)
    ensures r <= parts
    ensures r == [] || r[|r| - 1] != []
    ensures forall i :: |r| <= i < |parts| ==> parts[i] == []
  {
    if parts == [] || parts[|parts| - 1] != [] then parts
    else DropTrailingEmpty(parts[..|parts| - 1])
  }

  /**
   * `s.split(sep)` for a separator that is not a regular-expression
   * metacharacter: the string itself when `sep` does not occur, otherwise the
   * pieces without the trailing empty ones.
   */
  function Split(s: string, sep: char): seq<string> {
    if sep !in s then [s] else DropTrailingEmpty(Fields(s, sep))
  }

  /**
   * What `split` returns: the string alone when the separator does not occur;
   * otherwise the pieces between separators up to the last non-empty one, so
   * that everything dropped is empty. No piece holds the separator.
   */
  lemma SplitSpec(s: string, sep: char)
    ensures sep !in s ==> Split(s, sep) == [s]
    ensures sep in s ==> Split(s, sep) <= Fields(s, sep)
    ensures sep in s ==> Split(s, sep) == [] || Split(s, sep)[|Split(s, sep)| - 1] != []
    ensures sep in s ==> forall i :: |Split(s, sep)| <= i < |Fields(s, sep)| ==> Fields(s, sep)[i] == []
    ensures forall i :: 0 <= i < |Split(s, sep)| ==> sep !in Split(s, sep)[i]
  {
    FieldsJoin(s, sep);
  }

  /** Splitting joined pieces gives them back, when the last one is not empty. */
  lemma SplitOfJoin(parts: seq<string>, sep: char)
    requires |parts| >= 2 && parts[|parts| - 1] != []
    requires forall i :: 0 <= i < |parts| ==> sep !in parts[i]
    ensures Split(Join(parts, sep), sep) == parts
  {
    FieldsOfJoin(parts, sep);
    assert Join(parts, sep) == parts[0] + [sep] + Join(parts[1..], sep);
    assert sep in Join(parts, sep) by {
      assert Join(parts, sep)[|parts[0]|] == sep;
    }
  }

  /** Java's notion of a blank: any character up to and including the space. */
  predicate Blank(c: char) {
    c <= ' '
  }

  /** The number of blanks `s` starts with. */
  function LeadingBlanks(s: string): (n: nat)
    ensures n <= |s|
    ensures forall k :: 0 <= k < n ==> Blank(s[k])
    ensures n == |s| || !Blank(s[n])
  {
    if s != [] && Blank(s[0]) then 1 + LeadingBlanks(s[1..]) else 0
  }

  /** `s` without its trailing blanks. */
  function TrimEnd(s: string): (r: string)
    ensures |r| <= |s| && r == s[..|r|]
    ensures forall k :: |r| <= k < |s| ==> Blank(s[k])
    ensures r == [] || !Blank(r[|r| - 1])
  {
    if s != [] && Blank(s[|s| - 1]) then TrimEnd(s[..|s| - 1]) else s
  }

  /**
   * `s.trim()`: `s` without its leading and trailing blanks; the result is a
   * slice of `s` that neither starts nor ends with a blank.
   */
  function Trim(s: string): (r: string)
    ensures var i := LeadingBlanks(s);
      && i + |r| <= |s| && r == s[i..i + |r|]
      && (forall k :: i + |r| <= k < |s| ==> Blank(s[k]))
    ensures r == [] || (!Blank(r[0]) && !Blank(r[|r| - 1]))
  {
    TrimEnd(s[LeadingBlanks(s)..])
  }

  /** A string that neither starts nor ends with a blank is left as it is. */
  lemma TrimUnchanged(s: string)
    requires s == [] || (!Blank(s[0]) && !Blank(s[|s| - 1]))
    ensures Trim(s) == s
  {
  }

  /** Trimming twice is trimming once. */
  lemma TrimIdempotent(s: string)
    ensures Trim(Trim(s)) == Trim(s)
  {
    TrimUnchanged(Trim(s));
  }
}
