/**
 * The parser for HPO "genes to phenotype" annotation files: a fixed header
 * line, then one annotation per line with four tab-separated fields (Entrez
 * gene id, gene symbol, HPO term name, HPO term id). The parser reads one line
 * ahead: `nextLine` holds the line the next `next()` call will parse.
 */
module HpoGeneAnnotations {
  import opened Wrappers
  import opened Text
  import opened TermIds

  const ExpectedHeader: string := "#Format: entrez-gene-id<tab>entrez-gene-symbol<tab>HPO-Term-Name<tab>HPO-Term-ID"

  /** `HpoGeneAnnotation`: one line of the file. */
  datatype HpoGeneAnnotation = HpoGeneAnnotation(entrezGeneId: int, entrezGeneSymbol: string, termName: string, termId: TermId)

  datatype ParseError =
    /** The first line is not the header; `None` for an empty file. */
    | BadHeader(line: Option<string>)
    /** `next()` past the end of the file (`nextLine` is null). */
    | NoNextLine
    /** Fewer than four fields (`ArrayIndexOutOfBoundsException`). */
    | MissingField(text: string)
    /** `Integer.parseInt` rejected the gene id. */
    | BadNumber(text: string)
    /** `ImmutableTermId.constructWithPrefix` rejected the term id. */
    | BadTermId(text: string)

  /**
   * The annotation one line holds: the line split at tabs, field 0 parsed as
   * the gene id, fields 1 and 2 taken as they are, field 3 parsed as the term id.
   */
  function ParseLine(line: string, parseInt: string -> Option<int>, constructWithPrefix: string -> Option<TermId>): (r: Result<HpoGeneAnnotation, ParseError>)
    ensures var arr := Split(line, '\t');
      r.Success? <==> |arr| >= 4 && parseInt(arr[0]).Some? && constructWithPrefix(arr[3]).Some?
    ensures var arr := Split(line, '\t');
      r.Success? ==> r.value == HpoGeneAnnotation(parseInt(arr[0]).value, arr[1], arr[2], constructWithPrefix(arr[3]).value)
  {
    var arr := Split(line, '\t');
    if |arr| < 1 then Failure(MissingField(line))
    else if parseInt(arr[0]).None? then Failure(BadNumber(arr[0]))
    else if |arr| < 4 then Failure(MissingField(line))
    else if constructWithPrefix(arr[3]).None? then Failure(BadTermId(arr[3]))
    else Success(HpoGeneAnnotation(parseInt(arr[0]).value, arr[1], arr[2], constructWithPrefix(arr[3]).value))
  }

  /**
   * A line written as four tab-separated fields (none holding a tab, the last
   * not empty) parses back to the four fields.
   */
  lemma ParseLineOfFields(fields: seq<string>, parseInt: string -> Option<int>, constructWithPrefix: string -> Option<TermId>)
    requires |fields| == 4 && fields[3] != []
    requires forall i :: 0 <= i < 4 ==> '\t' !in fields[i]
    requires parseInt(fields[0]).Some? && constructWithPrefix(fields[3]).Some?
    ensures ParseLine(Join(fields, '\t'), parseInt, constructWithPrefix)
      == Success(HpoGeneAnnotation(parseInt(fields[0]).value, fields[1], fields[2], constructWithPrefix(fields[3]).value))
  {
    SplitOfJoin(fields, '\t');
  }

  /** The annotations of the data lines `rows`, or the failure of the first line that does not parse. */
  function ParseLines(rows: seq<string>, parseInt: string -> Option<int>, constructWithPrefix: string -> Option<TermId>): (r: Result<seq<HpoGeneAnnotation>, ParseError>)
  {
    if rows == [] then Success([])
    else
      var first :- ParseLine(rows[0], parseInt, constructWithPrefix);
      var rest :- ParseLines(rows[1..], parseInt, constructWithPrefix);
      Success([first] + rest)
  }

  /** One annotation per data line, in order, when every line parses. */
  lemma {:induction false} ParseLinesSpec(rows: seq<string>, parseInt: string -> Option<int>, constructWithPrefix: string -> Option<TermId>)
    ensures ParseLines(rows, parseInt, constructWithPrefix).Success?
      <==> forall k :: 0 <= k < |rows| ==> ParseLine(rows[k], parseInt, constructWithPrefix).Success?
    ensures ParseLines(rows, parseInt, constructWithPrefix).Success? ==>
      var annos := ParseLines(rows, parseInt, constructWithPrefix).value;
      |annos| == |rows| && forall k :: 0 <= k < |rows| ==> Success(annos[k]) == ParseLine(rows[k], parseInt, constructWithPrefix)
  {
    if rows != [] {
      ParseLinesSpec(rows[1..], parseInt, constructWithPrefix);
      assert forall k :: 1 <= k < |rows| ==> rows[k] == rows[1..][k - 1];
    }
  }

  /** The annotations `annos` followed by those of a later parse, or that parse's failure. */
  function Prepend(annos: seq<HpoGeneAnnotation>, r: Result<seq<HpoGeneAnnotation>, ParseError>): Result<seq<HpoGeneAnnotation>, ParseError> {
    match r
    case Success(rest) => Success(annos + rest)
    case Failure(e) => Failure(e)
  }

  /** Parsing the data lines from `k` on: the line at `k`, then the rest. */
  lemma ParseLinesStep(rows: seq<string>, k: nat, annos: seq<HpoGeneAnnotation>, parseInt: string -> Option<int>, constructWithPrefix: string -> Option<TermId>)
    requires k < |rows|
    ensures var line := ParseLine(rows[k], parseInt, constructWithPrefix);
      Prepend(annos, ParseLines(rows[k..], parseInt, constructWithPrefix))
      == if line.Failure? then Failure(line.error)
         else Prepend(annos + [line.value], ParseLines(rows[k + 1..], parseInt, constructWithPrefix))
  {
    assert rows[k..][1..] == rows[k + 1..];
    var rest := ParseLines(rows[k + 1..], parseInt, constructWithPrefix);
    if rest.Success? {
      var line := ParseLine(rows[k], parseInt, constructWithPrefix);
      if line.Success? {
        assert annos + ([line.value] + rest.value) == annos + [line.value] + rest.value;
      }
    }
  }

  /** Parsing nothing after `annos` gives `annos`, and `annos` after nothing is the parse itself. */
  lemma PrependEnds(annos: seq<HpoGeneAnnotation>, r: Result<seq<HpoGeneAnnotation>, ParseError>)
    ensures Prepend(annos, Success([])) == Success(annos)
    ensures Prepend([], r) == r
  {
    assert annos + [] == annos;
    if r.Success? {
      assert [] + r.value == r.value;
    }
  }

  class HpoGeneAnnotationParser {
    /** The lines the underlying line reader has not returned yet. */
    var unread: seq<string>
    /** The line read ahead; `None` is Java's `null`, the end of the file. */
    var nextLine: Option<string>

    /** Once the line reader has reported the end of the file, it stays there. */
    ghost predicate Valid()
      reads this
    {
      nextLine.None? ==> unread == []
    }

    /** The data lines `next()` has still to parse. */
    function Remaining(): seq<string>
      reads this
    {
      if nextLine.Some? then [nextLine.value] + unread else []
    }

    /** `nextLine = reader.readLine()`. */
    method Advance()
      modifies this
      ensures old(unread) == [] ==> nextLine == None && unread == []
      ensures old(unread) != [] ==> nextLine == Some(old(unread)[0]) && unread == old(unread)[1..]
    {
      if unread == [] {
        nextLine := None;
      } else {
        nextLine := Some(unread[0]);
        unread := unread[1..];
      }
    }

    /** Opens the file and reads its first line. */
    constructor (lines: seq<string>)
      ensures Valid()
      ensures lines == [] ==> nextLine == None
      ensures lines != [] ==> nextLine == Some(lines[0]) && unread == lines[1..]
    {
      if lines == [] {
        unread := [];
        nextLine := None;
      } else {
        unread := lines[1..];
        nextLine := Some(lines[0]);
      }
    }

    /**
     * `checkHeader`: the line read must be exactly the expected header; the
     * parser then reads the first data line.
     */
    method CheckHeader() returns (out: Outcome<ParseError>)
      requires Valid()
      modifies this
      ensures Valid()
      ensures out.Pass? <==> old(nextLine) == Some(ExpectedHeader)
      ensures out.Fail? ==> out.error == BadHeader(old(nextLine)) && unchanged(this)
      ensures out.Pass? ==> Remaining() == old(unread)
    {
      if nextLine != Some(ExpectedHeader) {
        return Fail(BadHeader(nextLine));
      }
      Advance();
      return Pass;
    }

    /**
     * The constructor followed by the header check: fails unless the file
     * starts with the expected header, and then `nextLine` is the file's
     * second line.
     */
    static method Open(lines: seq<string>) returns (r: Result<HpoGeneAnnotationParser, ParseError>)
      ensures r.Success? <==> lines != [] && lines[0] == ExpectedHeader
      ensures lines == [] ==> r == Failure(BadHeader(None))
      ensures lines != [] && lines[0] != ExpectedHeader ==> r == Failure(BadHeader(Some(lines[0])))
      ensures r.Success? ==> fresh(r.value) && r.value.Valid() && r.value.Remaining() == lines[1..]
      ensures r.Success? ==> r.value.nextLine == (if |lines| >= 2 then Some(lines[1]) else None)
    {
      var parser := new HpoGeneAnnotationParser(lines);
      var out := parser.CheckHeader();
      if out.Fail? {
        return Failure(out.error);
      }
      return Success(parser);
    }

    /** `hasNext`: whether a data line is left to parse. */
    function HasNext(): (b: bool)
      reads this
      ensures b <==> Remaining() != []
    {
      nextLine.Some?
    }

    /**
     * `next`: parses the line read ahead and, when it parses, reads the
     * following line, so that the parser moves on by exactly one line. A line
     * that does not parse leaves the parser where it was.
     */
    method Next(parseInt: string -> Option<int>, constructWithPrefix: string -> Option<TermId>)
      returns (r: Result<HpoGeneAnnotation, ParseError>)
      requires Valid()
      modifies this
      ensures Valid()
      ensures old(Remaining()) == [] ==> r == Failure(NoNextLine)
      ensures old(Remaining()) != [] ==> r == ParseLine(old(Remaining())[0], parseInt, constructWithPrefix)
      ensures r.Success? ==> Remaining() == old(Remaining())[1..]
      ensures r.Failure? ==> unchanged(this)
    {
      if nextLine.None? {
        return Failure(NoNextLine);
      }
      r := ParseLine(nextLine.value, parseInt, constructWithPrefix);
      if r.Success? {
        Advance();
      }
    }
  }

  /**
   * The usage loop `while (parser.hasNext()) parser.next()` over a whole file:
   * fails on a bad header or the first line that does not parse, and otherwise
   * yields one annotation per line after the header.
   */
  method ParseFile(lines: seq<string>, parseInt: string -> Option<int>, constructWithPrefix: string -> Option<TermId>)
    returns (r: Result<seq<HpoGeneAnnotation>, ParseError>)
    ensures lines == [] || lines[0] != ExpectedHeader ==> r.Failure? && r.error.BadHeader?
    ensures lines != [] && lines[0] == ExpectedHeader ==> r == ParseLines(lines[1..], parseInt, constructWithPrefix)
  {
    var open := HpoGeneAnnotationParser.Open(lines);
    if open.Failure? {
      return Failure(open.error);
    }
    var parser := open.value;
    ghost var rows := lines[1..];
    ghost var k := 0;
    var annos: seq<HpoGeneAnnotation> := [];
    assert rows[k..] == rows;
    PrependEnds(annos, ParseLines(rows, parseInt, constructWithPrefix));
    while parser.HasNext()
      invariant parser.Valid() && k <= |rows| && parser.Remaining() == rows[k..]
      invariant ParseLines(rows, parseInt, constructWithPrefix) == Prepend(annos, ParseLines(rows[k..], parseInt, constructWithPrefix))
      decreases |parser.Remaining()|
    {
      ParseLinesStep(rows, k, annos, parseInt, constructWithPrefix);
      var anno := parser.Next(parseInt, constructWithPrefix);
      if anno.Failure? {
        return Failure(anno.error);
      }
      annos := annos + [anno.value];
      k := k + 1;
    }
    PrependEnds(annos, Success([]));
    return Success(annos);
  }
}
