/**
 * Reading score distributions from a tab-separated text file. The file is the
 * sequence of its lines; the reader object holds the lines not yet read and the
 * `nextLine` cursor. After the header, every line holds a term count, an object
 * (Entrez) id, a sample size and a distribution written as
 * `score:frequency,score:frequency,...`.
 */
module TextFileScoreDistributionReading {
  import opened Wrappers
  import opened Text
  import opened ScoreDistributions

  const Header: string := "#numTerms\tentrezId\tsampleSize\tdistribution"

  datatype ReadError =
    | MissingHeader
    | InvalidHeader(line: string)
    /** An array index past the fields of a split line (`ArrayIndexOutOfBoundsException`). */
    | MissingField(text: string)
    /** `Integer.parseInt` or `Double.parseDouble` rejected the text (`NumberFormatException`). */
    | BadNumber(text: string)
    | TermCountNotFound(termCount: int)
    | ObjectNotFound(termCount: int, objectId: int)

  /** `arr[i]`, or the out-of-bounds failure. */
  function FieldAt(arr: seq<string>, i: nat, text: string): (r: Result<string, ReadError>)
    ensures r.Success? <==> i < |arr|
    ensures r.Success? ==> r.value == arr[i]
  {
    if i < |arr| then Success(arr[i]) else Failure(MissingField(text))
  }

  function IntField(arr: seq<string>, i: nat, text: string, parseInt: string -> Option<int>): (r: Result<int, ReadError>)
    ensures r.Success? <==> i < |arr| && parseInt(arr[i]).Some?
    ensures r.Success? ==> r.value == parseInt(arr[i]).value
  {
    var f :- FieldAt(arr, i, text);
    match parseInt(f)
    case None => Failure(BadNumber(f))
    case Some(n) => Success(n)
  }

  function RealField(arr: seq<string>, i: nat, text: string, parseDouble: string -> Option<real>): (r: Result<real, ReadError>)
    ensures r.Success? <==> i < |arr| && parseDouble(arr[i]).Some?
    ensures r.Success? ==> r.value == parseDouble(arr[i]).value
  {
    var f :- FieldAt(arr, i, text);
    match parseDouble(f)
    case None => Failure(BadNumber(f))
    case Some(x) => Success(x)
  }

  /** One `score:frequency` pair, parsed left to right. */
  function ParsePair(pairStr: string, parseDouble: string -> Option<real>): (r: Result<(real, real), ReadError>)
    ensures var pair := Split(pairStr, ':');
      r.Success? <==> |pair| >= 2 && parseDouble(pair[0]).Some? && parseDouble(pair[1]).Some?
    ensures var pair := Split(pairStr, ':');
      r.Success? ==> r.value == (parseDouble(pair[0]).value, parseDouble(pair[1]).value)
  {
    var pair := Split(pairStr, ':');
    var score :- RealField(pair, 0, pairStr, parseDouble);
    var freq :- RealField(pair, 1, pairStr, parseDouble);
    Success((score, freq))
  }

  /** `ParsePair` with the number parser fixed. */
  function PairParser(parseDouble: string -> Option<real>): string -> Result<(real, real), ReadError> {
    pairStr => ParsePair(pairStr, parseDouble)
  }

  /** Parses the items in order; the first malformed one is the failure. */
  function ParseEach<T>(items: seq<string>, parse: string -> Result<T, ReadError>): Result<seq<T>, ReadError> {
    if items == [] then Success([])
    else
      var front :- ParseEach(items[..|items| - 1], parse);
      var x :- parse(items[|items| - 1]);
      Success(front + [x])
  }

  /** The items parse exactly when each one does, giving one value per item, in order. */
  lemma {:induction false} ParseEachSpec<T>(items: seq<string>, parse: string -> Result<T, ReadError>)
    ensures var r := ParseEach(items, parse);
      && (r.Success? <==> forall i :: 0 <= i < |items| ==> parse(items[i]).Success?)
      && (r.Success? ==> (|r.value| == |items|
        && forall i :: 0 <= i < |items| ==> parse(items[i]) == Success(r.value[i])))
  {
    if items != [] {
      var front := items[..|items| - 1];
      ParseEachSpec(front, parse);
      assert forall i :: 0 <= i < |front| ==> items[i] == front[i];
    }
  }

  /** Once a prefix of the items fails to parse, so do all of them, with the same failure. */
  lemma {:induction false} ParseEachFailedPrefix<T>(items: seq<string>, k: nat, parse: string -> Result<T, ReadError>)
    requires k <= |items| && ParseEach(items[..k], parse).Failure?
    ensures ParseEach(items, parse) == ParseEach(items[..k], parse)
    decreases |items|
  {
    if k < |items| {
      var front := items[..|items| - 1];
      assert front[..k] == items[..k];
      ParseEachFailedPrefix(front, k, parse);
    } else {
      assert items[..k] == items;
    }
  }

  /** One more line that parses extends the parsed prefix by its value. */
  lemma ParseEachStep<T>(items: seq<string>, k: nat, parse: string -> Result<T, ReadError>, front: seq<T>, x: T)
    requires k < |items| && ParseEach(items[..k], parse) == Success(front) && parse(items[k]) == Success(x)
    ensures ParseEach(items[..k + 1], parse) == Success(front + [x])
  {
    assert items[..k + 1][..k] == items[..k];
  }

  /** The first line that fails to parse decides the result of the whole list. */
  lemma ParseEachStepFails<T>(items: seq<string>, k: nat, parse: string -> Result<T, ReadError>, front: seq<T>)
    requires k < |items| && ParseEach(items[..k], parse) == Success(front) && parse(items[k]).Failure?
    ensures ParseEach(items, parse) == Failure(parse(items[k]).error)
  {
    assert items[..k + 1][..k] == items[..k];
    ParseEachFailedPrefix(items, k + 1, parse);
  }

  /**
   * One data line of `readAll`: trimmed, split on tabs into term count, object
   * id, sample size and distribution; the distribution split on `,` and each
   * pair on `:`, put into a score-sorted map in order.
   */
  function ParseRow(line: string, parseInt: string -> Option<int>, parseDouble: string -> Option<real>): (r: Result<ObjectScoreDistribution, ReadError>)
    ensures var arr := Split(Trim(line), '\t');
      r.Success? ==> (&& |arr| >= 4
        && parseInt(arr[0]) == Some(r.value.numTerms)
        && parseInt(arr[1]) == Some(r.value.objectId)
        && parseInt(arr[2]) == Some(r.value.sampleSize)
        && KeysAscending(r.value.cumulativeFrequencies))
  {
    var arr := Split(Trim(line), '\t');
    var numTerms :- IntField(arr, 0, line, parseInt);
    var entrezId :- IntField(arr, 1, line, parseInt);
    var sampleSize :- IntField(arr, 2, line, parseInt);
    var dist :- FieldAt(arr, 3, line);
    var pairs :- ParseEach(Split(dist, ','), PairParser(parseDouble));
    Success(ObjectScoreDistribution(entrezId, numTerms, sampleSize, PutAll(pairs)))
  }

  /** `ParseRow` with the number parsers fixed. */
  function RowParser(parseInt: string -> Option<int>, parseDouble: string -> Option<real>): string -> Result<ObjectScoreDistribution, ReadError> {
    line => ParseRow(line, parseInt, parseDouble)
  }

  type Grouped = map<int, map<int, ObjectScoreDistribution>>

  /** `tmp.get(numTerms).put(entrezId, scoreDist)`, creating the inner map on first use. */
  function AddRecord(tmp: Grouped, d: ObjectScoreDistribution): Grouped {
    var inner := if d.numTerms in tmp then tmp[d.numTerms] else map[];
    tmp[d.numTerms := inner[d.objectId := d]]
  }

  /** The records grouped by term count, then by object id, in order. */
  function Group(recs: seq<ObjectScoreDistribution>): Grouped {
    if recs == [] then map[] else AddRecord(Group(recs[..|recs| - 1]), recs[|recs| - 1])
  }

  /** A (term count, object id) pair is present exactly when some record carries it. */
  lemma {:induction false} GroupKeys(recs: seq<ObjectScoreDistribution>, numTerms: int, objectId: int)
    ensures numTerms in Group(recs) <==> exists i :: 0 <= i < |recs| && recs[i].numTerms == numTerms
    ensures (numTerms in Group(recs) && objectId in Group(recs)[numTerms]) <==>
      exists i :: 0 <= i < |recs| && recs[i].numTerms == numTerms && recs[i].objectId == objectId
  {
    if recs != [] {
      var front := recs[..|recs| - 1];
      GroupKeys(front, numTerms, objectId);
      assert forall i :: 0 <= i < |front| ==> front[i] == recs[i];
      var last := recs[|recs| - 1];
      if last.numTerms != numTerms || last.objectId != objectId {
        if exists i :: 0 <= i < |recs| && recs[i].numTerms == numTerms && recs[i].objectId == objectId {
          var i :| 0 <= i < |recs| && recs[i].numTerms == numTerms && recs[i].objectId == objectId;
          assert i < |front|;
        }
      }
      if last.numTerms != numTerms {
        if exists i :: 0 <= i < |recs| && recs[i].numTerms == numTerms {
          var i :| 0 <= i < |recs| && recs[i].numTerms == numTerms;
          assert i < |front|;
        }
      }
    }
  }

  /** A later record for the same term count and object id replaces an earlier one. */
  lemma {:induction false} GroupLastWins(recs: seq<ObjectScoreDistribution>, i: nat)
    requires i < |recs|
    requires forall j :: i < j < |recs| ==>
      recs[j].numTerms != recs[i].numTerms || recs[j].objectId != recs[i].objectId
    ensures recs[i].numTerms in Group(recs) && recs[i].objectId in Group(recs)[recs[i].numTerms]
    ensures Group(recs)[recs[i].numTerms][recs[i].objectId] == recs[i]
  {
    if i < |recs| - 1 {
      var front := recs[..|recs| - 1];
      GroupLastWins(front, i);
    }
  }

  /** The final loop of `readAll`: one `ScoreDistribution` per term count. */
  function Distributions(tmp: Grouped): map<int, ScoreDistribution> {
    map numTerms | numTerms in tmp :: ScoreDistribution(numTerms, tmp[numTerms])
  }

  /** The final loop of `readAll`, over the entries of the grouped records. */
  method ToDistributions(tmp: Grouped) returns (result: map<int, ScoreDistribution>)
    ensures result == Distributions(tmp)
  {
    result := map[];
    var todo := tmp.Keys;
    while todo != {}
      invariant todo <= tmp.Keys
      invariant result == map t | t in tmp.Keys - todo :: ScoreDistribution(t, tmp[t])
      decreases todo
    {
      HasMember(todo);
      var n :| n in todo;
      result := result[n := ScoreDistribution(n, tmp[n])];
      todo := todo - {n};
    }
    assert tmp.Keys - todo == tmp.Keys;
    assert result == Distributions(tmp);
  }

  /** The records of the data lines `rows`, grouped. */
  function GroupedOf(rows: seq<string>, parse: string -> Result<ObjectScoreDistribution, ReadError>): Result<Grouped, ReadError> {
    var recs :- ParseEach(rows, parse);
    Success(Group(recs))
  }

  /** One more line that parses adds its record to the grouping of the lines before it. */
  lemma GroupedStep(rows: seq<string>, k: nat, parse: string -> Result<ObjectScoreDistribution, ReadError>, tmp: Grouped, x: ObjectScoreDistribution)
    requires k < |rows| && GroupedOf(rows[..k], parse) == Success(tmp) && parse(rows[k]) == Success(x)
    ensures GroupedOf(rows[..k + 1], parse) == Success(AddRecord(tmp, x))
  {
    var front := ParseEach(rows[..k], parse).value;
    ParseEachStep(rows, k, parse, front, x);
    assert (front + [x])[..|front|] == front;
  }

  /** The first line that fails to parse decides the grouping of all the lines. */
  lemma GroupedStepFails(rows: seq<string>, k: nat, parse: string -> Result<ObjectScoreDistribution, ReadError>, tmp: Grouped)
    requires k < |rows| && GroupedOf(rows[..k], parse) == Success(tmp) && parse(rows[k]).Failure?
    ensures GroupedOf(rows, parse) == Failure(parse(rows[k]).error)
  {
    ParseEachStepFails(rows, k, parse, ParseEach(rows[..k], parse).value);
  }

  /**
   * Where reading the data lines `rows` leaves the lines still to read
   * (`rest`): none once every line has parsed; otherwise the cursor stays on
   * the first line that does not parse, every line before it having parsed.
   */
  ghost predicate StopsAt(rows: seq<string>, parse: string -> Result<ObjectScoreDistribution, ReadError>, rest: seq<string>) {
    && (GroupedOf(rows, parse).Success? ==> rest == [])
    && (GroupedOf(rows, parse).Failure? ==>
          exists k :: 0 <= k < |rows| && rest == rows[k..] && GroupedOf(rows[..k], parse).Success? && parse(rows[k]).Failure?)
  }

  /** Reading again after a failure meets the same malformed line first and fails the same way. */
  lemma FailureRepeats(rows: seq<string>, parse: string -> Result<ObjectScoreDistribution, ReadError>, rest: seq<string>)
    requires StopsAt(rows, parse, rest) && GroupedOf(rows, parse).Failure?
    ensures rest != [] && parse(rest[0]).Failure?
    ensures GroupedOf(rest, parse) == GroupedOf(rows, parse)
  {
    var k :| 0 <= k < |rows| && rest == rows[k..] && GroupedOf(rows[..k], parse).Success? && parse(rows[k]).Failure?;
    GroupedStepFails(rows, k, parse, GroupedOf(rows[..k], parse).value);
    assert rest[0] == rows[k];
    assert rest[..0] == [];
    GroupedStepFails(rest, 0, parse, map[]);
  }

  /** What `readAll` returns for the data lines `rows`. */
  function ReadAllOf(rows: seq<string>, parseInt: string -> Option<int>, parseDouble: string -> Option<real>): Result<map<int, ScoreDistribution>, ReadError> {
    var tmp :- GroupedOf(rows, RowParser(parseInt, parseDouble));
    Success(Distributions(tmp))
  }

  /** `readForTermCount` on the result of `readAll`. */
  function ForTermCount(all: Result<map<int, ScoreDistribution>, ReadError>, termCount: int): Result<ScoreDistribution, ReadError> {
    var dists :- all;
    if termCount !in dists then Failure(TermCountNotFound(termCount)) else Success(dists[termCount])
  }

  /**
   * Once `readAll` has consumed the cursor, a second read sees no rows: the map
   * is empty and every term count is missing.
   */
  lemma ReadAgainFindsNothing(termCount: int, parseInt: string -> Option<int>, parseDouble: string -> Option<real>)
    ensures ReadAllOf([], parseInt, parseDouble) == Success(map[])
    ensures ForTermCount(ReadAllOf([], parseInt, parseDouble), termCount) == Failure(TermCountNotFound(termCount))
  {
  }

  /**
   * `readForTermCount` over well-formed lines: it fails exactly when no line has
   * that term count; otherwise the group holds a distribution for exactly the
   * object ids of those lines (which one, `GroupLastWins` says).
   */
  lemma TermCountGroup(rows: seq<string>, termCount: int, objectId: int, parseInt: string -> Option<int>, parseDouble: string -> Option<real>)
    requires ParseEach(rows, RowParser(parseInt, parseDouble)).Success?
    ensures var recs := ParseEach(rows, RowParser(parseInt, parseDouble)).value;
      var r := ForTermCount(ReadAllOf(rows, parseInt, parseDouble), termCount);
      && (r.Success? <==> exists i :: 0 <= i < |recs| && recs[i].numTerms == termCount)
      && (r.Success? ==> (r.value.numTerms == termCount
        && (objectId in r.value.objectScoreDistributions <==>
          exists i :: 0 <= i < |recs| && recs[i].numTerms == termCount && recs[i].objectId == objectId)))
  {
    var recs := ParseEach(rows, RowParser(parseInt, parseDouble)).value;
    GroupKeys(recs, termCount, objectId);
  }

  /** `readForTermCountAndObject` as written: the test on the lookup is the wrong way round. */
  function ForObjectAsWritten(sd: Result<ScoreDistribution, ReadError>, termCount: int, objectId: int): Result<Option<ObjectScoreDistribution>, ReadError> {
    var dist :- sd;
    var result := GetObjectScoreDistribution(dist, objectId);
    if result.Some? then Failure(ObjectNotFound(termCount, objectId)) else Success(result)
  }

  /**
   * As written, a distribution that exists is reported as not found, and a
   * missing one comes back as null: the call never returns a distribution.
   */
  lemma AsWrittenNeverFinds(sd: ScoreDistribution, termCount: int, objectId: int)
    ensures objectId in sd.objectScoreDistributions ==>
      ForObjectAsWritten(Success(sd), termCount, objectId) == Failure(ObjectNotFound(termCount, objectId))
    ensures objectId !in sd.objectScoreDistributions ==>
      ForObjectAsWritten(Success(sd), termCount, objectId) == Success(None)
  {
  }

  /** `readForTermCountAndObject` as intended: the distribution if present, else the failure. */
  function ForObject(sd: Result<ScoreDistribution, ReadError>, termCount: int, objectId: int): (r: Result<ObjectScoreDistribution, ReadError>)
    ensures sd.Success? ==> (r.Success? <==> objectId in sd.value.objectScoreDistributions)
    ensures r.Success? ==> sd.Success? && r.value == sd.value.objectScoreDistributions[objectId]
    ensures sd.Success? && r.Failure? ==> r.error == ObjectNotFound(termCount, objectId)
  {
    var dist :- sd;
    match GetObjectScoreDistribution(dist, objectId)
    case None => Failure(ObjectNotFound(termCount, objectId))
    case Some(d) => Success(d)
  }

  class TextFileScoreDistributionReader {
    /** The lines the underlying line reader has not returned yet. */
    var unread: seq<string>
    /** The current line; `None` is Java's `null`, the end of the file. */
    var nextLine: Option<string>

    /** Once the line reader has reported the end of the file, it stays there. */
    ghost predicate Valid()
      reads this
    {
      nextLine.None? ==> unread == []
    }

    /** The data lines still to be read: the current one and the unread ones. */
    function Remaining(): seq<string>
      reads this
    {
      if nextLine.Some? then [nextLine.value] + unread else []
    }

    /** Opens the file: nothing read yet. */
    constructor (lines: seq<string>)
      ensures unread == lines && nextLine == None
    {
      unread := lines;
      nextLine := None;
    }

    /** `nextLine = reader.readLine()`. */
    method Advance()
      modifies this
      ensures old(unread) == [] ==> nextLine == None && unread == []
      ensures old(unread) != [] ==> nextLine == Some(old(unread)[0]) && unread == old(unread)[1..]
    {
      if unread == [] {
        nextLine := None;
      } else {
        nextLine := Some(unread[0]);
        unread := unread[1..];
      }
    }

    /**
     * `readHeader`: the first line must be exactly the header; the cursor then
     * holds the first data line.
     */
    method ReadHeader() returns (out: Outcome<ReadError>)
      modifies this
      ensures old(unread) == [] <==> out == Fail(MissingHeader)
      ensures old(unread) != [] && old(unread)[0] != Header ==> out == Fail(InvalidHeader(old(unread)[0]))
      ensures out.Pass? <==> old(unread) != [] && old(unread)[0] == Header
      ensures out.Pass? ==> Valid() && Remaining() == old(unread)[1..]
    {
      Advance();
      if nextLine.None? {
        return Fail(MissingHeader);
      }
      if nextLine.value != Header {
        return Fail(InvalidHeader(nextLine.value));
      }
      Advance();
      return Pass;
    }

    /** The constructor: opens the file and reads the header, or fails. */
    static method Open(lines: seq<string>) returns (r: Result<TextFileScoreDistributionReader, ReadError>)
      ensures r.Success? <==> lines != [] && lines[0] == Header
      ensures lines == [] ==> r == Failure(MissingHeader)
      ensures r.Success? ==> fresh(r.value) && r.value.Valid() && r.value.Remaining() == lines[1..]
    {
      var reader := new TextFileScoreDistributionReader(lines);
      var out := reader.ReadHeader();
      if out.Fail? {
        return Failure(out.error);
      }
      return Success(reader);
    }

    /**
     * The `while (nextLine != null)` loop of `readAll`: parses each remaining
     * line with `parse` and groups the records, advancing the cursor line by
     * line; on success the cursor is at the end of the file.
     */
    method ReadRows(parse: string -> Result<ObjectScoreDistribution, ReadError>) returns (r: Result<Grouped, ReadError>)
      requires Valid()
      modifies this
      ensures Valid()
      ensures r == GroupedOf(old(Remaining()), parse)
      ensures r.Success? ==> Remaining() == []
      ensures StopsAt(old(Remaining()), parse, Remaining())
      ensures |Remaining()| <= |old(Remaining())|
    {
      ghost var rows := Remaining();
      ghost var k := 0;
      var tmp: Grouped := map[];
      assert rows[..0] == [];
      while nextLine.Some?
        invariant Valid() && k <= |rows| && Remaining() == rows[k..]
        invariant GroupedOf(rows[..k], parse) == Success(tmp)
        decreases |unread| + (if nextLine.Some? then 1 else 0)
      {
        assert rows[k] == nextLine.value;
        var row := parse(nextLine.value);
        if row.Failure? {
          GroupedStepFails(rows, k, parse, tmp);
          assert rows[k..] == Remaining() && GroupedOf(rows[..k], parse).Success? && parse(rows[k]).Failure?;
          return Failure(row.error);
        }
        GroupedStep(rows, k, parse, tmp, row.value);
        tmp := AddRecord(tmp, row.value);
        Advance();
        k := k + 1;
      }
      assert rows[..k] == rows;
      return Success(tmp);
    }

    /**
     * `readAll`: parses every remaining line, grouping by term count and object
     * id. On success the cursor is at the end of the file, so a second call
     * finds no lines.
     */
    method ReadAll(parseInt: string -> Option<int>, parseDouble: string -> Option<real>) returns (r: Result<map<int, ScoreDistribution>, ReadError>)
      requires Valid()
      modifies this
      ensures Valid()
      ensures r == ReadAllOf(old(Remaining()), parseInt, parseDouble)
      ensures r.Success? ==> Remaining() == []
      ensures StopsAt(old(Remaining()), RowParser(parseInt, parseDouble), Remaining())
      ensures |Remaining()| <= |old(Remaining())|
    {
      var tmp := ReadRows(RowParser(parseInt, parseDouble));
      if tmp.Failure? {
        return Failure(tmp.error);
      }
      var result := ToDistributions(tmp.value);
      return Success(result);
    }

    /** `readForTermCount`: `readAll`, then the group for `termCount` or the failure. */
    method ReadForTermCount(termCount: int, parseInt: string -> Option<int>, parseDouble: string -> Option<real>) returns (r: Result<ScoreDistribution, ReadError>)
      requires Valid()
      modifies this
      ensures Valid()
      ensures r == ForTermCount(ReadAllOf(old(Remaining()), parseInt, parseDouble), termCount)
      ensures StopsAt(old(Remaining()), RowParser(parseInt, parseDouble), Remaining())
    {
      var all := ReadAll(parseInt, parseDouble);
      if all.Failure? {
        return Failure(all.error);
      }
      if termCount !in all.value {
        return Failure(TermCountNotFound(termCount));
      }
      return Success(all.value[termCount]);
    }

    /** `readForTermCountAndObject` as written (see `ForObjectAsWritten`). */
    method ReadForTermCountAndObjectAsWritten(termCount: int, objectId: int, parseInt: string -> Option<int>, parseDouble: string -> Option<real>)
      returns (r: Result<Option<ObjectScoreDistribution>, ReadError>)
      requires Valid()
      modifies this
      ensures Valid()
      ensures r == ForObjectAsWritten(ForTermCount(ReadAllOf(old(Remaining()), parseInt, parseDouble), termCount), termCount, objectId)
      ensures StopsAt(old(Remaining()), RowParser(parseInt, parseDouble), Remaining())
    {
      var sd := ReadForTermCount(termCount, parseInt, parseDouble);
      if sd.Failure? {
        return Failure(sd.error);
      }
      var result := GetObjectScoreDistribution(sd.value, objectId);
      if result.Some? {
        return Failure(ObjectNotFound(termCount, objectId));
      }
      return Success(result);
    }

    /** `readForTermCountAndObject` with the test the right way round. */
    method ReadForTermCountAndObject(termCount: int, objectId: int, parseInt: string -> Option<int>, parseDouble: string -> Option<real>)
      returns (r: Result<ObjectScoreDistribution, ReadError>)
      requires Valid()
      modifies this
      ensures Valid()
      ensures r == ForObject(ForTermCount(ReadAllOf(old(Remaining()), parseInt, parseDouble), termCount), termCount, objectId)
      ensures StopsAt(old(Remaining()), RowParser(parseInt, parseDouble), Remaining())
    {
      var sd := ReadForTermCount(termCount, parseInt, parseDouble);
      if sd.Failure? {
        return Failure(sd.error);
      }
      var result := GetObjectScoreDistribution(sd.value, objectId);
      if result.None? {
        return Failure(ObjectNotFound(termCount, objectId));
      }
      return Success(result.value);
    }
  }
}
