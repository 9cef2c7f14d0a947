/**
 * The part of the H2 score-distribution writer that builds the rows it
 * inserts: for each object of a score distribution, a `scores` array and a
 * `pValues` array. A non-zero resolution `r` resamples the object's observed
 * scores at `r + 1` evenly spaced positions, interpolating linearly between the
 * two neighbouring observations; resolution 0 is meant to copy the
 * cumulative-frequency table, but its loop never advances the target index.
 * The rows are modelled as the loop is written, with the intended row beside
 * them (`CorrectedObjectRow`). Doubles are exact reals here. The database itself is not
 * modelled: the table is the list of rows handed to the INSERT statement.
 */
module H2ScoreDistributionWriting {
  import opened Wrappers
  import opened ScoreDistributions

  /** The exceptions building a row can raise. */
  datatype WriteError =
    | NegativeArraySize(size: int)  // `new double[resolution + 1]` with `resolution < -1`
    | IndexOutOfBounds(index: int)  // `observedScores.get(0)` on an empty list

  /** One row of the score-distribution table. */
  datatype Row = Row(numTerms: int, entrezId: int, sampleSize: int, scores: seq<real>, pValues: seq<real>)

  // ---------------------------------------------------------------------------
  // Resampling (resolution != 0)
  // ---------------------------------------------------------------------------

  function Max(a: int, b: int): int {
    if a >= b then a else b
  }

  function Min(a: int, b: int): int {
    if a <= b then a else b
  }

  /** `(int) Math.floor(x)`. */
  function Floor(x: real): int {
    x.Floor
  }

  /** `(int) Math.ceil(x)`. */
  function Ceil(x: real): int {
    -((-x).Floor)
  }

  /** `pos`: where point `i` of `r + 1` falls among the `n` observations. */
  function Position(n: nat, r: int, i: int): real
    requires r != 0
  {
    ((n as real - 1.0) / r as real) * i as real
  }

  /** `left`: the observation at or before the position, clamped at 0. */
  function Left(n: nat, r: int, i: int): int
    requires r != 0
  {
    Max(0, Floor(Position(n, r, i)))
  }

  /** `right`: the observation at or after the position, clamped at `n - 1`. */
  function Right(n: nat, r: int, i: int): int
    requires r != 0
  {
    Min(n - 1, Ceil(Position(n, r, i)))
  }

  /** A point lies in `[0, n - 1]`. */
  lemma PositionBounds(n: nat, r: int, i: int)
    requires n >= 1 && r > 0 && 0 <= i <= r
    ensures 0.0 <= Position(n, r, i) <= n as real - 1.0
  {
    var q := (n as real - 1.0) / r as real;
    assert q >= 0.0;
    assert q * i as real <= q * r as real by {
      assert q * r as real - q * i as real == q * (r - i) as real;
    }
    assert q * r as real == n as real - 1.0;
  }

  /**
   * The two indices the interpolation reads are valid and at most one apart,
   * and they enclose the position.
   */
  lemma IndexBounds(n: nat, r: int, i: int)
    requires n >= 1 && r > 0 && 0 <= i <= r
    ensures 0 <= Left(n, r, i) <= Right(n, r, i) <= n - 1
    ensures Right(n, r, i) - Left(n, r, i) <= 1
    ensures Left(n, r, i) as real <= Position(n, r, i) <= Right(n, r, i) as real
    ensures Left(n, r, i) == Right(n, r, i) <==> Position(n, r, i) == Left(n, r, i) as real
  {
    PositionBounds(n, r, i);
  }

  /** `score`: the observation at `left`, moved towards the one at `right` by the position's fraction. */
  function Interpolate(obs: seq<real>, r: int, i: int): real
    requires |obs| >= 1 && r > 0 && 0 <= i <= r
  {
    IndexBounds(|obs|, r, i);
    var pos := Position(|obs|, r, i);
    var left := Left(|obs|, r, i);
    var right := Right(|obs|, r, i);
    var dx := right as real - pos;
    obs[left] + (1.0 - dx) * (obs[right] - obs[left])
  }

  /** Where the position falls on an observation, the score is that observation. */
  lemma InterpolateAtIndex(obs: seq<real>, r: int, i: int)
    requires |obs| >= 1 && r > 0 && 0 <= i <= r
    requires Left(|obs|, r, i) == Right(|obs|, r, i)
    ensures Interpolate(obs, r, i) == obs[Left(|obs|, r, i)]
  {
    IndexBounds(|obs|, r, i);
  }

  /** The first point is the first observation and the last point the last one. */
  lemma Endpoints(obs: seq<real>, r: int)
    requires |obs| >= 1 && r > 0
    ensures Interpolate(obs, r, 0) == obs[0]
    ensures Interpolate(obs, r, r) == obs[|obs| - 1]
  {
    var n := |obs|;
    assert Position(n, r, 0) == 0.0;
    assert Position(n, r, r) == n as real - 1.0;
    IndexBounds(n, r, 0);
    IndexBounds(n, r, r);
  }

  /** The observations never decrease. */
  predicate Ascending(obs: seq<real>) {
    forall a, b :: 0 <= a <= b < |obs| ==> obs[a] <= obs[b]
  }

  /** A fraction of a non-negative step is between nothing and the whole step. */
  lemma FractionOfStep(t: real, d: real)
    requires 0.0 <= t <= 1.0 && d >= 0.0
    ensures 0.0 <= t * d <= d
  {
    assert d - t * d == (1.0 - t) * d;
  }

  /** Over ascending observations, a score lies between the two observations it reads. */
  lemma InterpolateBetween(obs: seq<real>, r: int, i: int)
    requires |obs| >= 1 && r > 0 && 0 <= i <= r && Ascending(obs)
    ensures obs[Left(|obs|, r, i)] <= Interpolate(obs, r, i) <= obs[Right(|obs|, r, i)]
  {
    IndexBounds(|obs|, r, i);
    var pos := Position(|obs|, r, i);
    var left := Left(|obs|, r, i);
    var right := Right(|obs|, r, i);
    FractionOfStep(1.0 - (right as real - pos), obs[right] - obs[left]);
  }

  /** A larger fraction of a non-negative step is a longer stretch. */
  lemma FractionMonotone(t: real, u: real, d: real)
    requires t <= u && d >= 0.0
    ensures t * d <= u * d
  {
    assert u * d - t * d == (u - t) * d;
  }

  /** Later points lie further along. */
  lemma PositionMonotone(n: nat, r: int, i: int, j: int)
    requires n >= 1 && r > 0 && 0 <= i <= j <= r
    ensures Position(n, r, i) <= Position(n, r, j)
  {
    var q := (n as real - 1.0) / r as real;
    assert q * j as real - q * i as real == q * (j - i) as real;
  }

  /** The interpolated score in terms of the two observations it reads and the position. */
  lemma InterpolateForm(obs: seq<real>, r: int, i: int)
    requires |obs| >= 1 && r > 0 && 0 <= i <= r
    requires 0 <= Left(|obs|, r, i) && Right(|obs|, r, i) < |obs|
    ensures Interpolate(obs, r, i) == obs[Left(|obs|, r, i)]
      + (1.0 - (Right(|obs|, r, i) as real - Position(|obs|, r, i))) * (obs[Right(|obs|, r, i)] - obs[Left(|obs|, r, i)])
  {
  }

  /**
   * Two points between the same two neighbouring observations: the later point
   * moves further towards the right observation.
   */
  lemma SameSegmentMonotone(obs: seq<real>, r: int, i: int, j: int)
    requires |obs| >= 1 && r > 0 && 0 <= i <= j <= r && Ascending(obs)
    requires Left(|obs|, r, i) == Left(|obs|, r, j) && Right(|obs|, r, i) == Right(|obs|, r, j)
    requires 0 <= Left(|obs|, r, i) <= Right(|obs|, r, i) < |obs|
    requires Position(|obs|, r, i) <= Position(|obs|, r, j)
    ensures Interpolate(obs, r, i) <= Interpolate(obs, r, j)
  {
    var left, right := Left(|obs|, r, i), Right(|obs|, r, i);
    var pi, pj := Position(|obs|, r, i), Position(|obs|, r, j);
    InterpolateForm(obs, r, i);
    InterpolateForm(obs, r, j);
    LerpMonotone(obs[left], obs[right], right as real, pi, pj);
  }

  /** Between two ascending values, a later position gives a value no smaller. */
  lemma LerpMonotone(a: real, b: real, right: real, pi: real, pj: real)
    requires a <= b && pi <= pj
    ensures a + (1.0 - (right - pi)) * (b - a) <= a + (1.0 - (right - pj)) * (b - a)
  {
    FractionMonotone(1.0 - (right - pi), 1.0 - (right - pj), b - a);
  }

  /** Over ascending observations, the resampled scores ascend too. */
  lemma InterpolateMonotone(obs: seq<real>, r: int, i: int, j: int)
    requires |obs| >= 1 && r > 0 && 0 <= i <= j <= r && Ascending(obs)
    ensures Interpolate(obs, r, i) <= Interpolate(obs, r, j)
  {
    var n := |obs|;
    IndexBounds(n, r, i);
    IndexBounds(n, r, j);
    PositionMonotone(n, r, i, j);
    InterpolateBetween(obs, r, i);
    InterpolateBetween(obs, r, j);
    var li, ri, lj, rj := Left(n, r, i), Right(n, r, i), Left(n, r, j), Right(n, r, j);
    if li < lj {
      assert obs[ri] <= obs[lj];
    } else if ri == li {
      assert Interpolate(obs, r, i) == obs[li];
    } else {
      assert rj == ri;
      SameSegmentMonotone(obs, r, i, j);
    }
  }

  /** The `r + 1` resampled scores (none for `r == -1`). */
  function Resampled(obs: seq<real>, r: int): (s: seq<real>)
    requires r >= -1 && r != 0 && (r > 0 ==> |obs| >= 1)
    ensures |s| == r + 1
  {
    seq(r + 1, i requires 0 <= i < r + 1 => Interpolate(obs, r, i))
  }

  /** The p-value of each score, in order. */
  function PValues(scores: seq<real>, estimatePValue: real -> real): (p: seq<real>)
    ensures |p| == |scores|
    ensures forall i :: 0 <= i < |scores| ==> p[i] == estimatePValue(scores[i])
  {
    seq(|scores|, i requires 0 <= i < |scores| => estimatePValue(scores[i]))
  }

  /** Resampling ascending observations gives ascending scores from the first observation to the last. */
  lemma ResampledSpan(obs: seq<real>, r: int)
    requires r > 0 && |obs| >= 1 && Ascending(obs)
    ensures Resampled(obs, r)[0] == obs[0] && Resampled(obs, r)[r] == obs[|obs| - 1]
    ensures Ascending(Resampled(obs, r))
  {
    Endpoints(obs, r);
    forall a, b | 0 <= a <= b < r + 1
      ensures Resampled(obs, r)[a] <= Resampled(obs, r)[b]
    {
      InterpolateMonotone(obs, r, a, b);
    }
  }

  /**
   * The resampling loop: fills `scores[i]` with the interpolated score of
   * point `i` and `pValues[i]` with its p-value, for `i` in `0..r`.
   */
  method ResampleInto(obs: seq<real>, resolution: int, estimatePValue: real -> real)
    returns (scores: array<real>, pValues: array<real>)
    requires resolution >= -1 && resolution != 0 && (resolution > 0 ==> |obs| >= 1)
    ensures scores[..] == Resampled(obs, resolution)
    ensures pValues[..] == PValues(scores[..], estimatePValue)
  {
    scores := new real[resolution + 1](_ => 0.0);
    pValues := new real[resolution + 1](_ => 0.0);
    var i := 0;
    while i <= resolution
      invariant 0 <= i <= resolution + 1
      invariant forall k :: 0 <= k < i ==> scores[k] == Interpolate(obs, resolution, k)
      invariant forall k :: 0 <= k < i ==> pValues[k] == estimatePValue(scores[k])
    {
      var score := Interpolate(obs, resolution, i);
      scores[i] := score;
      pValues[i] := estimatePValue(score);
      i := i + 1;
    }
  }

  // ---------------------------------------------------------------------------
  // Copying the cumulative frequencies (resolution == 0)
  // ---------------------------------------------------------------------------

  /** The scores of a cumulative-frequency table, in order. */
  function Keys(m: Entries): (s: seq<real>)
    ensures |s| == |m| && forall k :: 0 <= k < |m| ==> s[k] == m[k].0
  {
    seq(|m|, k requires 0 <= k < |m| => m[k].0)
  }

  /** The frequencies of a cumulative-frequency table, in order. */
  function Values(m: Entries): (s: seq<real>)
    ensures |s| == |m| && forall k :: 0 <= k < |m| ==> s[k] == m[k].1
  {
    seq(|m|, k requires 0 <= k < |m| => m[k].1)
  }

  /** The scores of an ascending table strictly ascend. */
  lemma {:induction false} KeysStrictlyAscend(m: Entries, a: int, b: int)
    requires KeysAscending(m) && 0 <= a < b < |m|
    ensures Keys(m)[a] < Keys(m)[b]
  {
    if a == 0 {
      if b > 1 {
        KeysStrictlyAscend(m[1..], 0, b - 1);
      }
    } else {
      KeysStrictlyAscend(m[1..], a - 1, b - 1);
    }
  }

  /**
   * The copying loop as written: `i` is never incremented, so every entry is
   * written to index 0 and the other cells keep their initial 0.0.
   */
  function CopiedAsWritten(m: Entries, key: bool): (s: seq<real>)
    ensures |s| == |m|
  {
    if m == [] then []
    else
      var last := m[|m| - 1];
      [if key then last.0 else last.1] + seq(|m| - 1, _ => 0.0)
  }

  method CopyFrequenciesAsWritten(m: Entries) returns (scores: array<real>, pValues: array<real>)
    ensures scores[..] == CopiedAsWritten(m, true)
    ensures pValues[..] == CopiedAsWritten(m, false)
  {
    scores := new real[|m|](_ => 0.0);
    pValues := new real[|m|](_ => 0.0);
    var i := 0;
    var j := 0;
    while j < |m|
      invariant 0 <= j <= |m| && i == 0
      invariant forall k :: 1 <= k < |m| ==> scores[k] == 0.0 && pValues[k] == 0.0
      invariant j == 0 ==> |m| == 0 || (scores[0] == 0.0 && pValues[0] == 0.0)
      invariant j > 0 ==> scores[0] == m[j - 1].0 && pValues[0] == m[j - 1].1
    {
      scores[i] := m[j].0;
      pValues[i] := m[j].1;
      j := j + 1;
    }
  }

  /**
   * As written, a table with two or more scores loses its scores: index 0
   * holds the last score, which differs from the first.
   */
  lemma AsWrittenLosesScores(m: Entries)
    requires KeysAscending(m) && |m| >= 2
    ensures CopiedAsWritten(m, true) != Keys(m)
    ensures CopiedAsWritten(m, true)[0] == m[|m| - 1].0
  {
    KeysStrictlyAscend(m, 0, |m| - 1);
  }

  /** The copying loop with `i` advancing alongside the entries. */
  method CopyFrequencies(m: Entries) returns (scores: array<real>, pValues: array<real>)
    ensures scores[..] == Keys(m)
    ensures pValues[..] == Values(m)
  {
    scores := new real[|m|](_ => 0.0);
    pValues := new real[|m|](_ => 0.0);
    var i := 0;
    while i < |m|
      invariant 0 <= i <= |m|
      invariant forall k :: 0 <= k < i ==> scores[k] == m[k].0 && pValues[k] == m[k].1
    {
      scores[i] := m[i].0;
      pValues[i] := m[i].1;
      i := i + 1;
    }
  }

  // ---------------------------------------------------------------------------
  // One row per object
  // ---------------------------------------------------------------------------

  /** Building a row succeeds: the array size is not negative and resampling has an observation to read. */
  predicate Writable(resolution: int, observed: seq<real>) {
    resolution >= -1 && (resolution > 0 ==> observed != [])
  }

  /**
   * The row for `dist` once the two arrays of the resolution-0 branch are
   * known (`copied`), or the exception building it raises.
   */
  function RowWith(numTerms: int, dist: ObjectScoreDistribution, observed: seq<real>,
                   estimatePValue: real -> real, resolution: int,
                   copied: (seq<real>, seq<real>)): (r: Result<Row, WriteError>)
    ensures r.Success? <==> Writable(resolution, observed)
    ensures r.Success? && resolution == 0 ==> r.value.scores == copied.0 && r.value.pValues == copied.1
  {
    if resolution < -1 then Failure(NegativeArraySize(resolution + 1))
    else if resolution > 0 && observed == [] then Failure(IndexOutOfBounds(0))
    else if resolution != 0 then
      var scores := Resampled(observed, resolution);
      Success(Row(numTerms, dist.objectId, dist.sampleSize, scores, PValues(scores, estimatePValue)))
    else
      Success(Row(numTerms, dist.objectId, dist.sampleSize, copied.0, copied.1))
  }

  /**
   * The row `writeObjectScoreDistribution` inserts for `dist`, or the
   * exception it raises. A resampled row has `r + 1` scores and p-values; a
   * resolution-0 row has one cell per table entry, filled by the copying loop
   * as written.
   */
  function ObjectRow(numTerms: int, dist: ObjectScoreDistribution, observed: seq<real>,
                     estimatePValue: real -> real, resolution: int): (r: Result<Row, WriteError>)
    ensures r.Success? <==> Writable(resolution, observed)
    ensures resolution < -1 ==> r == Failure(NegativeArraySize(resolution + 1))
    ensures resolution > 0 && observed == [] ==> r == Failure(IndexOutOfBounds(0))
    ensures r.Success? ==> (r.value.numTerms == numTerms && r.value.entrezId == dist.objectId
      && r.value.sampleSize == dist.sampleSize
      && |r.value.scores| == |r.value.pValues|
      == (if resolution != 0 then resolution + 1 else |dist.cumulativeFrequencies|))
  {
    var m := dist.cumulativeFrequencies;
    RowWith(numTerms, dist, observed, estimatePValue, resolution, (CopiedAsWritten(m, true), CopiedAsWritten(m, false)))
  }

  /** The row with the copying loop corrected: resolution 0 copies the table entry by entry. */
  function CorrectedObjectRow(numTerms: int, dist: ObjectScoreDistribution, observed: seq<real>,
                              estimatePValue: real -> real, resolution: int): (r: Result<Row, WriteError>)
    ensures r.Success? <==> Writable(resolution, observed)
    ensures resolution < -1 ==> r == Failure(NegativeArraySize(resolution + 1))
    ensures resolution > 0 && observed == [] ==> r == Failure(IndexOutOfBounds(0))
    ensures r.Success? ==> (r.value.numTerms == numTerms && r.value.entrezId == dist.objectId
      && r.value.sampleSize == dist.sampleSize
      && |r.value.scores| == |r.value.pValues|
      == (if resolution != 0 then resolution + 1 else |dist.cumulativeFrequencies|))
  {
    var m := dist.cumulativeFrequencies;
    RowWith(numTerms, dist, observed, estimatePValue, resolution, (Keys(m), Values(m)))
  }

  /**
   * What a written row holds: resampled, every score has its estimated
   * p-value, and ascending observations give ascending scores from the first
   * to the last observation; at resolution 0, cell 0 holds the table's last
   * entry and every other cell 0.0, so a table of two or more entries loses
   * its scores.
   */
  lemma RowContents(numTerms: int, dist: ObjectScoreDistribution, observed: seq<real>,
                    estimatePValue: real -> real, resolution: int)
    requires Writable(resolution, observed)
    ensures var row := ObjectRow(numTerms, dist, observed, estimatePValue, resolution).value;
      var m := dist.cumulativeFrequencies;
      && (resolution != 0 ==> forall i :: 0 <= i < |row.scores| ==> row.pValues[i] == estimatePValue(row.scores[i]))
      && (resolution > 0 && Ascending(observed) ==> row.scores[0] == observed[0] && row.scores[resolution] == observed[|observed| - 1] && Ascending(row.scores))
      && (resolution == 0 && m != [] ==> row.scores[0] == m[|m| - 1].0 && row.pValues[0] == m[|m| - 1].1)
      && (resolution == 0 ==> forall i :: 1 <= i < |m| ==> row.scores[i] == 0.0 && row.pValues[i] == 0.0)
      && (resolution == 0 && KeysAscending(m) && |m| >= 2 ==> row.scores != Keys(m))
  {
    var m := dist.cumulativeFrequencies;
    if resolution > 0 && Ascending(observed) {
      ResampledSpan(observed, resolution);
    }
    if resolution == 0 && KeysAscending(m) && |m| >= 2 {
      AsWrittenLosesScores(m);
    }
  }

  /**
   * What the corrected row holds: away from resolution 0 it is the row as
   * written; at resolution 0 its p-values are the table's frequencies and an
   * ascending table gives strictly ascending scores.
   */
  lemma CorrectedRowContents(numTerms: int, dist: ObjectScoreDistribution, observed: seq<real>,
                             estimatePValue: real -> real, resolution: int)
    requires Writable(resolution, observed)
    ensures resolution != 0 ==>
      (CorrectedObjectRow(numTerms, dist, observed, estimatePValue, resolution)
      == ObjectRow(numTerms, dist, observed, estimatePValue, resolution))
    ensures var row := CorrectedObjectRow(numTerms, dist, observed, estimatePValue, resolution).value;
      var m := dist.cumulativeFrequencies;
      && (resolution == 0 ==> forall i :: 0 <= i < |m| ==> row.scores[i] == m[i].0 && row.pValues[i] == m[i].1)
      && (resolution == 0 && KeysAscending(m) ==> forall a, b :: 0 <= a < b < |row.scores| ==> row.scores[a] < row.scores[b])
  {
    var row := CorrectedObjectRow(numTerms, dist, observed, estimatePValue, resolution).value;
    if resolution == 0 && KeysAscending(dist.cumulativeFrequencies) {
      forall a, b | 0 <= a < b < |row.scores|
        ensures row.scores[a] < row.scores[b]
      {
        KeysStrictlyAscend(dist.cumulativeFrequencies, a, b);
      }
    }
  }

  /** `H2ScoreDistributionWriter`: the rows inserted so far stand for the table. */
  class H2ScoreDistributionWriter {
    var rows: seq<Row>

    /** A writer on a freshly created, empty table. */
    constructor()
      ensures rows == []
    {
      rows := [];
    }

    /** `writeObjectScoreDistribution`: builds the two arrays and inserts the row. */
    method WriteObjectScoreDistribution(numTerms: int, dist: ObjectScoreDistribution, observed: seq<real>,
                                        estimatePValue: real -> real, resolution: int)
      returns (o: Outcome<WriteError>)
      modifies this
      ensures o.Pass? <==> Writable(resolution, observed)
      ensures o.Pass? ==> rows == old(rows) + [ObjectRow(numTerms, dist, observed, estimatePValue, resolution).value]
      ensures o.Fail? ==> rows == old(rows) && o.error == ObjectRow(numTerms, dist, observed, estimatePValue, resolution).error
    {
      var scores: array<real>, pValues: array<real>;
      if resolution != 0 {
        if resolution < -1 {
          return Fail(NegativeArraySize(resolution + 1));
        }
        if resolution > 0 && observed == [] {
          return Fail(IndexOutOfBounds(0));
        }
        scores, pValues := ResampleInto(observed, resolution, estimatePValue);
      } else {
        scores, pValues := CopyFrequenciesAsWritten(dist.cumulativeFrequencies);
      }
      rows := rows + [Row(numTerms, dist.objectId, dist.sampleSize, scores[..], pValues[..])];
      o := Pass;
    }

    /**
     * `write`: one row per object id of the distribution, in the order the ids
     * are visited (`order`), stopping at the first object whose row cannot be
     * built. It succeeds exactly when every object's row can be built, and
     * then every object id is written once.
     */
    method Write(numTerms: int, sd: ScoreDistribution, resolution: int,
                 observedScores: ObjectScoreDistribution -> seq<real>,
                 estimatePValue: ObjectScoreDistribution -> real -> real)
      returns (o: Outcome<WriteError>, ghost order: seq<int>)
      modifies this
      ensures forall k :: 0 <= k < |order| ==> order[k] in sd.objectScoreDistributions
      ensures forall a, b :: 0 <= a < b < |order| ==> order[a] != order[b]
      ensures |rows| == |old(rows)| + |order| && rows[..|old(rows)|] == old(rows)
      ensures forall k :: 0 <= k < |order| ==>
        var dist := sd.objectScoreDistributions[order[k]];
        ObjectRow(numTerms, dist, observedScores(dist), estimatePValue(dist), resolution) == Success(rows[|old(rows)| + k])
      ensures o.Pass? <==> forall id :: id in sd.objectScoreDistributions ==>
        Writable(resolution, observedScores(sd.objectScoreDistributions[id]))
      ensures o.Pass? ==> forall id :: id in sd.objectScoreDistributions ==> id in order
    {
      order := [];
      var todo := sd.objectScoreDistributions.Keys;
      while todo != {}
        invariant todo <= sd.objectScoreDistributions.Keys
        invariant forall id :: id in sd.objectScoreDistributions ==> (id in order <==> id !in todo)
        invariant forall k :: 0 <= k < |order| ==> order[k] in sd.objectScoreDistributions
        invariant forall a, b :: 0 <= a < b < |order| ==> order[a] != order[b]
        invariant |rows| == |old(rows)| + |order| && rows[..|old(rows)|] == old(rows)
        invariant forall k :: 0 <= k < |order| ==>
          var dist := sd.objectScoreDistributions[order[k]];
          ObjectRow(numTerms, dist, observedScores(dist), estimatePValue(dist), resolution) == Success(rows[|old(rows)| + k])
        decreases todo
      {
        HasMember(todo);
        var objectId :| objectId in todo;
        var dist := GetObjectScoreDistribution(sd, objectId).value;
        o := WriteObjectScoreDistribution(numTerms, dist, observedScores(dist), estimatePValue(dist), resolution);
        if o.Fail? {
          return;
        }
        order := order + [objectId];
        todo := todo - {objectId};
      }
      o := Pass;
    }
  }
}
