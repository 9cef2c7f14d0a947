/**
 * The score-distribution values the command-line readers and writers exchange.
 * An object's distribution holds its cumulative frequencies as a score-sorted
 * map (a `TreeMap<Double, Double>`), modelled as a list of (score, frequency)
 * entries in strictly ascending score order; a distribution for one term count
 * maps object ids to object distributions.
 */
module ScoreDistributions {
  import opened Wrappers

  /** Entries of a score-sorted map, in iteration order. */
  type Entries = seq<(real, real)>

  /** Each score is below the next one. */
  predicate KeysAscending(m: Entries) {
    |m| <= 1 || (m[0].0 < m[1].0 && KeysAscending(m[1..]))
  }

  /** `get`: the value stored under `k`, if any (the first match; there is at most one). */
  function Get(m: Entries, k: real): (r: Option<real>)
    ensures r.None? <==> forall i :: 0 <= i < |m| ==> m[i].0 != k
    ensures r.Some? ==> exists i :: 0 <= i < |m| && m[i] == (k, r.value)
  {
    if m == [] then None
    else if m[0].0 == k then Some(m[0].1)
    else
      var r := Get(m[1..], k);
      assert forall i :: 1 <= i < |m| ==> m[i] == m[1..][i - 1];
      r
  }

  /**
   * `put`: stores `v` under `k`, replacing an existing entry for `k` in place
   * and otherwise inserting one at its position in score order.
   */
  function Put(m: Entries, k: real, v: real): (r: Entries)
    requires KeysAscending(m)
    ensures KeysAscending(r)
    ensures Get(r, k) == Some(v)
    ensures forall k' :: k' != k ==> Get(r, k') == Get(m, k')
    ensures |r| == if Get(m, k).Some? then |m| else |m| + 1
    ensures r[0].0 == k || (m != [] && r[0].0 == m[0].0)
  {
    if m == [] then [(k, v)]
    else if k < m[0].0 then
      KeysBelowHead(m, k);
      [(k, v)] + m
    else if k == m[0].0 then
      KeysBelowHead(m[1..], k);
      [(k, v)] + m[1..]
    else
      var rest := Put(m[1..], k, v);
      [m[0]] + rest
  }

  /** In an ascending map, a score below the first one is not stored. */
  lemma {:induction false} KeysBelowHead(m: Entries, k: real)
    requires KeysAscending(m) && (m == [] || k < m[0].0)
    ensures Get(m, k).None?
  {
    if |m| >= 2 {
      KeysBelowHead(m[1..], k);
    }
  }

  /** A map filled by `put`s from the empty map, in the order given. */
  function PutAll(pairs: seq<(real, real)>): (r: Entries)
    ensures KeysAscending(r)
  {
    if pairs == [] then []
    else
      var last := pairs[|pairs| - 1];
      Put(PutAll(pairs[..|pairs| - 1]), last.0, last.1)
  }

  /** The pair put last for a score is the one the map keeps. */
  lemma {:induction false} PutAllLastWins(pairs: seq<(real, real)>, k: real, i: nat)
    requires i < |pairs| && pairs[i].0 == k
    requires forall j :: i < j < |pairs| ==> pairs[j].0 != k
    ensures Get(PutAll(pairs), k) == Some(pairs[i].1)
  {
    var front := pairs[..|pairs| - 1];
    if i < |pairs| - 1 {
      PutAllLastWins(front, k, i);
    }
  }

  /** A score is stored exactly when some pair carried it. */
  lemma {:induction false} PutAllKeys(pairs: seq<(real, real)>, k: real)
    ensures Get(PutAll(pairs), k).Some? <==> exists i :: 0 <= i < |pairs| && pairs[i].0 == k
  {
    if pairs != [] {
      var front := pairs[..|pairs| - 1];
      PutAllKeys(front, k);
      if pairs[|pairs| - 1].0 != k {
        if exists i :: 0 <= i < |pairs| && pairs[i].0 == k {
          var i :| 0 <= i < |pairs| && pairs[i].0 == k;
          assert front[i].0 == k;
        }
        if exists i :: 0 <= i < |front| && front[i].0 == k {
          var i :| 0 <= i < |front| && front[i].0 == k;
          assert pairs[i].0 == k;
        }
      }
    }
  }

  /** A non-empty set of ids has a member (what lets a loop pick the next id). */
  lemma HasMember(s: set<int>)
    requires s != {}
    ensures exists x :: x in s
  {
    if forall x :: x !in s {
      assert false;
    }
  }

  /** `ObjectScoreDistribution`: one object's distribution for one term count. */
  datatype ObjectScoreDistribution = ObjectScoreDistribution(
    objectId: int,
    numTerms: int,
    sampleSize: int,
    cumulativeFrequencies: Entries)

  /** `ScoreDistribution`: the object distributions for one term count, by object id. */
  datatype ScoreDistribution = ScoreDistribution(
    numTerms: int,
    objectScoreDistributions: map<int, ObjectScoreDistribution>)

  /** `getObjectScoreDistribution`: null (here `None`) for an unknown object id. */
  function GetObjectScoreDistribution(sd: ScoreDistribution, objectId: int): (r: Option<ObjectScoreDistribution>)
    ensures r.Some? <==> objectId in sd.objectScoreDistributions
    ensures r.Some? ==> r.value == sd.objectScoreDistributions[objectId]
  {
    if objectId in sd.objectScoreDistributions then Some(sd.objectScoreDistributions[objectId]) else None
  }
}
