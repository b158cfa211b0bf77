/**
 `VectorDatabase` (lib.rs:29-73): the stored (vector, payload) pairs and the
 linear scan that keeps the `max_results` best-scoring payloads.
 */
module Database {
  import opened Vectors
  import opened TopK

  /** `VectorDatabase<DIM, T>`: the data points in insertion order. */
  datatype VectorDatabase<T> = VectorDatabase(dataPoints: seq<(Vector, T)>)

  /** `VectorDatabase::new`: copies each (components, payload) pair, in order,
      wrapping the components as a vector. */
  function New<T>(points: seq<(seq<int>, T)>): (db: VectorDatabase<T>)
    ensures |db.dataPoints| == |points|
    ensures forall k :: 0 <= k < |points| ==> db.dataPoints[k] == (Vector(points[k].0), points[k].1)
    decreases |points|
  {
    if |points| == 0 then VectorDatabase([])
    else
      var rest := New(points[1..]);
      VectorDatabase([(Vector(points[0].0), points[0].1)] + rest.dataPoints)
  }

  /** The raw pairs a database was built from. */
  function Raw<T>(db: VectorDatabase<T>): seq<(seq<int>, T)> {
    seq(|db.dataPoints|, k requires 0 <= k < |db.dataPoints| => (db.dataPoints[k].0.data, db.dataPoints[k].1))
  }

  /** Building a database loses nothing and reorders nothing. */
  lemma RawOfNew<T>(points: seq<(seq<int>, T)>)
    ensures Raw(New(points)) == points
  {
  }

  /** The score of the data point at `p` against the query vector. */
  function Score<T>(db: VectorDatabase<T>, target: Vector, p: nat): int
    requires p < |db.dataPoints|
  {
    Distance(target, db.dataPoints[p].0)
  }

  /** The scores of all data points, in scan order. */
  function Scores<T>(db: VectorDatabase<T>, target: Vector): (scores: seq<int>)
    ensures |scores| == |db.dataPoints|
    ensures forall p :: 0 <= p < |scores| ==> scores[p] == Score(db, target, p)
  {
    seq(|db.dataPoints|, p requires 0 <= p < |db.dataPoints| => Score(db, target, p))
  }

  /** `VectorDatabase::closest_neighbors`. `refs` are the positions of the
      returned payloads (the references the Rust function hands out) and
      `results` the payloads themselves. The result has `min(maxResults, n)`
      entries from distinct data points, in non-increasing score order, and
      no data point left out scores more than any point returned. */
  method ClosestNeighbors<T>(db: VectorDatabase<T>, target: Vector, maxResults: nat)
    returns (refs: seq<nat>, results: seq<T>)
    ensures |refs| == Min(maxResults, |db.dataPoints|)
    ensures |results| == |refs|
    ensures forall k :: 0 <= k < |refs| ==> refs[k] < |db.dataPoints| && results[k] == db.dataPoints[refs[k]].1
    ensures forall j, k :: 0 <= j < k < |refs| ==> refs[j] != refs[k]
    ensures forall j, k :: 0 <= j < k < |refs| ==> Score(db, target, refs[j]) >= Score(db, target, refs[k])
    ensures forall p, k :: 0 <= p < |db.dataPoints| && p !in refs && 0 <= k < |refs|
                           ==> Score(db, target, p) <= Score(db, target, refs[k])
  {
    ghost var scores := Scores(db, target);
    var buf: seq<Entry> := [];
    ScanStart(scores, maxResults);
    for n := 0 to |db.dataPoints|
      invariant ScanInvariant(buf, scores, n, maxResults)
    {
      var distance := Distance(target, db.dataPoints[n].0);
      var i := BinarySearch(buf, distance);
      ScanStep(buf, scores, n, maxResults, i);
      buf := Step(buf, Entry(distance, n), i, maxResults);
    }
    refs := seq(|buf|, k requires 0 <= k < |buf| => buf[k].pos);
    results := seq(|buf|, k requires 0 <= k < |buf| => db.dataPoints[buf[k].pos].1);
    forall p | Retains(buf, p)
      ensures p in refs
    {
      var k :| 0 <= k < |buf| && buf[k].pos == p;
      assert refs[k] == p;
    }
  }
}
