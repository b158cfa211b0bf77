/**
 The bounded, sorted result buffer that `VectorDatabase::closest_neighbors`
 (lib.rs:45-72) fills while it scans the data points.

 Each entry pairs a point's score with its position in the database; the
 position stands for the `&T` reference the buffer holds. The buffer is
 searched with the comparator `|(d, _)| distance.total_cmp(d)`, which compares
 the candidate against the entry rather than the entry against the candidate.
 `binary_search_by` takes an answer of `Less` to mean "the entry belongs
 before the candidate", so this comparator keeps the buffer in NON-INCREASING
 score order and the scan retains the LARGEST scores.
 */
module TopK {

  /** `std::cmp::Ordering`. */
  datatype Ordering = Less | Equal | Greater

  /** `total_cmp` on scores. */
  function TotalCmp(a: int, b: int): Ordering {
    if a < b then Less else if a == b then Equal else Greater
  }

  function Min(a: int, b: int): int {
    if a <= b then a else b
  }

  /** A buffer entry: the score of the data point at position `pos`. */
  datatype Entry = Entry(score: int, pos: nat)

  /** The comparator passed to `binary_search_by` for a candidate scoring `score`. */
  function Probe(score: int, e: Entry): (r: Ordering)
    ensures r == Less <==> e.score > score
    ensures r == Greater <==> e.score < score
  {
    TotalCmp(score, e.score)
  }

  /** The order the comparator induces: scores never increase along the buffer. */
  predicate SortedByScore(buf: seq<Entry>) {
    forall j, k :: 0 <= j < k < |buf| ==> buf[j].score >= buf[k].score
  }

  /** No data point is held twice. */
  predicate DistinctPositions(buf: seq<Entry>) {
    forall j, k :: 0 <= j < k < |buf| ==> buf[j].pos != buf[k].pos
  }

  /** The data point at `p` is held by the buffer. */
  predicate Retains(buf: seq<Entry>, p: nat) {
    exists k :: 0 <= k < |buf| && buf[k].pos == p
  }

  /** The indices `binary_search_by(|e| Probe(score, e))` may return on `buf`,
      with `Ok(i)` and `Err(i)` merged as the scan merges them: either the
      index of ANY entry the comparator finds `Equal`, or, when there is none,
      the boundary with every entry before it `Less` and every entry from it
      on `Greater`. */
  predicate IsSearchResult(buf: seq<Entry>, score: int, i: int) {
    && 0 <= i <= |buf|
    && ( (i < |buf| && Probe(score, buf[i]) == Equal)
      || ( && (forall j :: 0 <= j < i ==> Probe(score, buf[j]) == Less)
           && (forall j :: i <= j < |buf| ==> Probe(score, buf[j]) == Greater)))
  }

  /** A binary search over the buffer that returns one of the answers Rust's
      `binary_search_by` may give. */
  method BinarySearch(buf: seq<Entry>, score: int) returns (i: nat)
    requires SortedByScore(buf)
    ensures IsSearchResult(buf, score, i)
  {
    var lo, hi := 0, |buf|;
    while lo < hi
      invariant 0 <= lo <= hi <= |buf|
      invariant forall j :: 0 <= j < lo ==> Probe(score, buf[j]) == Less
      invariant forall j :: hi <= j < |buf| ==> Probe(score, buf[j]) == Greater
    {
      var mid := lo + (hi - lo) / 2;
      match Probe(score, buf[mid])
      case Less =>
        lo := mid + 1;
      case Greater =>
        hi := mid;
      case Equal =>
        return mid;
    }
    return lo;
  }

  /** Inserting at a search result keeps the order: everything before it
      scores at least `score`, everything from it on at most `score`, and the
      end of the buffer is only an answer when every entry scores more. */
  lemma SearchResultSplits(buf: seq<Entry>, score: int, i: int)
    requires SortedByScore(buf)
    requires IsSearchResult(buf, score, i)
    ensures forall j :: 0 <= j < i ==> buf[j].score >= score
    ensures forall j :: i <= j < |buf| ==> buf[j].score <= score
    ensures i == |buf| <==> forall j :: 0 <= j < |buf| ==> buf[j].score > score
  {
  }

  /** `Vec::insert`: `e` lands at index `i` and the tail moves back one place. */
  function Insert(buf: seq<Entry>, i: nat, e: Entry): (r: seq<Entry>)
    requires i <= |buf|
    ensures |r| == |buf| + 1
    ensures r[i] == e
    ensures forall k :: 0 <= k < i ==> r[k] == buf[k]
    ensures forall k :: i < k < |r| ==> r[k] == buf[k - 1]
  {
    buf[..i] + [e] + buf[i..]
  }

  /** One iteration of the scan on candidate `e`, given the index `i` the
      search returned (lib.rs:56-66): insert while the buffer has room;
      otherwise drop the last entry and insert, unless `i` is the end, in
      which case the candidate is discarded. */
  function Step(buf: seq<Entry>, e: Entry, i: nat, maxResults: nat): (r: seq<Entry>)
    requires i <= |buf|
    ensures |buf| <= maxResults ==> |r| == Min(|buf| + 1, maxResults)
    ensures |r| <= maxResults || |r| == |buf|
  {
    if |buf| < maxResults then Insert(buf, i, e)
    else if i < |buf| then Insert(buf[..|buf| - 1], i, e)
    else buf
  }

  lemma InsertSorted(buf: seq<Entry>, i: nat, e: Entry)
    requires i <= |buf| && SortedByScore(buf)
    requires forall j :: 0 <= j < i ==> buf[j].score >= e.score
    requires forall j :: i <= j < |buf| ==> buf[j].score <= e.score
    ensures SortedByScore(Insert(buf, i, e))
  {
  }

  /** Each step keeps the buffer in the comparator's order. */
  lemma StepSorted(buf: seq<Entry>, e: Entry, i: nat, maxResults: nat)
    requires SortedByScore(buf)
    requires IsSearchResult(buf, e.score, i)
    ensures SortedByScore(Step(buf, e, i, maxResults))
  {
    SearchResultSplits(buf, e.score, i);
    if |buf| < maxResults {
      InsertSorted(buf, i, e);
    } else if i < |buf| {
      InsertSorted(buf[..|buf| - 1], i, e);
    }
  }

  /** After an insert the buffer holds the new point and everything it held before. */
  lemma InsertRetains(buf: seq<Entry>, i: nat, e: Entry, p: nat)
    requires i <= |buf|
    ensures Retains(Insert(buf, i, e), p) <==> p == e.pos || Retains(buf, p)
  {
    var r := Insert(buf, i, e);
    if Retains(buf, p) {
      var k :| 0 <= k < |buf| && buf[k].pos == p;
      if k < i {
        assert r[k].pos == p;
      } else {
        assert r[k + 1].pos == p;
      }
    }
    if p == e.pos {
      assert r[i].pos == p;
    }
    if Retains(r, p) {
      var k :| 0 <= k < |r| && r[k].pos == p;
      if k < i {
        assert buf[k].pos == p;
      } else if i < k {
        assert buf[k - 1].pos == p;
      }
    }
  }

  lemma InsertDistinct(buf: seq<Entry>, i: nat, e: Entry)
    requires i <= |buf| && DistinctPositions(buf) && !Retains(buf, e.pos)
    ensures DistinctPositions(Insert(buf, i, e))
  {
    var r := Insert(buf, i, e);
    forall j, k | 0 <= j < k < |r|
      ensures r[j].pos != r[k].pos
    {
      if j == i {
        assert r[k] == buf[k - 1];
      } else if k == i {
        assert r[j] == buf[j];
      }
    }
  }

  /** Dropping the last entry of a buffer without repeats forgets exactly that entry's point. */
  lemma PopRetains(buf: seq<Entry>, p: nat)
    requires |buf| > 0 && DistinctPositions(buf)
    ensures Retains(buf[..|buf| - 1], p) <==> Retains(buf, p) && p != buf[|buf| - 1].pos
  {
    var t := buf[..|buf| - 1];
    if Retains(buf, p) && p != buf[|buf| - 1].pos {
      var k :| 0 <= k < |buf| && buf[k].pos == p;
      assert t[k].pos == p;
    }
    if Retains(t, p) {
      var k :| 0 <= k < |t| && t[k].pos == p;
      assert buf[k].pos == p;
    }
  }

  /** A step on a FULL buffer (lib.rs:59-66), for a candidate it does not yet
      hold: the length never changes; the candidate is discarded exactly when
      the search returned the end; otherwise exactly the last entry is
      evicted and the candidate takes its place among the retained points. */
  lemma FullStep(buf: seq<Entry>, e: Entry, i: nat, maxResults: nat)
    requires i <= |buf| && |buf| >= maxResults
    requires DistinctPositions(buf) && !Retains(buf, e.pos)
    ensures |Step(buf, e, i, maxResults)| == |buf|
    ensures Retains(Step(buf, e, i, maxResults), e.pos) <==> i < |buf|
    ensures i == |buf| ==> Step(buf, e, i, maxResults) == buf
    ensures i < |buf| ==> forall p :: Retains(Step(buf, e, i, maxResults), p)
                                   <==> p == e.pos || (Retains(buf, p) && p != buf[|buf| - 1].pos)
  {
    if i < |buf| {
      forall p
        ensures Retains(Step(buf, e, i, maxResults), p)
                <==> p == e.pos || (Retains(buf, p) && p != buf[|buf| - 1].pos)
      {
        InsertRetains(buf[..|buf| - 1], i, e, p);
        PopRetains(buf, p);
      }
    }
  }

  /** Every entry is the true score of a point among the first `n`. */
  predicate Faithful(buf: seq<Entry>, scores: seq<int>, n: nat)
    requires n <= |scores|
  {
    forall k :: 0 <= k < |buf| ==> buf[k].pos < n && buf[k].score == scores[buf[k].pos]
  }

  /** Every point among the first `n` that the buffer does not hold scores at
      most every score it does hold. */
  predicate KeepsLargest(buf: seq<Entry>, scores: seq<int>, n: nat)
    requires n <= |scores|
  {
    forall p, k :: 0 <= p < n && !Retains(buf, p) && 0 <= k < |buf| ==> scores[p] <= buf[k].score
  }

  /** What the buffer is after the scan has seen the first `n` of `scores`:
      `min(maxResults, n)` distinct points in the comparator's order, each with
      its true score, every point left out scoring no more than any point
      kept, and nothing left out while there was still room. */
  predicate ScanInvariant(buf: seq<Entry>, scores: seq<int>, n: nat, maxResults: nat) {
    && n <= |scores|
    && |buf| == Min(maxResults, n)
    && SortedByScore(buf)
    && DistinctPositions(buf)
    && Faithful(buf, scores, n)
    && (|buf| < maxResults ==> forall p :: 0 <= p < n ==> Retains(buf, p))
    && KeepsLargest(buf, scores, n)
  }

  /** The scan starts from an empty buffer. */
  lemma ScanStart(scores: seq<int>, maxResults: nat)
    ensures ScanInvariant([], scores, 0, maxResults)
  {
  }

  /** One step of the scan on the next point keeps the invariant, for every
      answer the search may give. */
  lemma ScanStep(buf: seq<Entry>, scores: seq<int>, n: nat, maxResults: nat, i: nat)
    requires ScanInvariant(buf, scores, n, maxResults)
    requires n < |scores|
    requires IsSearchResult(buf, scores[n], i)
    ensures ScanInvariant(Step(buf, Entry(scores[n], n), i, maxResults), scores, n + 1, maxResults)
  {
    var e := Entry(scores[n], n);
    StepSorted(buf, e, i, maxResults);
    SearchResultSplits(buf, e.score, i);
    assert !Retains(buf, n);
    if |buf| < maxResults {
      ScanInsert(buf, scores, n, maxResults, i);
    } else if i < |buf| {
      ScanEvict(buf, scores, n, maxResults, i);
    } else {
      ScanDiscard(buf, scores, n, maxResults, i);
    }
  }

  /** While there is room the candidate is inserted and nothing is left out. */
  lemma ScanInsert(buf: seq<Entry>, scores: seq<int>, n: nat, maxResults: nat, i: nat)
    requires ScanInvariant(buf, scores, n, maxResults)
    requires n < |scores| && i <= |buf| && |buf| < maxResults
    requires SortedByScore(Step(buf, Entry(scores[n], n), i, maxResults))
    requires !Retains(buf, n)
    ensures ScanInvariant(Step(buf, Entry(scores[n], n), i, maxResults), scores, n + 1, maxResults)
  {
    var e := Entry(scores[n], n);
    var r := Step(buf, e, i, maxResults);
    InsertDistinct(buf, i, e);
    forall p | 0 <= p < n + 1
      ensures Retains(r, p)
    {
      InsertRetains(buf, i, e, p);
    }
    assert Faithful(r, scores, n + 1);
  }

  /** A full buffer whose search answer is not the end evicts its last entry,
      which scores no more than the candidate nor than anything kept. */
  lemma ScanEvict(buf: seq<Entry>, scores: seq<int>, n: nat, maxResults: nat, i: nat)
    requires ScanInvariant(buf, scores, n, maxResults)
    requires n < |scores| && i < |buf| && |buf| >= maxResults
    requires SortedByScore(Step(buf, Entry(scores[n], n), i, maxResults))
    requires forall j :: i <= j < |buf| ==> buf[j].score <= scores[n]
    requires !Retains(buf, n)
    ensures ScanInvariant(Step(buf, Entry(scores[n], n), i, maxResults), scores, n + 1, maxResults)
  {
    var e := Entry(scores[n], n);
    var t := buf[..|buf| - 1];
    assert !Retains(t, n) by {
      PopRetains(buf, n);
    }
    InsertDistinct(t, i, e);
    InsertFaithful(t, i, scores, n);
    EvictKeepsLargest(buf, scores, n, maxResults, i);
  }

  lemma InsertFaithful(buf: seq<Entry>, i: nat, scores: seq<int>, n: nat)
    requires n < |scores| && i <= |buf|
    requires Faithful(buf, scores, n)
    ensures Faithful(Insert(buf, i, Entry(scores[n], n)), scores, n + 1)
  {
  }

  lemma EvictKeepsLargest(buf: seq<Entry>, scores: seq<int>, n: nat, maxResults: nat, i: nat)
    requires n < |scores| && i < |buf| && |buf| >= maxResults
    requires SortedByScore(buf) && DistinctPositions(buf) && !Retains(buf, n)
    requires Faithful(buf, scores, n) && KeepsLargest(buf, scores, n)
    requires buf[|buf| - 1].score <= scores[n]
    ensures KeepsLargest(Step(buf, Entry(scores[n], n), i, maxResults), scores, n + 1)
  {
    var e := Entry(scores[n], n);
    var r := Step(buf, e, i, maxResults);
    var last := buf[|buf| - 1];
    FullStep(buf, e, i, maxResults);
    assert forall k :: 0 <= k < |r| ==> last.score <= r[k].score by {
      forall k | 0 <= k < |r|
        ensures last.score <= r[k].score
      {
        if k > i {
          assert r[k] == buf[k - 1];
        } else if k < i {
          assert r[k] == buf[k];
        }
      }
    }
    forall p, k | 0 <= p < n + 1 && !Retains(r, p) && 0 <= k < |r|
      ensures scores[p] <= r[k].score
    {
      if p != last.pos {
        assert !Retains(buf, p);
        assert scores[p] <= last.score;
      } else {
        assert scores[p] == last.score;
      }
    }
  }

  /** A full buffer whose search answer is the end discards the candidate,
      which scores less than everything kept. */
  lemma ScanDiscard(buf: seq<Entry>, scores: seq<int>, n: nat, maxResults: nat, i: nat)
    requires ScanInvariant(buf, scores, n, maxResults)
    requires n < |scores| && i == |buf| && |buf| >= maxResults
    requires forall j :: 0 <= j < |buf| ==> buf[j].score > scores[n]
    ensures ScanInvariant(Step(buf, Entry(scores[n], n), i, maxResults), scores, n + 1, maxResults)
  {
  }
}
