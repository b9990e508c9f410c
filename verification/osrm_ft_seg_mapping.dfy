/**
 * The forward index of `OsrmFtSegMapping`: a sequence of packed segment keys
 * (the program's `succinct::elias_fano_compressed_list`, here a plain
 * sequence) partitioned into one contiguous range per routing-graph node,
 * plus the offset table that records where each node's range starts.
 */
module OsrmFtSegMapping {
  import opened OsrmMappingTypes
  import opened Wrappers

  datatype Mapping = Mapping(segments: seq<u64>, offsets: seq<SegOffset>)

  /** Node ids in the offset table are strictly increasing. */
  predicate NodesSorted(offs: seq<SegOffset>)
  {
    forall i, j | 0 <= i < j < |offs| :: offs[i].nodeId < offs[j].nodeId
  }

  /** Start offsets in the offset table are strictly increasing. */
  predicate OffsetsSorted(offs: seq<SegOffset>)
  {
    forall i, j | 0 <= i < j < |offs| :: offs[i].offset < offs[j].offset
  }

  /**
   * A well-formed mapping: one record per node that has segments, node ids
   * and start offsets strictly increasing, every start inside the segment
   * sequence, and the first range starting at index 0, so that the ranges
   * tile the whole sequence.
   */
  predicate Valid(m: Mapping)
  {
    && NodesSorted(m.offsets)
    && OffsetsSorted(m.offsets)
    && (forall i | 0 <= i < |m.offsets| :: m.offsets[i].offset < |m.segments|)
    && (|m.segments| > 0 ==> |m.offsets| > 0 && m.offsets[0].offset == 0)
  }

  /** The end of record `i`'s range: the next record's start, or the end of the sequence. */
  function End(m: Mapping, i: nat): nat
    requires i < |m.offsets|
  {
    if i + 1 < |m.offsets| then m.offsets[i + 1].offset else |m.segments|
  }

  /** Segment index `k` lies in the range of record `i`. */
  predicate Owns(m: Mapping, i: nat, k: nat)
  {
    i < |m.offsets| && m.offsets[i].offset <= k < End(m, i) && k < |m.segments|
  }

  /** Binary search: the first record in `[lo, hi)` whose node id is not below `n`. */
  function LowerBound(offs: seq<SegOffset>, n: nat, lo: nat, hi: nat): (r: nat)
    requires lo <= hi <= |offs|
    requires NodesSorted(offs)
    ensures lo <= r <= hi
    ensures forall j | lo <= j < r :: offs[j].nodeId < n
    ensures forall j | r <= j < hi :: offs[j].nodeId >= n
    decreases hi - lo
  {
    if lo == hi then lo
    else
      var mid := (lo + hi) / 2;
      if offs[mid].nodeId < n then LowerBound(offs, n, mid + 1, hi)
      else LowerBound(offs, n, lo, mid)
  }

  /** Binary search: the first record in `[lo, hi)` whose start offset exceeds `k`. */
  function UpperBound(offs: seq<SegOffset>, k: nat, lo: nat, hi: nat): (r: nat)
    requires lo <= hi <= |offs|
    requires OffsetsSorted(offs)
    ensures lo <= r <= hi
    ensures forall j | lo <= j < r :: offs[j].offset <= k
    ensures forall j | r <= j < hi :: offs[j].offset > k
    decreases hi - lo
  {
    if lo == hi then lo
    else
      var mid := (lo + hi) / 2;
      if offs[mid].offset <= k then UpperBound(offs, k, mid + 1, hi)
      else UpperBound(offs, k, lo, mid)
  }

  /**
   * `GetSegmentsRange`: the half-open range `[s, e)` of segment indexes of
   * `nodeId`. A node with a record gets exactly its record's range; a node
   * without one gets an empty range.
   */
  function GetSegmentsRange(m: Mapping, nodeId: u32): (r: (nat, nat))
    requires Valid(m)
    ensures r.0 <= r.1 <= |m.segments|
    ensures forall i | 0 <= i < |m.offsets| && m.offsets[i].nodeId == nodeId ::
              r == (m.offsets[i].offset, End(m, i))
    ensures (forall i | 0 <= i < |m.offsets| :: m.offsets[i].nodeId != nodeId) ==> r.0 == r.1
  {
    var i := LowerBound(m.offsets, nodeId, 0, |m.offsets|);
    if i < |m.offsets| && m.offsets[i].nodeId == nodeId then
      (m.offsets[i].offset, End(m, i))
    else
      var p := if i < |m.offsets| then m.offsets[i].offset else |m.segments|;
      (p, p)
  }

  /**
   * `GetNodeId`: the node whose range holds segment index `segInd`, or
   * nothing when the index is past the last segment.
   */
  function GetNodeId(m: Mapping, segInd: nat): (r: Option<u32>)
    requires Valid(m)
    ensures r.None? <==> segInd >= |m.segments|
    ensures r.Some? ==> exists i: nat :: Owns(m, i, segInd) && m.offsets[i].nodeId == r.value
    ensures forall i: nat | Owns(m, i, segInd) :: r == Some(m.offsets[i].nodeId)
  {
    if segInd >= |m.segments| then None
    else
      var j := UpperBound(m.offsets, segInd, 0, |m.offsets|);
      assert j > 0;
      var i := j - 1;
      assert Owns(m, i, segInd);
      OwnerIsUnique(m, i, segInd);
      Some(m.offsets[i].nodeId)
  }

  /** A record's range ends no later than any later record's range starts. */
  lemma RangeEndsBeforeLaterStart(m: Mapping, a: nat, b: nat)
    requires Valid(m)
    requires a < |m.offsets| && b < |m.offsets|
    ensures a < b ==> End(m, a) <= m.offsets[b].offset
  {
    if a < b {
      assert a + 1 < |m.offsets|;
      assert a + 1 == b || m.offsets[a + 1].offset < m.offsets[b].offset;
    }
  }

  /** At most one record owns a segment index. */
  lemma OwnerIsUnique(m: Mapping, i: nat, k: nat)
    requires Valid(m)
    requires Owns(m, i, k)
    ensures forall i': nat | Owns(m, i', k) :: i' == i
  {
    forall i': nat | Owns(m, i', k)
      ensures i' == i
    {
      RangeEndsBeforeLaterStart(m, i', i);
      RangeEndsBeforeLaterStart(m, i, i');
    }
  }

  /** `GetSegmentsCount`: the number of stored keys, which bounds every node's range. */
  function GetSegmentsCount(m: Mapping): (c: nat)
    requires Valid(m)
    ensures c == |m.segments|
    ensures forall n: u32 :: GetSegmentsRange(m, n).1 <= c
  {
    |m.segments|
  }

  /** `GetSegmentByIndex`: the segment stored at index `idx`. */
  function GetSegmentByIndex(m: Mapping, idx: nat): (s: FtSeg)
    requires idx < |m.segments|
    ensures Store(s) == m.segments[idx]
  {
    KeyRoundTrip(m.segments[idx]);
    FromKey(m.segments[idx])
  }

  /** The keys in a node's range. */
  function NodeKeys(m: Mapping, nodeId: u32): seq<u64>
    requires Valid(m)
  {
    var r := GetSegmentsRange(m, nodeId);
    m.segments[r.0..r.1]
  }

  /** The keys of a node that has record `i` are that record's range. */
  lemma NodeKeysOfRecord(m: Mapping, i: nat, n: u32)
    requires Valid(m)
    requires i < |m.offsets| && m.offsets[i].nodeId == n
    ensures End(m, i) <= |m.segments|
    ensures NodeKeys(m, n) == m.segments[m.offsets[i].offset..End(m, i)]
  {
  }

  /** A node without a record has no keys. */
  lemma NodeKeysOfAbsent(m: Mapping, n: u32)
    requires Valid(m)
    requires forall i | 0 <= i < |m.offsets| :: m.offsets[i].nodeId != n
    ensures NodeKeys(m, n) == []
  {
  }

  /**
   * The segment indexes that lie in node `n`'s range are exactly those whose
   * node id is `n`.
   */
  lemma RangeIsNodeIdPreimage(m: Mapping, n: u32, k: nat)
    requires Valid(m)
    requires k < |m.segments|
    ensures GetSegmentsRange(m, n).0 <= k < GetSegmentsRange(m, n).1 <==> GetNodeId(m, k) == Some(n)
  {
    var r := GetSegmentsRange(m, n);
    var owner := GetNodeId(m, k);
    if owner == Some(n) {
      var i: nat :| Owns(m, i, k) && m.offsets[i].nodeId == n;
      assert r == (m.offsets[i].offset, End(m, i));
    }
    if r.0 <= k < r.1 {
      assert exists i': nat :: i' < |m.offsets| && m.offsets[i'].nodeId == n;
      var i': nat :| i' < |m.offsets| && m.offsets[i'].nodeId == n;
      assert Owns(m, i', k);
    }
  }

  // ---------------------------------------------------------------------
  // Iteration

  /** The segments a visitor sees for a run of keys: each valid decoded key, in order. */
  function ValidSegments(keys: seq<u64>): seq<FtSeg>
  {
    if |keys| == 0 then []
    else
      var last := FromKey(keys[|keys| - 1]);
      ValidSegments(keys[..|keys| - 1]) + (if IsValid(last) then [last] else [])
  }

  /** Extending a run of keys by one key extends what the visitor sees by at most that segment. */
  lemma ValidSegmentsStep(keys: seq<u64>, lo: nat, i: nat)
    requires lo <= i < |keys|
    ensures ValidSegments(keys[lo..i + 1])
         == ValidSegments(keys[lo..i]) + (if IsValid(FromKey(keys[i])) then [FromKey(keys[i])] else [])
  {
    assert keys[lo..i + 1][..i - lo] == keys[lo..i];
  }

  /** A segment is visited for a run of keys exactly when it is valid and its key occurs. */
  lemma {:induction false} ValidSegmentsMembership(keys: seq<u64>, s: FtSeg)
    ensures s in ValidSegments(keys) <==> IsValid(s) && Store(s) in keys
  {
    if |keys| > 0 {
      var init := keys[..|keys| - 1];
      var last := keys[|keys| - 1];
      assert keys == init + [last];
      ValidSegmentsMembership(init, s);
      StoreRoundTrip(s);
      KeyRoundTrip(last);
    }
  }

  /** The key stored at index `k` decodes to a valid segment. */
  predicate ValidAt(keys: seq<u64>, k: nat)
    requires k < |keys|
  {
    IsValid(FromKey(keys[k]))
  }

  /**
   * The loop of `ForEachFtSeg` over the index range `[lo, hi)`: `calls` is
   * the sequence of visitor arguments and `at` the index each came from.
   */
  method VisitRange(keys: seq<u64>, lo: nat, hi: nat) returns (calls: seq<FtSeg>, at: seq<nat>)
    requires lo <= hi <= |keys|
    ensures |calls| == |at|
    ensures forall j | 0 <= j < |at| :: lo <= at[j] < hi && calls[j] == FromKey(keys[at[j]])
    ensures forall j, j' | 0 <= j < j' < |at| :: at[j] < at[j']
    ensures forall k | lo <= k < hi :: ValidAt(keys, k) <==> k in at
    ensures forall j | 0 <= j < |calls| :: IsValid(calls[j])
    ensures calls == ValidSegments(keys[lo..hi])
  {
    var first := lo;
    calls, at := [], [];
    while first != hi
      invariant lo <= first <= hi
      invariant calls == ValidSegments(keys[lo..first])
      invariant |calls| == |at|
      invariant forall j | 0 <= j < |at| :: lo <= at[j] < first && calls[j] == FromKey(keys[at[j]])
      invariant forall j, j' | 0 <= j < j' < |at| :: at[j] < at[j']
      invariant forall k | lo <= k < first :: ValidAt(keys, k) <==> k in at
      invariant forall j | 0 <= j < |calls| :: IsValid(calls[j])
      decreases hi - first
    {
      var s := FromKey(keys[first]);
      ValidSegmentsStep(keys, lo, first);
      assert ValidAt(keys, first) == IsValid(s);
      if IsValid(s) {
        calls := calls + [s];
        at := at + [first];
      }
      first := first + 1;
    }
  }

  /**
   * `ForEachFtSeg`: walks `nodeId`'s range in increasing index order and
   * hands each valid decoded segment to the visitor, and nothing else.
   * `calls` is the sequence of visitor arguments and `at` the segment index
   * each came from.
   */
  method ForEachFtSeg(m: Mapping, nodeId: u32) returns (calls: seq<FtSeg>, at: seq<nat>)
    requires Valid(m)
    ensures |calls| == |at|
    ensures forall j | 0 <= j < |at| ::
              GetSegmentsRange(m, nodeId).0 <= at[j] < GetSegmentsRange(m, nodeId).1
              && calls[j] == FromKey(m.segments[at[j]])
    ensures forall j, j' | 0 <= j < j' < |at| :: at[j] < at[j']
    ensures forall k | GetSegmentsRange(m, nodeId).0 <= k < GetSegmentsRange(m, nodeId).1 ::
              ValidAt(m.segments, k) <==> k in at
    ensures forall j | 0 <= j < |calls| :: IsValid(calls[j])
    ensures calls == ValidSegments(NodeKeys(m, nodeId))
  {
    var r := GetSegmentsRange(m, nodeId);
    calls, at := VisitRange(m.segments, r.0, r.1);
  }

  /** A run of keys none of which is valid produces no visitor call. */
  lemma {:induction false} NoValidKeyNoVisit(keys: seq<u64>)
    requires forall j | 0 <= j < |keys| :: !IsValid(FromKey(keys[j]))
    ensures ValidSegments(keys) == []
  {
    if |keys| > 0 {
      NoValidKeyNoVisit(keys[..|keys| - 1]);
    }
  }
}
