/**
 * `OsrmFtSegMappingBuilder`: the offline, append-only writer of a forward
 * mapping. Each append packs a node's segments onto the key buffer and, the
 * first time a node contributes segments, records where its range starts.
 */
module OsrmFtSegMappingBuilder {
  import opened OsrmMappingTypes
  import opened OsrmFtSegMapping

  /** The key buffer and the offset table written so far. */
  datatype Builder = Builder(buffer: seq<u64>, offsets: seq<SegOffset>)

  /** The mapping a builder's buffers describe once saved and loaded again. */
  function AsMapping(b: Builder): Mapping
  {
    Mapping(b.buffer, b.offsets)
  }

  /** A freshly constructed builder. */
  function NewBuilder(): (b: Builder)
    ensures Valid(AsMapping(b))
    ensures forall n: u32 :: NodeKeys(AsMapping(b), n) == []
  {
    Builder([], [])
  }

  /** The packed keys of a list of segments, in order. */
  function Keys(data: seq<FtSeg>): (keys: seq<u64>)
    ensures |keys| == |data|
    ensures forall i | 0 <= i < |data| :: FromKey(keys[i]) == data[i]
  {
    var keys := seq(|data|, i requires 0 <= i < |data| => Store(data[i]));
    PackedListRoundTrip(data, keys);
    keys
  }

  /** Every key of a packed list decodes back to its segment. */
  lemma PackedListRoundTrip(data: seq<FtSeg>, keys: seq<u64>)
    requires |keys| == |data|
    requires forall i | 0 <= i < |data| :: keys[i] == Store(data[i])
    ensures forall i | 0 <= i < |data| :: FromKey(keys[i]) == data[i]
  {
    forall i | 0 <= i < |data|
      ensures FromKey(keys[i]) == data[i]
    {
      StoreRoundTrip(data[i]);
    }
  }

  /** The node id of the last offset record, if any. */
  function LastNode(b: Builder): (n: nat)
    requires |b.offsets| > 0
  {
    b.offsets[|b.offsets| - 1].nodeId
  }

  /**
   * What an append demands of its caller: the node id is not below any node
   * already recorded, and the key buffer never exceeds 2^32 entries, so every
   * later range start fits the 32-bit offset field.
   */
  predicate CanAppend(b: Builder, nodeId: u32, data: seq<FtSeg>)
  {
    && (|b.offsets| > 0 ==> LastNode(b) <= nodeId)
    && |b.buffer| + |data| <= U32_LIMIT
  }

  /** `Append(nodeId, data)`. */
  function Append(b: Builder, nodeId: u32, data: seq<FtSeg>): (r: Builder)
    requires Valid(AsMapping(b))
    requires CanAppend(b, nodeId, data)
    ensures Valid(AsMapping(r))
    ensures r.buffer == b.buffer + Keys(data)
    ensures forall i | 0 <= i < |r.offsets| :: r.offsets[i].nodeId <= nodeId
  {
    var isNew := |data| > 0 && (|b.offsets| == 0 || LastNode(b) != nodeId);
    var r := Builder(b.buffer + Keys(data),
                     if isNew then b.offsets + [SegOffset(nodeId, |b.buffer|)] else b.offsets);
    AppendKeepsValid(b, nodeId, |data|, r);
    r
  }

  /** The buffers an append produces still describe a well-formed mapping. */
  lemma AppendKeepsValid(b: Builder, nodeId: u32, count: nat, r: Builder)
    requires Valid(AsMapping(b))
    requires |b.offsets| > 0 ==> LastNode(b) <= nodeId
    requires |b.buffer| + count <= U32_LIMIT
    requires |r.buffer| == |b.buffer| + count
    requires r.offsets ==
      if count > 0 && (|b.offsets| == 0 || LastNode(b) != nodeId)
      then b.offsets + [SegOffset(nodeId, |b.buffer|)] else b.offsets
    ensures Valid(AsMapping(r))
    ensures forall i | 0 <= i < |r.offsets| :: r.offsets[i].nodeId <= nodeId
  {
    var L := |b.offsets|;
    assert forall i | 0 <= i < L :: b.offsets[i].nodeId <= LastNode(b);
  }

  /**
   * Appending to node `nodeId` adds the packed segments to the end of that
   * node's range and leaves every other node's range as it was.
   */
  lemma {:induction false} AppendExtendsOnlyItsNode(b: Builder, nodeId: u32, data: seq<FtSeg>, n: u32)
    requires Valid(AsMapping(b))
    requires CanAppend(b, nodeId, data)
    ensures n == nodeId ==>
      NodeKeys(AsMapping(Append(b, nodeId, data)), n) == NodeKeys(AsMapping(b), n) + Keys(data)
    ensures n != nodeId ==>
      NodeKeys(AsMapping(Append(b, nodeId, data)), n) == NodeKeys(AsMapping(b), n)
  {
    if |data| == 0 {
      assert Append(b, nodeId, data) == b;
    } else if |b.offsets| > 0 && LastNode(b) == nodeId {
      AppendToLastNode(b, nodeId, data, n);
    } else {
      AppendToNewNode(b, nodeId, data, n);
    }
  }

  /** Appending to the node of the last record grows only that record's range. */
  lemma {:induction false} AppendToLastNode(b: Builder, nodeId: u32, data: seq<FtSeg>, n: u32)
    requires Valid(AsMapping(b))
    requires CanAppend(b, nodeId, data)
    requires |data| > 0 && |b.offsets| > 0 && LastNode(b) == nodeId
    ensures n == nodeId ==>
      NodeKeys(AsMapping(Append(b, nodeId, data)), n) == NodeKeys(AsMapping(b), n) + Keys(data)
    ensures n != nodeId ==>
      NodeKeys(AsMapping(Append(b, nodeId, data)), n) == NodeKeys(AsMapping(b), n)
  {
    GrowLastRange(AsMapping(b), AsMapping(Append(b, nodeId, data)), Keys(data), n);
  }

  /** Appending to a node without a record adds a record starting at the old end. */
  lemma {:induction false} AppendToNewNode(b: Builder, nodeId: u32, data: seq<FtSeg>, n: u32)
    requires Valid(AsMapping(b))
    requires CanAppend(b, nodeId, data)
    requires |data| > 0 && (|b.offsets| == 0 || LastNode(b) != nodeId)
    ensures n == nodeId ==>
      NodeKeys(AsMapping(Append(b, nodeId, data)), n) == NodeKeys(AsMapping(b), n) + Keys(data)
    ensures n != nodeId ==>
      NodeKeys(AsMapping(Append(b, nodeId, data)), n) == NodeKeys(AsMapping(b), n)
  {
    var rec := SegOffset(nodeId, |b.buffer|);
    assert forall i | 0 <= i < |b.offsets| :: b.offsets[i].nodeId < nodeId;
    AddRange(AsMapping(b), AsMapping(Append(b, nodeId, data)), Keys(data), rec, n);
  }

  /** Growing the segment sequence at its end grows the last record's range only. */
  lemma GrowLastRange(m: Mapping, m': Mapping, ks: seq<u64>, n: u32)
    requires Valid(m) && |m.offsets| > 0
    requires m'.segments == m.segments + ks && m'.offsets == m.offsets
    requires Valid(m')
    ensures n == m.offsets[|m.offsets| - 1].nodeId ==> NodeKeys(m', n) == NodeKeys(m, n) + ks
    ensures n != m.offsets[|m.offsets| - 1].nodeId ==> NodeKeys(m', n) == NodeKeys(m, n)
  {
    var L := |m.offsets|;
    if n == m.offsets[L - 1].nodeId {
      NodeKeysOfRecord(m, L - 1, n);
      NodeKeysOfRecord(m', L - 1, n);
      SliceOfAppend(m.segments, ks, m.offsets[L - 1].offset);
    } else if i :| 0 <= i < L && m.offsets[i].nodeId == n {
      NodeKeysOfRecord(m, i, n);
      NodeKeysOfRecord(m', i, n);
      assert i + 1 < L;
      SliceBeforeAppend(m.segments, ks, m.offsets[i].offset, End(m, i));
    } else {
      NodeKeysOfAbsent(m, n);
      NodeKeysOfAbsent(m', n);
    }
  }

  /**
   * Adding a record for a new, larger node that starts at the old end of the
   * sequence gives that node exactly the added keys and changes no other range.
   */
  lemma AddRange(m: Mapping, m': Mapping, ks: seq<u64>, rec: SegOffset, n: u32)
    requires Valid(m)
    requires rec.offset == |m.segments|
    requires forall i | 0 <= i < |m.offsets| :: m.offsets[i].nodeId < rec.nodeId
    requires m'.segments == m.segments + ks && m'.offsets == m.offsets + [rec]
    requires Valid(m')
    ensures n == rec.nodeId ==> NodeKeys(m', n) == NodeKeys(m, n) + ks
    ensures n != rec.nodeId ==> NodeKeys(m', n) == NodeKeys(m, n)
  {
    var L := |m.offsets|;
    if n == rec.nodeId {
      AddRangeOfNewNode(m, m', ks, rec);
    } else if i :| 0 <= i < L && m.offsets[i].nodeId == n {
      AddRangeKeepsRecord(m, m', ks, rec, i);
    } else {
      NodeKeysOfAbsent(m, n);
      assert forall i | 0 <= i < |m'.offsets| :: m'.offsets[i].nodeId != n;
      NodeKeysOfAbsent(m', n);
    }
  }

  /** The added record's node gets exactly the added keys. */
  lemma AddRangeOfNewNode(m: Mapping, m': Mapping, ks: seq<u64>, rec: SegOffset)
    requires Valid(m)
    requires rec.offset == |m.segments|
    requires forall i | 0 <= i < |m.offsets| :: m.offsets[i].nodeId < rec.nodeId
    requires m'.segments == m.segments + ks && m'.offsets == m.offsets + [rec]
    requires Valid(m')
    ensures NodeKeys(m', rec.nodeId) == NodeKeys(m, rec.nodeId) + ks
  {
    var L := |m.offsets|;
    NodeKeysOfAbsent(m, rec.nodeId);
    assert End(m', L) == |m'.segments|;
    NodeKeysOfRecord(m', L, rec.nodeId);
    SliceOfAppend(m.segments, ks, |m.segments|);
  }

  /** Adding a record after record `i` keeps record `i`'s keys. */
  lemma AddRangeKeepsRecord(m: Mapping, m': Mapping, ks: seq<u64>, rec: SegOffset, i: nat)
    requires Valid(m)
    requires rec.offset == |m.segments|
    requires m'.segments == m.segments + ks && m'.offsets == m.offsets + [rec]
    requires Valid(m')
    requires i < |m.offsets|
    ensures NodeKeys(m', m.offsets[i].nodeId) == NodeKeys(m, m.offsets[i].nodeId)
  {
    var n := m.offsets[i].nodeId;
    NodeKeysOfRecord(m, i, n);
    NodeKeysOfRecord(m', i, n);
    assert End(m', i) == End(m, i);
    SliceBeforeAppend(m.segments, ks, m.offsets[i].offset, End(m, i));
  }

  /** A slice running to the end of `a + c` from inside `a`. */
  lemma SliceOfAppend<T>(a: seq<T>, c: seq<T>, start: nat)
    requires start <= |a|
    ensures (a + c)[start..|a| + |c|] == a[start..|a|] + c
  {
  }

  /** A slice lying inside `a` is unaffected by appending `c`. */
  lemma SliceBeforeAppend<T>(a: seq<T>, c: seq<T>, lo: nat, hi: nat)
    requires lo <= hi <= |a|
    ensures (a + c)[lo..hi] == a[lo..hi]
  {
  }

  /** Example: the first append, of node 0, records exactly the default offset record. */
  lemma FirstAppendOfNodeZero(data: seq<FtSeg>)
    requires 0 < |data| <= U32_LIMIT
    ensures Append(NewBuilder(), 0, data).offsets == [DefaultSegOffset()]
  {
  }

  // ---------------------------------------------------------------------
  // Whole builds

  /** Node ids never decrease along a list of appends. */
  predicate NonDecreasing(appends: seq<(u32, seq<FtSeg>)>)
  {
    forall i, j | 0 <= i < j < |appends| :: appends[i].0 <= appends[j].0
  }

  /** The number of segments over a list of appends. */
  function TotalSize(appends: seq<(u32, seq<FtSeg>)>): nat
  {
    if |appends| == 0 then 0
    else TotalSize(appends[..|appends| - 1]) + |appends[|appends| - 1].1|
  }

  /** A builder fed the given appends, in order. */
  function BuildAll(appends: seq<(u32, seq<FtSeg>)>): (b: Builder)
    requires NonDecreasing(appends)
    requires TotalSize(appends) <= U32_LIMIT
    ensures Valid(AsMapping(b))
    ensures |b.buffer| == TotalSize(appends)
    ensures |appends| == 0 ==> b.offsets == []
    ensures |appends| > 0 ==>
      forall i | 0 <= i < |b.offsets| :: b.offsets[i].nodeId <= appends[|appends| - 1].0
  {
    if |appends| == 0 then NewBuilder()
    else
      var init := appends[..|appends| - 1];
      var last := appends[|appends| - 1];
      var b0 := BuildAll(init);
      assert |init| > 0 ==> init[|init| - 1].0 <= last.0;
      Append(b0, last.0, last.1)
  }

  /** The segments appended for node `n`, in append order. */
  function SegmentsFor(appends: seq<(u32, seq<FtSeg>)>, n: u32): seq<FtSeg>
  {
    if |appends| == 0 then []
    else
      var last := appends[|appends| - 1];
      SegmentsFor(appends[..|appends| - 1], n) + (if last.0 == n then last.1 else [])
  }

  /** Packing distributes over concatenation. */
  lemma KeysAppend(a: seq<FtSeg>, b: seq<FtSeg>)
    ensures Keys(a + b) == Keys(a) + Keys(b)
  {
    assert |Keys(a + b)| == |Keys(a) + Keys(b)|;
    forall i | 0 <= i < |a + b|
      ensures Keys(a + b)[i] == (Keys(a) + Keys(b))[i]
    {
      KeyRoundTrip(Keys(a + b)[i]);
      KeyRoundTrip((Keys(a) + Keys(b))[i]);
    }
  }

  /**
   * After any sequence of appends in non-decreasing node order, every node's
   * range holds exactly the keys of the segments appended for it, in order.
   */
  lemma {:induction false} BuildRoundTrip(appends: seq<(u32, seq<FtSeg>)>, n: u32)
    requires NonDecreasing(appends)
    requires TotalSize(appends) <= U32_LIMIT
    ensures NodeKeys(AsMapping(BuildAll(appends)), n) == Keys(SegmentsFor(appends, n))
  {
    if |appends| == 0 {
      assert Keys([]) == [];
    } else {
      var init := appends[..|appends| - 1];
      var last := appends[|appends| - 1];
      BuildRoundTrip(init, n);
      var b0 := BuildAll(init);
      assert |init| > 0 ==> init[|init| - 1].0 <= last.0;
      AppendExtendsOnlyItsNode(b0, last.0, last.1, n);
      if last.0 == n {
        KeysAppend(SegmentsFor(init, n), last.1);
      } else {
        assert SegmentsFor(appends, n) == SegmentsFor(init, n) + [];
      }
    }
  }

  /** The valid segments of a list, in order. */
  function ValidOf(data: seq<FtSeg>): seq<FtSeg>
  {
    if |data| == 0 then []
    else ValidOf(data[..|data| - 1]) + (if IsValid(data[|data| - 1]) then [data[|data| - 1]] else [])
  }

  /** Visiting packed keys sees the valid segments of the packed list. */
  lemma {:induction false} VisitKeysOf(data: seq<FtSeg>)
    ensures ValidSegments(Keys(data)) == ValidOf(data)
  {
    if |data| > 0 {
      var init := data[..|data| - 1];
      assert Keys(data)[..|data| - 1] == Keys(init);
      VisitKeysOf(init);
    }
  }

  /**
   * The round trip seen through iteration: after the build, `ForEachFtSeg`
   * for node `n` visits exactly the valid segments appended for `n`, in
   * append order.
   */
  lemma {:induction false} VisitRoundTrip(appends: seq<(u32, seq<FtSeg>)>, n: u32)
    requires NonDecreasing(appends)
    requires TotalSize(appends) <= U32_LIMIT
    ensures ValidSegments(NodeKeys(AsMapping(BuildAll(appends)), n)) == ValidOf(SegmentsFor(appends, n))
  {
    BuildRoundTrip(appends, n);
    VisitKeysOf(SegmentsFor(appends, n));
  }
}
