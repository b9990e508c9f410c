/**
 * The segment record of the OSRM-to-feature mapping: a feature id plus a
 * half-open range of point indexes along that feature's polyline, packed
 * into one 64-bit key; and the (node id, start offset) record of the
 * mapping's offset table.
 */
module OsrmMappingTypes {

  const U16_LIMIT: nat := 0x1_0000
  const U32_LIMIT: nat := 0x1_0000_0000
  const U64_LIMIT: nat := 0x1_0000_0000_0000_0000

  type u16 = x: nat | x < 0x1_0000
  type u32 = x: nat | x < 0x1_0000_0000
  type u64 = x: nat | x < 0x1_0000_0000_0000_0000

  /** The reserved feature id of a placeholder segment: the largest 32-bit value. */
  const INVALID_FID: u32 := 0xFFFF_FFFF

  /** A segment: feature id, start point index and end point index. */
  datatype FtSeg = FtSeg(fid: u32, pointStart: u16, pointEnd: u16)

  /**
   * The three-argument constructor: point indexes arrive as 32-bit values
   * but are stored in 16-bit fields, so they must fit.
   */
  function Make(fid: u32, ps: u32, pe: u32): (s: FtSeg)
    requires ps < U16_LIMIT && pe < U16_LIMIT
    ensures s.fid == fid && s.pointStart == ps && s.pointEnd == pe
  {
    FtSeg(fid, ps, pe)
  }

  /**
   * The packed key: feature id in the high 32 bits, start point in the next
   * 16, end point in the low 16, so that comparing keys as integers orders
   * segments by feature id, then start, then end.
   */
  function Store(s: FtSeg): (key: u64)
    ensures key / U32_LIMIT == s.fid
  {
    s.fid * U32_LIMIT + s.pointStart * U16_LIMIT + s.pointEnd
  }

  /** The constructor from a stored 64-bit key. */
  function FromKey(key: u64): (s: FtSeg)
    ensures s.fid == key / U32_LIMIT
    ensures Store(s) == key
  {
    FtSeg(key / U32_LIMIT, (key / U16_LIMIT) % U16_LIMIT, key % U16_LIMIT)
  }

  /** A segment is valid unless it carries the reserved feature id. */
  predicate IsValid(s: FtSeg)
    ensures IsValid(s) <==> Store(s) < INVALID_FID * U32_LIMIT
  {
    s.fid != INVALID_FID
  }

  /** Field-wise equality. */
  predicate Equal(a: FtSeg, b: FtSeg)
    ensures Equal(a, b) <==> a == b
  {
    b.fid == a.fid && b.pointEnd == a.pointEnd && b.pointStart == a.pointStart
  }

  /**
   * `a.Swap(b)`: exchanges every field of the two records. The pair holds
   * the new value of `a` first and the new value of `b` second.
   */
  function Swap(a: FtSeg, b: FtSeg): (r: (FtSeg, FtSeg))
    ensures r.0 == b && r.1 == a
  {
    (FtSeg(b.fid, b.pointStart, b.pointEnd), FtSeg(a.fid, a.pointStart, a.pointEnd))
  }

  /**
   * The comparator `FtSegLess`: order by packed key, which compares feature
   * id, then start point, then end point.
   */
  predicate Less(a: FtSeg, b: FtSeg)
    ensures Less(a, b) <==>
      (a.fid < b.fid
       || (a.fid == b.fid && a.pointStart < b.pointStart)
       || (a.fid == b.fid && a.pointStart == b.pointStart && a.pointEnd < b.pointEnd))
  {
    Store(a) < Store(b)
  }

  /** An offset-table record: the first segment index of a node's range. */
  datatype SegOffset = SegOffset(nodeId: u32, offset: u32)

  /** The default-constructed record. */
  function DefaultSegOffset(): (o: SegOffset)
    ensures o.nodeId == 0 && o.offset == 0
  {
    SegOffset(0, 0)
  }

  // ---------------------------------------------------------------------
  // Properties of the codec

  /** Every 32-bit value is at most the reserved id. */
  lemma InvalidFidIsMax(x: u32)
    ensures x <= INVALID_FID
  {
  }

  /** Decoding a stored key gives back the stored segment. */
  lemma StoreRoundTrip(s: FtSeg)
    ensures FromKey(Store(s)) == s
  {
  }

  /** Every 64-bit key is the key of the segment it decodes to. */
  lemma KeyRoundTrip(key: u64)
    ensures Store(FromKey(key)) == key
  {
  }

  /** Two segments share a key exactly when they are equal. */
  lemma StoreInjective(a: FtSeg, b: FtSeg)
    ensures Store(a) == Store(b) <==> Equal(a, b)
  {
  }

  /** The key of a segment is invalid exactly in the top block of 2^32 keys. */
  lemma ValidIffKeyBelowTop(key: u64)
    ensures IsValid(FromKey(key)) <==> key < INVALID_FID * U32_LIMIT
  {
  }

  /** A valid segment always sorts before an invalid one. */
  lemma ValidSortsBeforeInvalid(a: FtSeg, b: FtSeg)
    requires IsValid(a) && !IsValid(b)
    ensures Less(a, b)
  {
  }

  /** `FtSegLess` is irreflexive, transitive and connected. */
  lemma LessIsStrictTotalOrder(a: FtSeg, b: FtSeg, c: FtSeg)
    ensures !Less(a, a)
    ensures Less(a, b) && Less(b, c) ==> Less(a, c)
    ensures !Equal(a, b) ==> Less(a, b) || Less(b, a)
  {
  }

  /**
   * The equivalence `FtSegLess` induces (neither is less) is field-wise
   * equality, so a set ordered by it holds one entry per distinct segment.
   */
  lemma LessEquivalenceIsEqual(a: FtSeg, b: FtSeg)
    ensures !Less(a, b) && !Less(b, a) <==> Equal(a, b)
  {
  }

  /** Swapping twice restores both records. */
  lemma SwapTwice(a: FtSeg, b: FtSeg)
    ensures Swap(Swap(a, b).0, Swap(a, b).1) == (a, b)
  {
  }
}
