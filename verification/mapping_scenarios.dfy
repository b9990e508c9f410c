/** Concrete builds of a forward mapping and what iteration sees afterwards. */
module MappingScenarios {
  import opened OsrmMappingTypes
  import opened OsrmFtSegMapping
  import opened OsrmFtSegMappingBuilder

  /**
   * Node 1 gets the points 0..5 of feature 10 and node 2 the points 5..8;
   * each node's iteration sees exactly its own segment.
   */
  lemma TwoNodesOneFeature()
    ensures var appends := [(1, [Make(10, 0, 5)]), (2, [Make(10, 5, 8)])];
      && ValidSegments(NodeKeys(AsMapping(BuildAll(appends)), 1)) == [FtSeg(10, 0, 5)]
      && ValidSegments(NodeKeys(AsMapping(BuildAll(appends)), 2)) == [FtSeg(10, 5, 8)]
      && ValidSegments(NodeKeys(AsMapping(BuildAll(appends)), 3)) == []
  {
    var appends: seq<(u32, seq<FtSeg>)> := [(1, [Make(10, 0, 5)]), (2, [Make(10, 5, 8)])];
    assert appends[..1] == [(1, [Make(10, 0, 5)])];
    assert appends[..1][..0] == [];
    VisitRoundTrip(appends, 1);
    VisitRoundTrip(appends, 2);
    VisitRoundTrip(appends, 3);
  }

  /** A node whose only segment is the placeholder is never visited. */
  lemma PlaceholderOnlyNode()
    ensures var appends := [(5, [Make(INVALID_FID, 0, 1)])];
      ValidSegments(NodeKeys(AsMapping(BuildAll(appends)), 5)) == []
  {
    var appends: seq<(u32, seq<FtSeg>)> := [(5, [Make(INVALID_FID, 0, 1)])];
    assert appends[..0] == [];
    VisitRoundTrip(appends, 5);
  }
}
