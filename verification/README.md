# OSRM node to feature-segment forward mapping

A Dafny model of the forward index that translates a routing graph's (OSRM)
node ids into segments of map features, as declared in
`routing/osrm2feature_map.hpp`.

- `OsrmMappingTypes` (`osrm_mapping_types.dfy`) holds the segment record
  `FtSeg`. A record is a 32-bit feature id plus 16-bit start and end point
  indexes. The module also holds its 64-bit packing (`Store` / `FromKey`),
  validity against the reserved id `INVALID_FID`, field-wise equality,
  `Swap`, the comparator `FtSegLess` (`Less`) and the offset-table record
  `SegOffset`.
- `OsrmFtSegMapping` (`osrm_ft_seg_mapping.dfy`) holds the loaded forward
  index: a sequence of packed keys and an offset table of
  `(node id, start offset)` records. It provides `GetSegmentsRange`,
  `GetNodeId`, `GetSegmentsCount`, `GetSegmentByIndex` and the visitor loop
  `ForEachFtSeg`.
- `OsrmFtSegMappingBuilder` (`osrm_ft_seg_mapping_builder.dfy`) holds the
  append-only builder. `BuildAll` runs a whole list of appends, and the
  round-trip lemmas say what iteration sees after a build.
- `MappingScenarios` (`mapping_scenarios.dfy`) holds two concrete builds.
- `Wrappers` (`wrappers.dfy`) holds `Option`.

Modelling decisions:

- The header declares `Store`, `FtSeg(uint64_t)`, `GetSegmentsRange`,
  `GetNodeId`, `GetSegmentByIndex` and the builder's `Append`, but their
  bodies live in `routing/osrm2feature_map.cpp`, which is not part of this
  model. The model fixes their behaviour as follows:
  - The key layout puts the feature id in the high 32 bits, the start point
    in the next 16 and the end point in the low 16. So comparing keys orders
    segments by feature id, then start, then end.
  - The offset table holds one record per node that has segments. Node ids
    and start offsets are strictly increasing, and the first range starts at
    index 0. A node's range runs from its record's start to the next record's
    start, or to the end of the key sequence.
  - A node without a record gets an empty range.
- `GetSegmentsRange` finds the record by binary search (`LowerBound`).
  `GetNodeId` also uses binary search (`UpperBound`, on start offsets). Both
  are proved against the declarative ownership predicate `Owns`.
- `GetNodeId` returns `None` past the last segment; the header does not say
  what it returns there.
- The visitor of `ForEachFtSeg` is modelled as its trace. `calls` is the
  sequence of arguments it receives. `at` is the key index each argument was
  decoded from.
- The program's `succinct::elias_fano_compressed_list` is here a plain
  `seq<u64>`. Fixed-width integers are subset types of `nat` (`u16`, `u32`,
  `u64`). The 16-bit point fields of the three-argument constructor are a
  precondition of `Make`.
- A builder's state is its key buffer plus its offset table. The state is
  read back as a `Mapping` with `AsMapping`, which stands for save followed
  by load.
- `Append` packs and appends the segments. It records an offset only on the
  first non-empty append of a node id, and that record's offset is the
  buffer length before the append. The model makes two conditions
  preconditions of `Append`; the header does not show how `Append` treats
  them:
  - the node id must not be below the last recorded node;
  - the key buffer never exceeds 2^32 entries, so every later range start
    fits the 32-bit offset field.
- The two-argument `SegOffset(nodeId, offset)` constructor is the datatype
  constructor itself, so it stores its arguments unchanged by construction.

## Model

| member | source | states |
|---|---|---|
| OsrmMappingTypes.Make | routing/osrm2feature_map.hpp:42 | the three-argument constructor accepts 32-bit point arguments only when they fit the 16-bit fields, and keeps all three values |
| OsrmMappingTypes.Store | routing/osrm2feature_map.hpp:45 | the feature id occupies the high 32 bits of the 64-bit key |
| OsrmMappingTypes.FromKey | routing/osrm2feature_map.hpp:44 | the decoded feature id is the key's high 32 bits, and storing the decoded segment gives back the key |
| OsrmMappingTypes.IsValid | routing/osrm2feature_map.hpp:58-61 | a segment is valid exactly when its stored key lies below the top block of 2^32 keys, the block whose feature id is the reserved id |
| OsrmMappingTypes.Less | routing/osrm2feature_map.hpp:88-94 | comparing stored keys orders segments by feature id, then start point, then end point |
| OsrmMappingTypes.StoreRoundTrip | routing/osrm2feature_map.hpp:44-45 | constructing a segment from its stored key gives back the same segment |
| OsrmMappingTypes.KeyRoundTrip | routing/osrm2feature_map.hpp:44-45 | every 64-bit key is the stored form of the segment decoded from it, so packing is a bijection |
| OsrmMappingTypes.StoreInjective | routing/osrm2feature_map.hpp:44-54 | two segments have the same key iff they are equal field by field |
| OsrmMappingTypes.Equal | routing/osrm2feature_map.hpp:49-54 | field-wise equality holds exactly when the two records are identical, so it is reflexive and symmetric |
| OsrmMappingTypes.InvalidFidIsMax | routing/osrm2feature_map.hpp:38 | the reserved feature id is the largest 32-bit value |
| OsrmMappingTypes.ValidIffKeyBelowTop | routing/osrm2feature_map.hpp:58-61 | a decoded key is invalid exactly when it lies in the top block of 2^32 keys, the ones whose feature id is the reserved id |
| OsrmMappingTypes.Swap | routing/osrm2feature_map.hpp:63-68 | exchanging the three fields one by one swaps the two whole records |
| OsrmMappingTypes.SwapTwice | routing/osrm2feature_map.hpp:63-68 | swapping twice restores both records |
| OsrmMappingTypes.LessIsStrictTotalOrder | routing/osrm2feature_map.hpp:88-94 | the comparator is irreflexive and transitive, and any two distinct segments are comparable |
| OsrmMappingTypes.LessEquivalenceIsEqual | routing/osrm2feature_map.hpp:123 | neither segment being less than the other is the same as equality, so the ordered segment set keeps one entry per distinct segment |
| OsrmMappingTypes.ValidSortsBeforeInvalid | routing/osrm2feature_map.hpp:88-94 | every valid segment is less than every invalid one |
| OsrmMappingTypes.DefaultSegOffset | routing/osrm2feature_map.hpp:78 | a default offset record has node id 0 and offset 0 |
| OsrmFtSegMapping.LowerBound | routing/osrm2feature_map.hpp:158-159 | the binary search returns the split point: records before it have smaller node ids, records after it have node ids that are not smaller |
| OsrmFtSegMapping.UpperBound | routing/osrm2feature_map.hpp:160-161 | the binary search returns the first record whose start offset lies beyond the index |
| OsrmFtSegMapping.GetSegmentsRange | routing/osrm2feature_map.hpp:158-159 | the range satisfies s <= e <= count; it is exactly the node's record range when the node has a record, and empty otherwise |
| OsrmFtSegMapping.NodeKeysOfAbsent | routing/osrm2feature_map.hpp:158-159 | a node without an offset record has no keys in its range |
| OsrmFtSegMapping.GetNodeId | routing/osrm2feature_map.hpp:160-161 | the result is the node id of the record whose range holds the index; it is absent exactly for indexes past the last segment |
| OsrmFtSegMapping.RangeIsNodeIdPreimage | routing/osrm2feature_map.hpp:158-161 | an index lies in node n's range iff GetNodeId of that index is n |
| OsrmFtSegMapping.GetSegmentsCount | routing/osrm2feature_map.hpp:163 | the count is the number of stored keys and bounds the end of every node's range |
| OsrmFtSegMapping.GetSegmentByIndex | routing/osrm2feature_map.hpp:148 | the returned segment is the one whose stored key sits at that index |
| OsrmFtSegMapping.VisitRange | routing/osrm2feature_map.hpp:135-141 | the loop calls the visitor at increasing indexes inside [s, e), at each index whose key is valid and at no other, with the decoded segment |
| OsrmFtSegMapping.ForEachFtSeg | routing/osrm2feature_map.hpp:132-142 | the visitor receives exactly the valid decoded segments of the node's range, in index order, and never an invalid one |
| OsrmFtSegMapping.ValidSegmentsMembership | routing/osrm2feature_map.hpp:137-139 | a segment is visited for a run of keys iff it is valid and its key occurs in the run |
| OsrmFtSegMapping.NoValidKeyNoVisit | routing/osrm2feature_map.hpp:135-141 | a range that is empty, or holds only invalid keys, produces no visitor call |
| OsrmFtSegMappingBuilder.NewBuilder | routing/osrm2feature_map.hpp:179 | a new builder describes a well-formed mapping in which every node's range is empty |
| OsrmFtSegMappingBuilder.Keys | routing/osrm2feature_map.hpp:187 | packing a list yields one key per segment, and each key decodes back to its segment |
| OsrmFtSegMappingBuilder.Append | routing/osrm2feature_map.hpp:183 | appending keeps the mapping well formed, appends the packed segments to the buffer, and records no node id beyond the appended one |
| OsrmFtSegMappingBuilder.AppendExtendsOnlyItsNode | routing/osrm2feature_map.hpp:183-187 | after an append, the appended node's range holds its old keys followed by the new ones, and every other node's range is unchanged |
| OsrmFtSegMappingBuilder.FirstAppendOfNodeZero | routing/osrm2feature_map.hpp:78-83 | example: the first non-empty append, for node 0, records exactly the default offset record |
| OsrmFtSegMappingBuilder.BuildAll | routing/osrm2feature_map.hpp:183-188 | appends in non-decreasing node order give a well-formed mapping that holds every appended segment |
| OsrmFtSegMappingBuilder.BuildRoundTrip | routing/osrm2feature_map.hpp:183-187 | after a build, each node's range holds exactly the keys of the segments appended for it, in append order |
| OsrmFtSegMappingBuilder.VisitRoundTrip | routing/osrm2feature_map.hpp:132-142 | after a build, iterating node n visits exactly the valid segments appended for n, in append order |
| MappingScenarios.TwoNodesOneFeature | routing/osrm2feature_map.hpp:132-142 | after node 1 gets (10,0,5) and node 2 gets (10,5,8), each node visits only its own segment, and node 3 visits nothing |
| MappingScenarios.PlaceholderOnlyNode | routing/osrm2feature_map.hpp:135-141 | a node whose only segment carries the reserved feature id produces no visitor call |

## Left out

- `Load`, `Map`, `Unmap`, `IsMapped`, `Clear` and `Save`, with `FilesMappingContainer`, `MmapReader` and `FilesContainerW`: these are file and memory-mapping I/O. Saving followed by loading is modelled as reading the builder's buffers back as a mapping (`AsMapping`). `Valid` is what the model assumes of every loaded mapping, and every query requires it; the header does not show whether `Load` checks it.
- `GetOsrmNodes`: it depends on an atomic cancel flag shared across threads, and the header only declares it.
- `OsrmFtSegBackwardIndex` (`Construct`, `GetNodeIdByFid`, `Clear`): the header only declares them. The bit vector with rank support is a third-party structure.
- `FtSeg::Merge` and `FtSeg::IsIntersect`: the header only declares them, so it fixes no behaviour to model.
- The internals of `succinct::elias_fano_compressed_list` and `succinct::rs_bit_vector`: they are replaced by a plain sequence of keys.
- `FeaturesOffsetsTable`: an external collaborator.
- `DebugPrint`, `DumpSegmentsByFID` and `DumpSegmentByNode`: diagnostic output only.
- The default `FtSeg()` constructor leaves its fields uninitialised, which has no counterpart in an immutable datatype.
- The assessment tool's `main.cpp`: application start-up and flag parsing.
- GetSegmentsRange: for a node without a record, only the emptiness of the range is stated, not where the empty range sits.
- Append: the builder's `m_lastOffset` counter is not modelled; taking each new record's offset to be the key buffer's length before the append is the model's choice.
- Append: the cap of 2^32 entries on the whole key buffer is the model's choice; only a written record's 32-bit `m_offset` has to fit, so the model refuses some appends that write no record and that the program may accept.
- Append: the monotone node-id precondition is checked against the last recorded node only, so an empty append leaves no trace that later appends are compared with.
