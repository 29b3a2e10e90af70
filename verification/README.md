# Block-merge logic of a distributed watershed segmentation

`WatershedsOnDistanceTransform` segments a large 3-D volume block by block.
Each block is segmented on its own, over a halo-extended interval. The
resulting per-block labels are then combined into one global label space in
three steps:

1. **Offsets.** Every block's labels are shifted by a running prefix sum of the
   label counts, so that no two blocks share a label.
2. **Face matching.** Along every axis, the labels on the face between two
   neighbouring blocks are matched. Labels that correspond one-to-one are
   joined in a union-find.
3. **Relabelling.** Every non-zero voxel is replaced by the root of its class.

The project models these rules as pure Dafny functions over sequences and
maps, and proves what they guarantee:

- `union_find.dfy` (module `UnionFind`): a map-based union-find with union by
  rank. It supplies the `findRoot`/`join` contract the merge relies on, and
  proves that the final partition does not depend on the order of the joins.
- `label_offsets.dfy` (module `LabelOffsets`): the prefix-sum offsets, the
  offset lookup, and the shift of a block's labels.
- `block_geometry.dfy` (module `BlockGeometry`): block extents clamped to the
  volume, halo intervals, grid cell indices, and the upper/lower boundary
  planes stored for each axis.
- `face_matching.dfy` (module `FaceMatching`): the forward/backward scan of
  two aligned planes, with its conflict mark, and the per-block report.
- `global_merge.dfy` (module `GlobalMerge`): the coordinator's fold of all
  reports, the final relabel, and a worked two-block scenario.

Labels are `nat`, and 0 is background. A hash map's "absent key reads as 0"
behaviour is the function `FaceMatching.Get`. Where the Java code walks a hash map
(`forwardAssignments.iterator()`, `parents.keys()`), the walk order is a
parameter, since the program does not fix it.

Three behaviours of the code are easy to misread, and the model keeps them:

- **Face matching.** A conflict is recorded only when both labels already have
  entries; otherwise the new pair overwrites. So upper `[a, a]` against lower
  `[b, c]` joins `a` with `c`, although `a` faced two labels (see
  `FaceMatching.OverwriteExample`).
- **Offsets.** Applying an offset is not idempotent: a second application adds
  the offset again (see `LabelOffsets.ApplyOffsetNotIdempotent`).
- **The conflict mark.** Face labels are unsigned 64-bit values held in signed
  `long` maps, and the conflict mark is `-1`. That is the bit pattern of the
  largest label, 2^64 - 1, so the model's conflict mark `FaceMatching.Invalid`
  is that label. A block facing the largest label is therefore never joined
  with it (`FaceMatching.MaxLabelNeverJoined`), and a conflict mark can read as
  the largest label (`FaceMatching.ConflictExample`).

## Model

| member | source | states |
|---|---|---|
| `UnionFind.Find` | src/main/java/de/hanslovsky/examples/WatershedsOnDistanceTransform.java:385 | `findRoot` on an acyclic forest ends at a root; that root's rank is at least the label's rank; a root is its own representative |
| `UnionFind.Join` | src/main/java/de/hanslovsky/examples/WatershedsOnDistanceTransform.java:385 | `join` of two roots keeps the forest acyclic, and links exactly one of the two roots below the other (no claim about which one on a rank tie); joining a root with itself changes nothing |
| `UnionFind.Union` | src/main/java/de/hanslovsky/examples/WatershedsOnDistanceTransform.java:385 | `join(findRoot(a), findRoot(b))` keeps the forest acyclic; its effect on the partition is `UnionEffect` |
| `UnionFind.FindIdempotent` | src/main/java/de/hanslovsky/examples/WatershedsOnDistanceTransform.java:442 | the root of a root is itself, so relabelling with `findRoot` is stable |
| `UnionFind.FindAfterLink` | src/main/java/de/hanslovsky/examples/WatershedsOnDistanceTransform.java:385 | after linking root `c` below root `w`, labels whose root was `c` now find `w`, and every other label keeps its root |
| `UnionFind.UnionEffect` | src/main/java/de/hanslovsky/examples/WatershedsOnDistanceTransform.java:403 | after `join(findRoot(a), findRoot(b))`, `x` and `y` share a root if and only if they did before, or one was with `a` and the other with `b` |
| `UnionFind.UnionJoins` | src/main/java/de/hanslovsky/examples/WatershedsOnDistanceTransform.java:403 | after `join(findRoot(a), findRoot(b))`, `a` and `b` share a root |
| `UnionFind.UnionMonotone` | src/main/java/de/hanslovsky/examples/WatershedsOnDistanceTransform.java:403 | a join never separates labels that already shared a root |
| `UnionFind.JoinAllMonotone` | src/main/java/de/hanslovsky/examples/WatershedsOnDistanceTransform.java:402-403 | a whole loop of joins never separates labels that already shared a root |
| `UnionFind.JoinAll` | src/main/java/de/hanslovsky/examples/WatershedsOnDistanceTransform.java:402-403 | a loop of `join(findRoot(k), findRoot(v))` over pairs, front to back, keeps the forest acyclic; what it joins is `JoinAllJoinsEach`, and that its order does not matter is `JoinAllPermutation` |
| `UnionFind.JoinAllJoinsEach` | src/main/java/de/hanslovsky/examples/WatershedsOnDistanceTransform.java:402-403 | after a loop of joins, every joined pair shares a root |
| `UnionFind.JoinAllAppend` | src/main/java/de/hanslovsky/examples/WatershedsOnDistanceTransform.java:396-404 | joining a concatenation of pairs equals joining the first part and then the second |
| `UnionFind.FindWithin` | src/main/java/de/hanslovsky/examples/WatershedsOnDistanceTransform.java:442 | when the forest mentions only labels from a set, the root of a label in that set is in the set |
| `UnionFind.JoinAllWithin` | src/main/java/de/hanslovsky/examples/WatershedsOnDistanceTransform.java:379-386 | joining pairs drawn from a set of labels adds no label outside that set to the forest |
| `UnionFind.UnionCongruent` | src/main/java/de/hanslovsky/examples/WatershedsOnDistanceTransform.java:403 | the same join applied to two forests with the same partition gives forests with the same partition |
| `UnionFind.UnionsCommute` | src/main/java/de/hanslovsky/examples/WatershedsOnDistanceTransform.java:403 | two joins in either order give the same partition |
| `UnionFind.JoinAllCongruent` | src/main/java/de/hanslovsky/examples/WatershedsOnDistanceTransform.java:402-403 | the same loop of joins preserves equality of partitions |
| `UnionFind.MoveToFront` | src/main/java/de/hanslovsky/examples/WatershedsOnDistanceTransform.java:402-403 | moving one pair to the front of a loop of joins does not change the partition |
| `UnionFind.EquivChain` | src/main/java/de/hanslovsky/examples/WatershedsOnDistanceTransform.java:396-404 | helper for `UnionFind.JoinAllPermutation`: "same partition" is transitive (in the form the order-independence proof uses) |
| `UnionFind.RemoveMatching` | src/main/java/de/hanslovsky/examples/WatershedsOnDistanceTransform.java:396-404 | helper for `UnionFind.JoinAllPermutation` and `FaceMatching.ConfirmedPairsPermutation`: removing the same element from two reorderings of the same list leaves reorderings of each other |
| `UnionFind.JoinAllCons` | src/main/java/de/hanslovsky/examples/WatershedsOnDistanceTransform.java:402-403 | helper for `UnionFind.JoinAllPermutation`: a loop of joins starts with the first pair |
| `UnionFind.PullOut` | src/main/java/de/hanslovsky/examples/WatershedsOnDistanceTransform.java:402-403 | helper for `UnionFind.JoinAllPermutation`: a loop of joins over `t + [p] + w` gives the partition of joining `p` first and then looping over `t + w` |
| `UnionFind.JoinAllPermutation` | src/main/java/de/hanslovsky/examples/WatershedsOnDistanceTransform.java:396-404 | any reordering of the same multiset of pairs gives the same partition |
| `LabelOffsets.Total` | src/main/java/de/hanslovsky/examples/WatershedsOnDistanceTransform.java:169-174 | `totalCount` after the loop is 0 exactly when every block's count is 0 |
| `LabelOffsets.AssignOffsets` | src/main/java/de/hanslovsky/examples/WatershedsOnDistanceTransform.java:169-175 | the offset map has exactly the collected keys; each key gets the sum of the counts listed before its last occurrence (a repeated key keeps the last `put`) |
| `LabelOffsets.KeysOfSnoc` | src/main/java/de/hanslovsky/examples/WatershedsOnDistanceTransform.java:171-173 | helper for `LabelOffsets.AssignOffsets`: the keys of the list are those put before the last entry plus the last entry's key |
| `LabelOffsets.LastOfPrefix` | src/main/java/de/hanslovsky/examples/WatershedsOnDistanceTransform.java:171-173 | helper for `LabelOffsets.AssignOffsets`: an entry whose `put` is the last for its key, other than the final entry, is also last before the final `put`, and its key differs from the final key |
| `LabelOffsets.UpdateKeys` | src/main/java/de/hanslovsky/examples/WatershedsOnDistanceTransform.java:173 | helper for `LabelOffsets.AssignOffsets`: a `put` adds exactly its key to the map's keys |
| `LabelOffsets.TotalMonotone` | src/main/java/de/hanslovsky/examples/WatershedsOnDistanceTransform.java:169-175 | the running total never decreases along the list |
| `LabelOffsets.TotalStep` | src/main/java/de/hanslovsky/examples/WatershedsOnDistanceTransform.java:174 | each step adds exactly the block's count to the running total |
| `LabelOffsets.OffsetRangesDisjoint` | src/main/java/de/hanslovsky/examples/WatershedsOnDistanceTransform.java:169-175 | with distinct keys, the ranges `[offset, offset + count)` of two different blocks do not overlap |
| `LabelOffsets.OffsetRangesCover` | src/main/java/de/hanslovsky/examples/WatershedsOnDistanceTransform.java:169-176 | every value below `totalCount` lies in the range of some block |
| `LabelOffsets.OffsetRangeWithinTotal` | src/main/java/de/hanslovsky/examples/WatershedsOnDistanceTransform.java:169-175 | with distinct keys, each block's range `[offset, offset + count)` ends by `totalCount` |
| `LabelOffsets.OffsetsCoverTotal` | src/main/java/de/hanslovsky/examples/WatershedsOnDistanceTransform.java:169-175 | with distinct keys, every value below `totalCount` lies in the range of the offset the map gives some block; with `OffsetRangesDisjoint` and `OffsetRangeWithinTotal`, the ranges tile `[0, totalCount)` |
| `LabelOffsets.ScanOffset` | src/main/java/de/hanslovsky/examples/WatershedsOnDistanceTransform.java:188-191 | after scanning a prefix of the keys, the offset is still -1 exactly when the key has not been seen; otherwise it is the value paired with the last match |
| `LabelOffsets.LookupOffset` | src/main/java/de/hanslovsky/examples/WatershedsOnDistanceTransform.java:186-193 | the lookup fails exactly when the block key equals no broadcast key; otherwise it returns the value paired with the last matching key (the loop has no break) |
| `LabelOffsets.LookupAgreesWithMap` | src/main/java/de/hanslovsky/examples/WatershedsOnDistanceTransform.java:177-193 | looking a key up in the broadcast keys/values arrays gives the same answer as the offset map they were built from |
| `LabelOffsets.ApplyOffset` | src/main/java/de/hanslovsky/examples/WatershedsOnDistanceTransform.java:194-197 | the shifted block has the same length, background stays background, foreground stays foreground, and every label stays below 2^64 |
| `LabelOffsets.RemoveOffset` | src/main/java/de/hanslovsky/examples/WatershedsOnDistanceTransform.java:194-197 | undoing a shift keeps the length and the background |
| `LabelOffsets.ApplyOffsetRoundTrip` | src/main/java/de/hanslovsky/examples/WatershedsOnDistanceTransform.java:194-197 | undoing the shift gives back the original block |
| `LabelOffsets.ApplyZeroOffset` | src/main/java/de/hanslovsky/examples/WatershedsOnDistanceTransform.java:194-197 | offset 0 leaves the block unchanged |
| `LabelOffsets.ApplyOffsetTwice` | src/main/java/de/hanslovsky/examples/WatershedsOnDistanceTransform.java:194-197 | two shifts add up to one shift by the sum |
| `LabelOffsets.ApplyOffsetNotIdempotent` | src/main/java/de/hanslovsky/examples/WatershedsOnDistanceTransform.java:194-197 | a second shift by a positive offset changes a block that has foreground |
| `LabelOffsets.RemapBlock` | src/main/java/de/hanslovsky/examples/WatershedsOnDistanceTransform.java:182-199 | a worker fails exactly when its key is missing; otherwise its block is shifted by the value of the last matching key, which is the only offset that must fit |
| `LabelOffsets.GlobalLabelsDistinct` | src/main/java/de/hanslovsky/examples/WatershedsOnDistanceTransform.java:169-197 | after the shift, foreground labels of two different blocks (local labels `1..count`) never coincide |
| `BlockGeometry.ClampedMax` | src/main/java/de/hanslovsky/examples/WatershedsOnDistanceTransform.java:289 | a block's last voxel is the end of its cell or the end of the volume, whichever comes first, and is never before the block's start |
| `BlockGeometry.CellIndex` | src/main/java/de/hanslovsky/examples/WatershedsOnDistanceTransform.java:504 | `min / cellSize` with Java's truncating division brackets `min` between two consecutive cell boundaries, for either sign |
| `BlockGeometry.GridDimension` | src/main/java/de/hanslovsky/examples/WatershedsOnDistanceTransform.java:336 | the number of cells along an axis is the least count whose cells cover the volume |
| `BlockGeometry.Halo` | src/main/java/de/hanslovsky/examples/WatershedsOnDistanceTransform.java:473-475 | for `context >= 0` and a block start inside the volume, the halo holds the whole clamped block, stays within `[0, img - 1]`, and adds at most `context` voxels on each side |
| `BlockGeometry.BlocksTileAxis` | src/main/java/de/hanslovsky/examples/WatershedsOnDistanceTransform.java:289 | a voxel lies in at most one grid-aligned block along an axis: the one at its cell index |
| `BlockGeometry.BlockOfVoxel` | src/main/java/de/hanslovsky/examples/WatershedsOnDistanceTransform.java:289 | every voxel of the volume lies in the block at its cell index, so the blocks cover the axis |
| `BlockGeometry.UpperNeighbourIff` | src/main/java/de/hanslovsky/examples/WatershedsOnDistanceTransform.java:336 | the neighbour test on cell indices holds exactly when the block ends before the volume does |
| `BlockGeometry.HasUpperNeighbour` | src/main/java/de/hanslovsky/examples/WatershedsOnDistanceTransform.java:334-336 | the merger's test `cellPos[d] + 1 < gridDimension(d)`; `UpperNeighbourIff` states when it holds |
| `BlockGeometry.BlockBox` | src/main/java/de/hanslovsky/examples/WatershedsOnDistanceTransform.java:431-436 | for a grid-aligned block, on every axis the interval starts at the block's corner inside the volume, ends inside the volume, is shorter than one cell, and ends either at the volume's end or at the end of its cell |
| `BlockGeometry.HaloBox` | src/main/java/de/hanslovsky/examples/WatershedsOnDistanceTransform.java:468-479 | the segmented interval of a grid-aligned block contains the block in every axis |
| `BlockGeometry.UpperPlane` | src/main/java/de/hanslovsky/examples/WatershedsOnDistanceTransform.java:286-294 | the upper plane has extent 1 along `d`, one past the clamped block end, and spans the block in every other axis |
| `BlockGeometry.LowerPlane` | src/main/java/de/hanslovsky/examples/WatershedsOnDistanceTransform.java:302-305 | the lower plane has extent 1 along `d`, at the block's first slice, and spans the block in every other axis |
| `BlockGeometry.UpperZeroFilled` | src/main/java/de/hanslovsky/examples/WatershedsOnDistanceTransform.java:297 | the test `max[finalD] > rai.max(finalD)`, with the halo interval as the segmented interval; `UpperZeroFilledIff` states when it holds |
| `BlockGeometry.UpperZeroFilledIff` | src/main/java/de/hanslovsky/examples/WatershedsOnDistanceTransform.java:296-300 | the upper plane is zero-filled exactly when the block reaches the end of the volume or the halo along `d` is 0 |
| `BlockGeometry.PlanesInsideHalo` | src/main/java/de/hanslovsky/examples/WatershedsOnDistanceTransform.java:296-307 | both planes are read inside the segmented interval: the lower one always, the upper one whenever it is not zero-filled |
| `BlockGeometry.CellPosition` | src/main/java/de/hanslovsky/examples/WatershedsOnDistanceTransform.java:309-310 | the grid cell of a block lies between consecutive cell boundaries around its start in every axis |
| `BlockGeometry.CellIndexOfMultiple` | src/main/java/de/hanslovsky/examples/WatershedsOnDistanceTransform.java:309-310 | helper for `BlockGeometry.NeighbourPlanesCoincide`: a grid-aligned start `m * cell` lies in cell `m` |
| `BlockGeometry.NeighbourPlanesCoincide` | src/main/java/de/hanslovsky/examples/WatershedsOnDistanceTransform.java:332-343 | when the neighbour test passes, the neighbour starts on the grid; its lower plane is the same voxels as this block's upper plane; and it is stored one cell up along `d`, so the merger compares matching planes |
| `BlockGeometry.NextOnGrid` | src/main/java/de/hanslovsky/examples/WatershedsOnDistanceTransform.java:334-336 | helper for `BlockGeometry.NeighbourPlanesCoincide`: the block one cell further along `d`, when it starts inside the volume, is grid-aligned |
| `BlockGeometry.AlignedShift` | src/main/java/de/hanslovsky/examples/WatershedsOnDistanceTransform.java:334-336 | helper for `BlockGeometry.NextOnGrid`: one cell further than a multiple of the cell size is again a multiple |
| `BlockGeometry.NextPlanes` | src/main/java/de/hanslovsky/examples/WatershedsOnDistanceTransform.java:342-343 | helper for `BlockGeometry.NeighbourPlanesCoincide`: the plane past a block's end is the first plane of the next block |
| `BlockGeometry.NextCellPosition` | src/main/java/de/hanslovsky/examples/WatershedsOnDistanceTransform.java:332-335 | helper for `BlockGeometry.NeighbourPlanesCoincide`: the next block along `d` is stored at `cellPos` with `cellPos[d] + 1` |
| `BlockGeometry.WriteOffset` | src/main/java/de/hanslovsky/examples/WatershedsOnDistanceTransform.java:504 | the output block position has three coordinates |
| `BlockGeometry.AlignedCellIndex` | src/main/java/de/hanslovsky/examples/WatershedsOnDistanceTransform.java:504 | helper for `BlockGeometry.WriteOffsetIsCellPosition`: a grid-aligned coordinate is its cell index times the cell size |
| `BlockGeometry.WriteOffsetIsCellPosition` | src/main/java/de/hanslovsky/examples/WatershedsOnDistanceTransform.java:504 | a grid-aligned block written with the grid's cell size lands at its own grid cell |
| `FaceMatching.Step` | src/main/java/de/hanslovsky/examples/WatershedsOnDistanceTransform.java:354-377 | one scan position keeps every key and value non-zero, and touches no forward entry but the upper label's and no backward entry but the lower label's |
| `FaceMatching.Scan` | src/main/java/de/hanslovsky/examples/WatershedsOnDistanceTransform.java:352-378 | after the scan every key and value of both maps is non-zero (a foreground label, or the conflict mark) |
| `FaceMatching.Foreground` | src/main/java/de/hanslovsky/examples/WatershedsOnDistanceTransform.java:358 | the filtered positions are exactly those where both planes carry a label |
| `FaceMatching.ScanIgnoresBackground` | src/main/java/de/hanslovsky/examples/WatershedsOnDistanceTransform.java:358 | positions where either plane is 0 do not affect the maps |
| `FaceMatching.EntriesCoOccur` | src/main/java/de/hanslovsky/examples/WatershedsOnDistanceTransform.java:372-377 | every forward or backward entry other than the conflict mark records a pair that faced each other at some position |
| `FaceMatching.ConfirmedCoOccur` | src/main/java/de/hanslovsky/examples/WatershedsOnDistanceTransform.java:379-385 | a label chosen for a join faced its partner at some position, and both are foreground |
| `FaceMatching.ConfirmedOneToOne` | src/main/java/de/hanslovsky/examples/WatershedsOnDistanceTransform.java:384 | two different upper labels are never confirmed with the same lower label |
| `FaceMatching.Confirmed` | src/main/java/de/hanslovsky/examples/WatershedsOnDistanceTransform.java:384 | the join test `v != -1 && backward.get(v) == k`; `ConfirmedCoOccur`, `ConfirmedOneToOne` and `ExclusivePartnersConfirmed` state what passing it means |
| `FaceMatching.ExclusivePartnersConfirmed` | src/main/java/de/hanslovsky/examples/WatershedsOnDistanceTransform.java:352-384 | if `u` only ever faces `l`, `l` only ever faces `u`, and they face each other at least once, then `u` is mapped to `l`, and passes the join test exactly when `l` is not the largest label (whose bits are `-1`) |
| `FaceMatching.OccursPrefix` | src/main/java/de/hanslovsky/examples/WatershedsOnDistanceTransform.java:352 | helper for `FaceMatching.ExclusivePrefix`: a pair occurs in a longer prefix exactly when it occurs in the shorter one or at the new position |
| `FaceMatching.ExclusivePrefix` | src/main/java/de/hanslovsky/examples/WatershedsOnDistanceTransform.java:352-377 | for exclusive partners, after each prefix of the scan both entries point at each other if the pair has been seen, and are absent otherwise |
| `FaceMatching.ConflictExample` | src/main/java/de/hanslovsky/examples/WatershedsOnDistanceTransform.java:359-365 | upper `[a, b, a]` against lower `[c, d, d]`: `forward[a]` and `backward[d]` are the conflict mark `-1`; a label passes the join test exactly when it is `b`, `b` is the largest label, and `d` is not |
| `FaceMatching.ConflictScan` | src/main/java/de/hanslovsky/examples/WatershedsOnDistanceTransform.java:352-377 | the maps after scanning upper `[a, b, a]` against lower `[c, d, d]`: forward `a -> -1, b -> d`, backward `c -> a, d -> -1` |
| `FaceMatching.ScanSnoc` | src/main/java/de/hanslovsky/examples/WatershedsOnDistanceTransform.java:352-377 | helper for `FaceMatching.ConflictScan`: scanning one more position applies one more step to the maps so far |
| `FaceMatching.ConflictSteps` | src/main/java/de/hanslovsky/examples/WatershedsOnDistanceTransform.java:358-377 | helper for `FaceMatching.ConflictScan`: the third step meets two labels that are mapped but not to each other, and marks both |
| `FaceMatching.StoredSteps` | src/main/java/de/hanslovsky/examples/WatershedsOnDistanceTransform.java:372-376 | helper for `FaceMatching.ConflictScan`: the first two pairs of the conflict walk are each stored in both maps |
| `FaceMatching.StepStores` | src/main/java/de/hanslovsky/examples/WatershedsOnDistanceTransform.java:358-376 | a foreground pair with at least one side unmapped is `put` in both maps (the `else` branch) |
| `FaceMatching.StepMarks` | src/main/java/de/hanslovsky/examples/WatershedsOnDistanceTransform.java:358-365 | a foreground pair whose sides are both mapped, but not to each other, sets both entries to the conflict mark |
| `FaceMatching.MaxLabelNeverJoined` | src/main/java/de/hanslovsky/examples/WatershedsOnDistanceTransform.java:374-384 | upper `u` against the largest label: the forward entry is stored as the bits of `-1`, so no label passes the join test and no join is emitted |
| `FaceMatching.OverwriteExample` | src/main/java/de/hanslovsky/examples/WatershedsOnDistanceTransform.java:372-377 | upper `[a, a]` against lower `[b, c]`: the second pair overwrites, `a` is mapped to `c`, and `a` passes the join test exactly when `c` is not the largest label |
| `FaceMatching.ConfirmedPairs` | src/main/java/de/hanslovsky/examples/WatershedsOnDistanceTransform.java:379-385 | the walk over the forward map picks exactly the confirmed pairs (`v != -1` and `backward[v] == k`) among the keys it visits |
| `FaceMatching.ConfirmedPairsAppend` | src/main/java/de/hanslovsky/examples/WatershedsOnDistanceTransform.java:379-386 | helper for `FaceMatching.ConfirmedPairsPermutation`: walking the keys in two parts collects the pairs of each part in turn |
| `FaceMatching.ConfirmedPairsPermutation` | src/main/java/de/hanslovsky/examples/WatershedsOnDistanceTransform.java:379-386 | two walks over the same keys (as multisets) collect the same confirmed pairs, up to order |
| `FaceMatching.ConfirmedPairsSplit` | src/main/java/de/hanslovsky/examples/WatershedsOnDistanceTransform.java:379-386 | helper for `FaceMatching.ConfirmedPairsPermutation`: pulling the first key of a walk out to any place keeps the multiset of collected pairs, given that the rest of the walks agree |
| `FaceMatching.MultisetRearrange` | src/main/java/de/hanslovsky/examples/WatershedsOnDistanceTransform.java:379-386 | helper for `FaceMatching.ConfirmedPairsSplit`: moving one part of a concatenation keeps its multiset |
| `FaceMatching.LocalJoins` | src/main/java/de/hanslovsky/examples/WatershedsOnDistanceTransform.java:326-328 | the block's local union-find stays acyclic |
| `FaceMatching.LocalJoinsOrderIndependent` | src/main/java/de/hanslovsky/examples/WatershedsOnDistanceTransform.java:379-386 | the block's local partition does not depend on the order the forward map is walked in |
| `FaceMatching.LocalJoinsConfirmed` | src/main/java/de/hanslovsky/examples/WatershedsOnDistanceTransform.java:379-386 | when the walk visits every forward key, every confirmed pair shares a root in the local union-find |
| `FaceMatching.ExclusivePartnersJoined` | src/main/java/de/hanslovsky/examples/WatershedsOnDistanceTransform.java:352-386 | exclusive partners on a face, the lower one other than the largest label, are joined in the local union-find |
| `FaceMatching.BlockReport` | src/main/java/de/hanslovsky/examples/WatershedsOnDistanceTransform.java:332-389 | a block with no neighbour along `d` reports an empty parent map; otherwise every reported key and parent is a label seen, with a partner, on the face |
| `GlobalMerge.FoldReports` | src/main/java/de/hanslovsky/examples/WatershedsOnDistanceTransform.java:396-404 | the coordinator's fold keeps the global forest acyclic |
| `GlobalMerge.FoldReportsFlat` | src/main/java/de/hanslovsky/examples/WatershedsOnDistanceTransform.java:396-404 | the nested fold over reports equals one fold over all reported pairs |
| `GlobalMerge.FoldReportsOrderIndependent` | src/main/java/de/hanslovsky/examples/WatershedsOnDistanceTransform.java:396-404 | the global partition does not depend on the order in which reports, or the pairs within them, arrive |
| `GlobalMerge.FoldReportsMonotone` | src/main/java/de/hanslovsky/examples/WatershedsOnDistanceTransform.java:396-404 | the fold never separates labels already together |
| `GlobalMerge.ReportedPairsJoined` | src/main/java/de/hanslovsky/examples/WatershedsOnDistanceTransform.java:396-404 | after the fold, each reported key shares a root with its reported parent |
| `GlobalMerge.LocalRootJoined` | src/main/java/de/hanslovsky/examples/WatershedsOnDistanceTransform.java:389-403 | once every reported parent link is joined globally, each label shares its global root with its local root |
| `GlobalMerge.LocalClassesSurvive` | src/main/java/de/hanslovsky/examples/WatershedsOnDistanceTransform.java:389-403 | labels in one local class end up in one global class |
| `GlobalMerge.ConfirmedMergedGlobally` | src/main/java/de/hanslovsky/examples/WatershedsOnDistanceTransform.java:324-404 | end to end: every confirmed face correspondence of a block whose report is folded shares a root globally |
| `GlobalMerge.Relabel` | src/main/java/de/hanslovsky/examples/WatershedsOnDistanceTransform.java:440-442 | the final pass keeps length and background, and replaces every foreground label by a root of its own class |
| `GlobalMerge.RelabelIdempotent` | src/main/java/de/hanslovsky/examples/WatershedsOnDistanceTransform.java:440-442 | relabelling twice with the same union-find equals relabelling once |
| `GlobalMerge.RelabelRespectsClasses` | src/main/java/de/hanslovsky/examples/WatershedsOnDistanceTransform.java:440-442 | two foreground voxels get the same final label exactly when their labels are in one class |
| `GlobalMerge.RelabelKeepsForeground` | src/main/java/de/hanslovsky/examples/WatershedsOnDistanceTransform.java:440-442 | when the union-find never mentions 0, a foreground voxel stays foreground |
| `GlobalMerge.ScenarioOffsets` | src/main/java/de/hanslovsky/examples/WatershedsOnDistanceTransform.java:169-197 | two blocks with two labels each get offsets 0 and 2; the second block's `[1, 1, 2, 2]` becomes `[3, 3, 4, 4]` |
| `GlobalMerge.ScenarioFace` | src/main/java/de/hanslovsky/examples/WatershedsOnDistanceTransform.java:352-377 | the face `2` against `3` gives forward `2 -> 3` and backward `3 -> 2` |
| `GlobalMerge.ScenarioJoined` | src/main/java/de/hanslovsky/examples/WatershedsOnDistanceTransform.java:324-404 | in the scenario, the global forest joins 2 with 3 and mentions no other label, whatever order the report lists its entries in |
| `GlobalMerge.ScenarioPairLabels` | src/main/java/de/hanslovsky/examples/WatershedsOnDistanceTransform.java:324-386 | helper for `GlobalMerge.ScenarioJoined`: the scenario's report mentions only the labels 2 and 3 |
| `GlobalMerge.ScenarioPairJoined` | src/main/java/de/hanslovsky/examples/WatershedsOnDistanceTransform.java:396-404 | helper for `GlobalMerge.ScenarioJoined`: the global fold of the scenario's report joins 2 with 3 |
| `GlobalMerge.JoinedWithin` | src/main/java/de/hanslovsky/examples/WatershedsOnDistanceTransform.java:396-404 | helper for `GlobalMerge.ScenarioJoined`: folding one report over the labels 2 and 3 gives a forest over those labels in which 2's root is 2 or 3 |
| `GlobalMerge.FoldOneReport` | src/main/java/de/hanslovsky/examples/WatershedsOnDistanceTransform.java:396-404 | helper for `GlobalMerge.JoinedWithin`: folding a single report is one loop of joins over it |
| `GlobalMerge.ScenarioRelabel` | src/main/java/de/hanslovsky/examples/WatershedsOnDistanceTransform.java:430-444 | in the scenario, the volume reads `[1, 1, r, r, r, r, 4, 4]` with `r` either 2 or 3 |
| `GlobalMerge.ScenarioMerge` | src/main/java/de/hanslovsky/examples/WatershedsOnDistanceTransform.java:324-444 | the scenario end to end: from the block report to the relabelled volume `[1, 1, r, r, r, r, 4, 4]` |

## Left out

- Spark plumbing (`parallelize`, `mapToPair`, `broadcast`, `persist`, `collect`, `count`): gathered and broadcast data are plain sequences and maps, and each lambda is a function of its inputs.
- N5 storage (`N5FSWriter`, `readBlock`, `saveBlock`, `createDataset`, compression) is I/O. The planes the merger reads are inputs (`upper`, `lower`). Their geometry is modelled in `BlockGeometry`, but not the copying of voxel values.
- The watershed segmentation itself, `RAIFromLoader`, `Extend`, `ThresholdPredicate`, `Distance` and `Collapse` are external, views only, or floating point. A block's local labels are an input.
- `Util.collectAllOffsets` (block enumeration) is not part of this model. The block list is an input sequence.
- `CellGrid` is not part of this model. `gridDimension` is modelled as ceiling division (`GridDimension`), and `getCellPosition` as truncating division (`CellPosition`).
- `UnionFindSparse` is not part of this model. `UnionFind` stands in for it: parent and rank maps, union by rank, and no path compression, since path compression does not change any root. `setCount` is not modelled.
- Hash-map iteration order (the walk over `forwardAssignments`, and `parents.keys()`) is a parameter. Lemmas that need every key visited say so in a `requires`.
- `assignmentCounts` never affects a decision, and `zeroMappingsCount` and logging are diagnostics; neither is modelled.
- The commented-out duplicate-label checks, and argument parsing in `main`, are not modelled.
- The non-blocked output pass at lines 416-427 only clamps the interval (`ClampedMax`) and writes; the writing is I/O.
- LabelOffsets.ApplyOffset: requires `v + offset < 2^64` for every label instead of modelling the unsigned 64-bit wrap-around of `s.get() + offset`. `RemapBlock` requires it for the offset its lookup finds, and `GlobalLabelsDistinct` for the offsets of the two blocks it compares.
- LabelOffsets.AssignOffsets: offsets and `totalCount` are unbounded; the signed 64-bit overflow of `totalCount += count` is not modelled.
- BlockGeometry.UpperZeroFilled: compares the upper plane with the halo interval (`HaloBox`) where the code compares it with `rai.max(finalD)`. This assumes the external segmentation returns exactly the interval `ToInterval` asked for. `UpperZeroFilledIff` and `PlanesInsideHalo` rest on this assumption.
- LabelOffsets.OffsetRangesDisjoint: assumes the collected block keys are distinct, as the block enumeration produces them. With a repeated key, the earlier entry's offset is overwritten (`AssignOffsets` states that case).
- FaceMatching.BlockReport: requires the lower plane to be at least as long as the upper plane when a neighbour exists, instead of modelling the out-of-bounds failure of `lowerData[i]`. `NeighbourPlanesCoincide` shows that the two planes are the same voxels, so they have equal length. The contract states only which labels the report may mention. The report itself is the local union-find's parent map; `ConfirmedMergedGlobally` states what joining it achieves.
- BlockGeometry.WriteOffset: its own contract states only the shape; `WriteOffsetIsCellPosition` states its meaning for grid-aligned blocks.
