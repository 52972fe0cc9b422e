# OSRM, verified in Dafny

A model of algorithms of the OSRM routing engine and of the JavaScript FlatBuffers runtime that it
carries, with proofs of what they promise. Each Dafny file is one module.

* **Multi-level customization** (`Walks`, `Search`, `MultiLevel`, `QueryHeap`, `CellCustomizer`).
  Costs are compared as (weight, duration, distance). A distance is the least length of a walk, or
  that there is none. `Search` is the theory of a Dijkstra search over clique and border arcs that
  skips clique arcs at nodes reached by one; `MultiLevel` shows that the overlay of sub-cell
  matrices has the distances of the cell; `CellCustomizer` is the code, on the heap of `QueryHeap`.
* **FlatBuffers** (`FlatBytes`, `FlatBuilder`, `FlatReader`, `Utf`). A buffer that is written
  backwards, doubles when it is full, and shares vtables; what readers find in it; the string codec.
* **Contraction plumbing** (`GraphContractorAdaptors`, `Permutation`, `EdgeContainer`,
  `ExcludableGraph`, with `Sorting`). In-place compaction of edges, and the container that presents
  up to eight edge sets.
* **Snapping** (`Snapping`, `PhantomNodes`). The candidate filter, the choice between edges of a
  segment, and the split of weights at a location.
* **Smaller parts** (`RouteLegs`, `TrafficSignals`, `Polyline`, `Base64`, `Watchdog`).

Objects whose methods update them are classes, loops are loops, and each is proved against a
function of its inputs or of its old state; the properties are then proved of these functions.
`Common` holds what several modules share. Run `dafny verify dfyconfig.toml` to verify everything.

## Findings

Where a property fails, the exact condition is proved, with an input that violates it.

* Merging the two directions of an edge keeps one duration and distance for both at each end, so the
  two ends agree exactly if the weights differ or the costs agree
  (`GraphContractorAdaptors.CostsAtBothEnds`, `CostsMayDiffer`).
* Sizes and field offsets are signed 16-bit numbers, so a field is found exactly if its slot lies within
  the size that is read of its vtable, and it is less than 2^15 bytes from its table
  (`FlatReader.FoundExactlyIfNear`; `FarFieldIsMissed`). All slots that were set do so exactly if the
  vtable has at most 16381 of them (`FlatBuilder.AllSeenExactly`; `TooManyFieldsAreLost`).
* A file identifier is out of its place, behind padding, exactly if nothing was aligned to words and the
  bytes written before do not fill words (`FlatBuilder.IdentifierIsBehindRoot`, which says for which
  lengths; `IdentifierIsMisplaced`). No buffer with a completed table is concerned, as every object
  aligns to words: there `Finish` puts the identifier right behind the root.
* Strings with an unpaired high surrogate do not read back, those with lone low surrogates do
  (`Utf.StringRoundTrip`, `LoneSurrogateIsLost`).
* Polyline numbers survive exactly between -2^30 and 2^30 - 1, and a line exactly if all its differences
  do, as always with five digits or with valid coordinates (`Polyline.NumberRoundTrip`,
  `PolylineRoundTrip`, `UsuallyEncodable`; `LargeNumberIsLost`).
* Edge lists are sorted by source and target only, and so a merge can store an edge twice: exactly if
  new edges that are there already come out of order, or others agree with one another in everything but
  the distance (`EdgeContainer.MarkedExactly`, `MergeIsStrict`; `ParallelEdgeIsStoredTwice`). What is
  exposed is right nevertheless (`Merge`).
* Without a reverse segment, its direction is not split, so weights at a snapped location add up exactly
  if the share of the other one is below 1 (`PhantomNodes.SplitConserves`, `UnsplitCountsTwice`). For a
  forward segment the code has the same test, but its id is used to look up the geometry, and so it is
  always there.
* Compressing a chain need not give it the signal of its last link. It does so in every order exactly if
  that link has a signal or no other node of the chain has one of its own towards the last node
  (`TrafficSignals.KeepsLastExactly`, `KeepsFirstExactly`; `ShortcutMayMatter`).
* Of the edges of a segment, which one is chosen depends on the order of the results exactly if several
  are equally good (`Snapping.ChoiceIsOrderIndependent`; `TiesGoToTheLast`).
* Legs cannot always be collapsed in stages: a leg without segments would hand the values of its source
  on to segments that are joined to it too early (`RouteLegs.StagesAgree`; `EmptyLegMatters`).

## Model

| member | source | states |
|---|---|---|
| `CellCustomizer.Customize` | include/customizer/cell_customizer.hpp:113-135 | From a fresh metric, and whatever the order of the cells on a level, every entry of every cell on every level ends as the lexicographically least (weight, duration, distance) of a walk over forward arcs between allowed nodes of the cell, or INVALID if there is none; wherever the weight is INVALID, duration and distance are the greatest values of their types |
| `CellCustomizer.CustomizeCell` | include/customizer/cell_customizer.hpp:33-111 | The same for one cell, given that the level below is complete; nothing outside the matrix of the cell changes |
| `CellCustomizer.CustomizeRow` | include/customizer/cell_customizer.hpp:46-110 | One allowed source: its row is exact, no other row changes |
| `CellCustomizer.SearchFrom` | include/customizer/cell_customizer.hpp:53-84 | The search stops early, when all allowed destinations are settled; by then each of them has its exact distance, or no walk reaches it |
| `CellCustomizer.ExpandLeast` | include/customizer/cell_customizer.hpp:67-72 | One iteration takes a node with the least key and makes exactly one step of the abstract search |
| `CellCustomizer.SearchIsExact` | include/customizer/cell_customizer.hpp:65-84 | When the loop ends, the label of a destination is its distance among the allowed base arcs of the cell, although the search ran on the matrices of the sub-cells |
| `CellCustomizer.FillRow` | include/customizer/cell_customizer.hpp:86-109 | Weight, duration and distance of a destination are written to the same slot, INVALID exactly for destinations that were never inserted, with the greatest duration and distance |
| `CellCustomizer.SearchFillsRow` | include/customizer/cell_customizer.hpp:61-109 | What the search found makes the row exact |
| `CellCustomizer.AllowedOf` | include/customizer/cell_customizer.hpp:53-60 | The set that the search waits for holds exactly the allowed destinations |
| `CellCustomizer.RelaxNode` | include/customizer/cell_customizer.hpp:138-233 | From the second level on, the clique arcs are relaxed unless the node was reached by one, then the border arcs: the new labels are the old ones improved by exactly these arcs |
| `CellCustomizer.RelaxClique` | include/customizer/cell_customizer.hpp:153-202 | Scanning the row of the sub-cell relaxes exactly the clique arcs that leave the node; a node that is no source of its sub-cell has none |
| `CellCustomizer.ScanRow` | include/customizer/cell_customizer.hpp:165-200 | All iterators stay in lockstep to the end of the row, because the skip of a destination that is not allowed is never taken |
| `CellCustomizer.DoneRowFits` | include/customizer/cell_customizer.hpp:170-178 | In a finished sub-cell, an entry that is not INVALID belongs to an allowed destination |
| `CellCustomizer.RelaxBorder` | include/customizer/cell_customizer.hpp:204-232 | The internal edges relax exactly the forward arcs to allowed nodes that cross between sub-cells, or all arcs on the first level |
| `CellCustomizer.RelaxArc` | include/customizer/cell_customizer.hpp:183-194 | A node is inserted, or its key is decreased exactly if (weight, duration, distance) is lexicographically less, with the origin of the new label |
| `CellCustomizer.LowerLevelStays` | include/customizer/cell_customizer.hpp:122-134 | Work inside a cell changes no finished matrix of the level below |
| `CellCustomizer.CellDoneProgress` | include/customizer/cell_customizer.hpp:124-133 | Cells of a level may be processed in any order: each one finishes its own matrix and leaves the others as they are |
| `Walks.DistanceInValues` | include/customizer/cell_customizer.hpp:183-194 | A distance is the sums of weights, durations and distances along some walk; no walk has less weight, nor of the same weight less duration, nor of the same duration less distance |
| `MultiLevel.BoundaryNodes` | include/partitioner/cell_storage.hpp:256-291 | A boundary node is a source exactly with a forward edge into its cell, and a destination exactly with a backward one or without a forward one |
| `Search.SkippedArcsAreCovered` | include/customizer/cell_customizer.hpp:155-162 | Not scanning the clique arcs of a node that was reached by a clique arc loses nothing: they are relaxed already, as well as if they had been scanned |
| `Search.ParentCovers` | include/customizer/cell_customizer.hpp:155-162 | The reason for this: the parent has relaxed a clique arc that is no longer than the way over the node |
| `Search.LeastIsExact` | include/customizer/cell_customizer.hpp:65-70 | A node leaves the heap with its exact distance |
| `Search.ExhaustedIsComplete` | include/customizer/cell_customizer.hpp:65-84 | When the heap is empty, exactly the reachable nodes are settled |
| `Search.StepKeepsInv` | include/customizer/cell_customizer.hpp:65-84 | Every iteration keeps the invariant of the search: labels are lengths of walks, settled labels are exact, and all arcs of settled nodes are relaxed or covered |
| `MultiLevel.CliqueChains` | include/customizer/cell_customizer.hpp:155-161 | The matrix of a sub-cell satisfies the triangle inequality, including that the chained entry exists |
| `MultiLevel.Expand` | include/customizer/cell_customizer.hpp:164-200 | A walk over clique and border arcs stands for a walk of the same length over base arcs |
| `MultiLevel.Contract` | include/customizer/cell_customizer.hpp:164-232 | A walk over base arcs between boundary nodes of sub-cells is matched by a walk over clique and border arcs that is no longer |
| `MultiLevel.OverlayKeepsDistances` | include/customizer/cell_customizer.hpp:138-233 | Between sources and destinations of a cell, the overlay of sub-cell matrices has exactly the distances of the cell |
| `QueryHeap.QueryHeap.Clear` | include/util/query_heap.hpp:168-173 | Afterwards nothing was inserted, although index entries of earlier searches remain |
| `QueryHeap.QueryHeap.Insert` | include/util/query_heap.hpp:179-186 | The node gets this label and is open; all other labels stay |
| `QueryHeap.QueryHeap.GetKey` | include/util/query_heap.hpp:209-213 | The weight of the label of an inserted node |
| `QueryHeap.QueryHeap.GetData` | include/util/query_heap.hpp:188-193 | The rest of that label |
| `QueryHeap.QueryHeap.DeleteMin` | include/util/query_heap.hpp:275-282 | An open node with the least weight, and of several the one that was inserted first, is closed and returned; the labels stay readable |
| `QueryHeap.QueryHeap.DecreaseKey` | include/util/query_heap.hpp:302-309 | Only the weight of this label changes, and the order in the heap with it |
| `QueryHeap.QueryHeap.SetData` | include/util/query_heap.hpp:188-193 | Only the data of this label changes |
| `FlatBytes.ReadInt16Bytes` | features/support/flatbuffers.js:925-935 | Two little-endian bytes read back as the integer that was written, in 16 bits with sign |
| `FlatBytes.ReadInt32Bytes` | features/support/flatbuffers.js:941-943 | The same for four bytes |
| `FlatBytes.LowestByteFirst` | features/support/flatbuffers.js:1008-1031 | Integers are written with the lowest byte first |
| `FlatBytes.ReadsLowestByteFirst` | features/support/flatbuffers.js:925-943 | They are read so, too, with the highest bit for the sign |
| `FlatBytes.FieldStays` | features/support/flatbuffers.js:1109-1112 | What `__offset` finds in a table does not change when more is built in front of it |
| `FlatBytes.IndirectStays` | features/support/flatbuffers.js:1203-1205 | A reference resolves to the same distance from the end of the buffer for ever |
| `FlatBuilder.SmallerAlignment` | features/support/flatbuffers.js:294-298 | A multiple of a power of two is one of every smaller power |
| `FlatBuilder.PaddingAligns` | features/support/flatbuffers.js:296-298 | The padding aligns the buffer for what is written behind it |
| `FlatBuilder.Builder.GrowByteBuffer` | features/support/flatbuffers.js:566-579 | The new buffer is twice as long and ends with the old bytes; it throws exactly from a gigabyte on |
| `FlatBuilder.Builder.Reserve` | features/support/flatbuffers.js:300-305 | Doubling ends with enough room; it throws exactly if what is needed exceeds the largest size that the buffer can be doubled to. What was written keeps its distance from the end |
| `FlatBuilder.Builder.Prep` | features/support/flatbuffers.js:290-308 | Exactly the padding is written in front of the old bytes, there is room for the element, and `minalign` is the largest size so far; throws exactly if padding and element do not fit |
| `FlatBuilder.Builder.Pad` | features/support/flatbuffers.js:313-317 | That many zeros in front |
| `FlatBuilder.Builder.AddInt8` | features/support/flatbuffers.js:366-369 | One byte in front, without padding; throws exactly if it does not fit |
| `FlatBuilder.Builder.AddInt16` | features/support/flatbuffers.js:375-378 | The bytes of the integer in front of its padding, at a multiple of 2 from the end; throws exactly if it does not fit |
| `FlatBuilder.Builder.AddInt32` | features/support/flatbuffers.js:384-387 | The bytes of the integer in front of its padding; throws exactly if it does not fit |
| `FlatBuilder.Builder.AddInt64` | features/support/flatbuffers.js:393-396 | Both words of the integer in front of its padding; throws exactly if it does not fit |
| `FlatBuilder.AddedScalar` | features/support/flatbuffers.js:290-308 | A scalar of s bytes sits at a multiple of s from the end, and everything before stays behind it |
| `FlatBuilder.ScalarIsAligned` | features/support/flatbuffers.js:290-308 | In a finished buffer a scalar is at a multiple of its size from the start as well |
| `FlatBuilder.Builder.AddOffset` | features/support/flatbuffers.js:587-590 | The reference that is written resolves to its target; throws exactly if it does not fit |
| `FlatBuilder.ReferenceResolves` | features/support/flatbuffers.js:587-590 | The written difference leads `__indirect` back to the target |
| `FlatBuilder.Builder.Slot` | features/support/flatbuffers.js:543-545 | The field at the slot is what was written last |
| `FlatBuilder.Builder.AddFieldInt32` | features/support/flatbuffers.js:446-451 | A value that is not the default, or any if defaults are forced, is written and its slot set; otherwise nothing changes; throws exactly if it is written and does not fit |
| `FlatBuilder.Builder.AddFieldOffset` | features/support/flatbuffers.js:494-499 | The same for a reference |
| `FlatBuilder.Builder.StartObject` | features/support/flatbuffers.js:600-613 | All slots of the new object are unset, whatever their number; throws exactly inside of another object, without any change |
| `FlatBuilder.Builder.TrimmedSize` | features/support/flatbuffers.js:627-629 | The slots behind the last one that was set are left out |
| `FlatBuilder.Builder.WriteVtable` | features/support/flatbuffers.js:631-640 | The vtable in front of the table: its size, the size of the object, one offset or 0 for each slot; throws exactly if it does not fit |
| `FlatBuilder.Builder.SamePairs` | features/support/flatbuffers.js:648-652 | Comparing pairs of bytes as integers decides whether the bytes are equal |
| `FlatBuilder.Builder.FindVtable` | features/support/flatbuffers.js:642-657 | An earlier vtable that reads like the one just written is found; if its size can be read, one is found whenever its bytes were recorded |
| `FlatBuilder.Builder.LinkVtable` | features/support/flatbuffers.js:659-673 | Either the new vtable is dropped again and the table refers to the equal earlier one, or it is kept and recorded; no two recorded vtables whose size can be read are equal |
| `FlatBuilder.Builder.EndObject` | features/support/flatbuffers.js:618-677 | Exactly the slots that were set, as far as the vtable is seen, lead from the finished table to their fields, whether its vtable is new or shared, and all earlier bytes keep their places; throws exactly outside of an object, or if table and vtable do not fit together |
| `FlatBuilder.VtableFields` | features/support/flatbuffers.js:1109-1112 | What `__offset` returns for every slot of a table whose vtable was written for these fields |
| `FlatBuilder.AllSeenExactly` | features/support/flatbuffers.js:631-640 | All slots that were set are seen exactly if the vtable has at most 16381 of them |
| `FlatBuilder.Builder.StartVector` | features/support/flatbuffers.js:747-752 | The padding that aligns all elements and the length in front of them; throws exactly inside of an object, or if the greatest room that it needs on the way does not fit |
| `FlatBuilder.VectorStarts` | features/support/flatbuffers.js:747-752 | Both alignments hold together, and the second one pads only if it is larger than a word |
| `FlatBuilder.Builder.EndVector` | features/support/flatbuffers.js:761-764 | The number of elements in front of them |
| `FlatBuilder.Builder.CreateStringOfBytes` | features/support/flatbuffers.js:814-820 | Length, bytes and a final zero, aligned to words; throws exactly inside of an object, or if the string does not fit |
| `FlatBuilder.Builder.CreateString` | features/support/flatbuffers.js:774-821 | The same for a string of UTF-16 units |
| `FlatBuilder.Builder.WriteIdentifier` | features/support/flatbuffers.js:690-701 | The low bytes of the four units in order; throws exactly for an identifier of another length, or if it does not fit with all that is to follow |
| `FlatBuilder.Builder.Finish` | features/support/flatbuffers.js:687-707 | The total length is a multiple of `minalign`, the root resolves, the size prefix is the number of bytes behind it, and the identifier stands exactly the given gap behind the root, which is none after any object; throws exactly for an identifier of another length, or if the greatest room that it needs on the way does not fit |
| `FlatBuilder.IdentifierIsBehindRoot` | features/support/flatbuffers.js:690-705 | The gap is none exactly if something was aligned to words, or the bytes written before are a multiple of four, or of length 3 modulo 4 with `minalign` 2 |
| `FlatBuilder.IdentifierIsMisplaced` | features/support/flatbuffers.js:690-705 | A single byte without alignment puts three bytes between root and identifier |
| `FlatBuilder.RootIsAligned` | features/support/flatbuffers.js:703-704 | After the last padding, the root and the size need no padding of their own |
| `FlatReader.PresentExactlyIfSet` | features/support/flatbuffers.js:1109-1112 | After any later calls, `__offset` is 0 for an unset slot, and not 0 for a set one exactly if it is seen, for distances below 2^16 |
| `FlatReader.UnknownSlotIsAbsent` | features/support/flatbuffers.js:1109-1112 | Slots beyond those of the object read as absent |
| `FlatReader.FoundExactlyIfNear` | features/support/flatbuffers.js:630-633 | `__offset` leads to the field exactly if its slot is seen and it is less than 2^15 bytes from its table |
| `FlatReader.FarFieldIsMissed` | features/support/flatbuffers.js:630-633 | A completed table whose only field, written right after it was started, is 2^15 bytes away and is not found |
| `FlatReader.TooManyFieldsAreLost` | features/support/flatbuffers.js:636-640 | With 16382 slots no field is seen at all |
| `FlatReader.Int32FieldRoundTrip` | features/support/flatbuffers.js:446-451 | An integer field reads as the integer that was added, after any later calls |
| `FlatReader.OffsetFieldRoundTrip` | features/support/flatbuffers.js:494-499 | A reference field leads to its target, after any later calls |
| `FlatReader.CreatedStringReadsBack` | features/support/flatbuffers.js:774-821 | Through any reference to it, a created string decodes to itself exactly if all its high surrogates are paired |
| `FlatReader.StringIsFound` | features/support/flatbuffers.js:1140-1147 | A reference to a string gives its length, its bytes, and the zero behind them |
| `FlatReader.CreateInt32Vector` | features/support/fbresult_generated.js:870-876 | The elements stand one after the other without padding, behind their number; throws exactly inside of an object, or if the vector does not fit |
| `FlatReader.AddInt32s` | features/support/fbresult_generated.js:872-874 | Adding from the last element to the first needs no padding and never throws once the vector was started |
| `FlatReader.CreatedVectorReadsBack` | features/support/flatbuffers.js:1213-1225 | Length and every element read back through any reference |
| `Utf.EncodeString` | features/support/flatbuffers.js:775-812 | The bytes that are collected for a string |
| `Utf.ReadString` | features/support/flatbuffers.js:1140-1196 | The units that are decoded from a string, reading past its end where a lead byte asks for it |
| `Utf.ReadsAnyBytes` | features/support/flatbuffers.js:1155-1185 | What any bytes are read as, well-formed or not: size and value by the lead byte |
| `Utf.CodePointDecodes` | features/support/flatbuffers.js:1155-1185 | The bytes of a code point decode to it, and are consumed exactly |
| `Utf.DecodesAsReread` | features/support/flatbuffers.js:1140-1196 | What any stored string is read as, unit by unit, well-formed or not |
| `Utf.StringRoundTrip` | features/support/flatbuffers.js:774-812 | A string decodes to itself exactly if every high surrogate is followed by a low one; lone low surrogates survive |
| `Utf.LoneSurrogateIsLost` | features/support/flatbuffers.js:774-812 | A high surrogate on its own is not read back |
| `Utf.EncodedIsUtf8` | features/support/flatbuffers.js:793-811 | The bytes of a code point match the grammar of section 4 of RFC 3629 exactly if it is a scalar value |
| `Utf.WellFormedIsUtf8` | features/support/flatbuffers.js:774-812 | Well-formed UTF-16 (section 2.2 of RFC 2781) is stored as well-formed UTF-8 |
| `GraphContractorAdaptors.ToContractorGraph` | include/contractor/graph_contractor_adaptors.hpp:17-134 | Every edge of the graph joins different nodes, has the least weight (at least 1), duration and distance, each for itself, of all valid input edges that can be travelled in its direction, stands for both directions exactly if their least weights agree, and has the turn of one of these edges; each direction that is offered has an edge at both ends; the edges are sorted by source and target; and the shortest distances by weight are those of the input |
| `GraphContractorAdaptors.EdgesInFields` | include/contractor/graph_contractor_adaptors.hpp:17-134 | The same for every sorted permutation of the doubled input, in terms of the input edges |
| `GraphContractorAdaptors.LeastIsOffered` | include/contractor/graph_contractor_adaptors.hpp:90-107 | The merged values are the least ones that input edges offer, and INVALID exactly without an offer |
| `GraphContractorAdaptors.AddBothEnds` | include/contractor/graph_contractor_adaptors.hpp:23-61 | Each valid edge is stored at both ends, with a weight of at least 1 |
| `GraphContractorAdaptors.Compact` | include/contractor/graph_contractor_adaptors.hpp:64-131 | Compaction in place: nothing is overwritten before it was read, and the front of the array becomes the merged groups |
| `GraphContractorAdaptors.GroupShrinks` | include/contractor/graph_contractor_adaptors.hpp:88-129 | A group writes at most as many edges as it read |
| `GraphContractorAdaptors.MergeGroup` | include/contractor/graph_contractor_adaptors.hpp:88-108 | The end of the group, and the least weight, duration and distance of each direction |
| `GraphContractorAdaptors.WriteMerged` | include/contractor/graph_contractor_adaptors.hpp:109-129 | The edges of a group behind those written before, without touching what is still to be read |
| `GraphContractorAdaptors.EntryIsMerged` | include/contractor/graph_contractor_adaptors.hpp:64-131 | Every edge of the result joins different nodes and has the least values of all edges of its pair and direction in the whole list |
| `GraphContractorAdaptors.GroupIsThere` | include/contractor/graph_contractor_adaptors.hpp:64-131 | Every pair of different nodes with an edge is represented |
| `GraphContractorAdaptors.EntriesAreOrdered` | include/contractor/graph_contractor_adaptors.hpp:64-131 | The result is sorted by source and target, with at most one edge for each pair and direction |
| `GraphContractorAdaptors.StoredAtBothEnds` | include/contractor/graph_contractor_adaptors.hpp:39-60 | Every edge is also stored at its other end, with the same weight and opposite directions |
| `GraphContractorAdaptors.CostsAtBothEnds` | include/contractor/graph_contractor_adaptors.hpp:109-117 | The durations and distances at both ends agree exactly if the directions had different weights, or the same durations and distances |
| `GraphContractorAdaptors.CostsMayDiffer` | include/contractor/graph_contractor_adaptors.hpp:109-117 | Two edges of one weight but different durations for which they do not agree |
| `GraphContractorAdaptors.DistancesAreKept` | include/contractor/graph_contractor_adaptors.hpp:17-134 | Between all pairs of nodes, the graph has the same shortest distances, by weight, as the valid input with weights of at least 1 |
| `GraphContractorAdaptors.BothSidesSeeTheSame` | include/contractor/graph_contractor_adaptors.hpp:109-129 | The forward edges at the sources and the backward edges at the targets are the same arcs |
| `Sorting.Sort` | include/contractor/graph_contractor_adaptors.hpp:62 | A sorted permutation |
| `Permutation.OrderingToPermutation` | include/util/permutation.hpp:60-67 | The inverse of the ordering |
| `Permutation.InplacePermutation` | include/util/permutation.hpp:22-57 | Every element ends at the place that the permutation gives it |
| `Permutation.MoveCycle` | include/util/permutation.hpp:45-55 | One cycle is moved with a single buffer, and no element of another cycle |
| `Permutation.CycleGoesOn` | include/util/permutation.hpp:49-53 | Each swap of the buffer places one more element of the cycle, and the next one is still untouched |
| `Permutation.ReorderedByInverse` | include/util/permutation.hpp:60-67 | Permuting by the inverse of an ordering puts the elements into this order |
| `EdgeContainer.MergableIsSameKey` | include/contractor/contracted_edge_container.hpp:26-49 | Edges are mergable exactly if they agree in everything but the distance |
| `EdgeContainer.ComparesByFields` | include/contractor/contracted_edge_container.hpp:26-44 | Edges are compared by source, target, shortcut, turn, weight, duration and directions, in this order |
| `EdgeContainer.ContractedEdgeContainer.Insert` | include/contractor/contracted_edge_container.hpp:52-59 | The inserted edges belong to every graph |
| `EdgeContainer.ContractedEdgeContainer.Filter` | include/contractor/contracted_edge_container.hpp:61-78 | An edge belongs to this graph exactly if both ends are allowed, and to all others as before |
| `EdgeContainer.ContractedEdgeContainer.MarkContained` | include/contractor/contracted_edge_container.hpp:84-123 | The stateful removal of contained edges is a fold over the new edges |
| `EdgeContainer.ScanExposes` | include/contractor/contracted_edge_container.hpp:90-123 | At every point of this fold, each new edge so far is either marked at an equal old one or kept |
| `EdgeContainer.ContractedEdgeContainer.EnforceSorting` | include/contractor/contracted_edge_container.hpp:134-146 | Edges and flags are permuted together, into sorted order |
| `EdgeContainer.ContractedEdgeContainer.Merge` | include/contractor/contracted_edge_container.hpp:80-147 | The next graph consists of what it had and the merged edges, up to the comparison; all other graphs stay the same; every edge is an old or a new one and no old one is lost; the list is sorted, by source and target first; strictly sorted old edges, or old edges apart from the new ones, end strictly sorted exactly if the merge is clean |
| `EdgeContainer.MergeExposes` | include/contractor/contracted_edge_container.hpp:80-147 | The same as a law of the scan and any sorting permutation |
| `EdgeContainer.MarkedExactly` | include/contractor/contracted_edge_container.hpp:94-122 | A new edge that is in the strictly sorted list of old ones is found and marked exactly if no new edge before it comes after it in the comparison; else it is stored again |
| `EdgeContainer.ScanPasses` | include/contractor/contracted_edge_container.hpp:103-111 | The scan has passed exactly the old edges that are less than a new edge so far |
| `EdgeContainer.MergeIsStrict` | include/contractor/contracted_edge_container.hpp:90-146 | The merged list is free of duplicates exactly if the new edges that are there already come in order and the others are different |
| `EdgeContainer.StrictMergesCleanly` | include/contractor/contracted_edge_container.hpp:90-146 | So it is with strictly sorted new edges |
| `EdgeContainer.ParallelEdgeIsStoredTwice` | include/contractor/contracted_edge_container.hpp:94-122 | Old edges a, b with a before b, new edges b, a: the edge a is stored twice |
| `EdgeContainer.ContractedEdgeContainer.MakeEdgeFilters` | include/contractor/contracted_edge_container.hpp:149-162 | For every graph, exactly its edges are selected |
| `ExcludableGraph.AlwaysAllowed` | include/contractor/contract_excludable_graph.hpp:45-52 | The nodes that every filter allows |
| `ExcludableGraph.ContractShared` | include/contractor/contract_excludable_graph.hpp:43-82 | The edges returned and the core graph are, with their multiplicity, the two parts of the contracted graph; every edge outside of the core has an end that all filters allow |
| `ExcludableGraph.AddShared` | include/contractor/contract_excludable_graph.hpp:61-77 | The shared edges are exposed for each filter exactly where it allows both ends |
| `ExcludableGraph.ContractFiltered` | include/contractor/contract_excludable_graph.hpp:84-91 | The edges are, with their multiplicity, those of the contracted part of the core that the filter allows |
| `ExcludableGraph.CoreContractedIsAllowed` | include/contractor/contract_excludable_graph.hpp:84-91 | These edges join allowed nodes only |
| `ExcludableGraph.MergeFiltered` | include/contractor/contract_excludable_graph.hpp:84-92 | For every filter, exactly the allowed shared edges and the edges of its own contracted core are exposed, and every edge of the list is one of these |
| `ExcludableGraph.ContractWithFilters` | include/contractor/contract_excludable_graph.hpp:38-97 | For every filter, the result selects exactly the edges of the first contraction outside of its core that the filter allows, and the edges of the contraction of what it allows of that core; none of them touches an excluded node; the list is sorted by source and target |
| `ExcludableGraph.ContractFullGraph` | include/contractor/contract_excludable_graph.hpp:15-25 | Without exclusion, all edges of the contracted graph are selected, sorted by source and target |
| `ExcludableGraph.ContractExcludableGraph` | include/contractor/contract_excludable_graph.hpp:27-97 | The same, and without any exclusion all edges of the contracted graph |
| `ExcludableGraph.ExposedIsAllowed` | include/contractor/contract_excludable_graph.hpp:71-92 | The reason for this: allowed ends are part of what merging compares |
| `Snapping.Nearest` | include/util/static_rtree.hpp:548-614 | The accepted candidates are exactly the valid ones that are tiny at the nearest location or big at the first big one, among those that are looked at before one ends the search |
| `Snapping.LocationFilter.Use` | include/engine/geospatial_query.hpp:144-193 | A candidate is used exactly if it is valid and lies at its location; the remembered locations are those of the first valid and the first valid big candidate |
| `Snapping.LocationFilter.Terminates` | include/engine/geospatial_query.hpp:194-210 | The search ends exactly if the candidate is farther than the big component or than allowed |
| `Snapping.AlternativesAreBig` | include/engine/geospatial_query.hpp:302-315 | Everything accepted away from the nearest location is big, and lies at one location |
| `Snapping.EndingEarlyLosesNothing` | include/engine/geospatial_query.hpp:205-209 | In a stream ordered by distance, ending early accepts the same candidates as going on to the first one that is too far away |
| `Snapping.AddToCandidates` | include/engine/geospatial_query.hpp:229-300 | One step of the choice between edges of a segment |
| `Snapping.ReplacedIfBetter` | include/engine/geospatial_query.hpp:281-299 | An edge of a segment is replaced exactly unless it is better than the new one: both directions enabled first, then the lower position |
| `Snapping.AllAddedIsSelection` | include/engine/geospatial_query.hpp:229-300 | The choice leaves exactly the best edges of all segments, exactly if each has a unique best one |
| `Snapping.AllAddedIsChoice` | include/engine/geospatial_query.hpp:229-300 | Whatever the edges, the choice leaves one of each segment that no other one is better than |
| `Snapping.ChoiceIsOrderIndependent` | include/engine/geospatial_query.hpp:229-300 | The chosen edges are the same for every order of the results, exactly if every segment has a unique best edge |
| `Snapping.TiesGoToTheLast` | include/engine/geospatial_query.hpp:281-299 | Of two equally good edges of a segment, the one that comes last is chosen |
| `Snapping.MakeAlternativeBigCandidates` | include/engine/geospatial_query.hpp:216-317 | The results are split by location, and each part is reduced by the choice |
| `Snapping.NearestCandidatesWithAlternative` | include/engine/geospatial_query.hpp:121-213 | For each pair of ids among the candidates that are reached, near enough and usable in some direction, and that lie at the nearest usable location (or, away from it, at the first big one), one edge with exactly those directions enabled that pass all checks: with both directions if any has, and then with the lowest position |
| `Snapping.TakenInFields` | include/engine/geospatial_query.hpp:121-213 | What is accepted, in terms of the stream, the checks and the distances |
| `Snapping.ReachedIsSearched` | include/engine/geospatial_query.hpp:194-210 | The search goes on exactly while candidates are within the allowed distance, and no farther than the first big usable one |
| `Snapping.ChoiceInFields` | include/engine/geospatial_query.hpp:229-300 | What is chosen of it, in terms of ids, enabled directions and positions |
| `PhantomNodes.SegmentDataContainer.MirroredIndex` | include/extractor/segment_data_container.hpp:138-181 | The mirrored index in reverse order addresses the same segment between the same two nodes |
| `PhantomNodes.MirroredValues` | include/extractor/segment_data_container.hpp:138-181 | Equal values in both directions of every segment, exactly if the reverse values are the forward ones backwards |
| `PhantomNodes.SplitValues` | include/engine/geospatial_query.hpp:362-442 | Sums before and behind the segment and the truncated shares of its value, for weights and for durations |
| `PhantomNodes.SplitConserves` | include/engine/geospatial_query.hpp:362-442 | Where the reverse values mirror the forward ones, the four parts add up to the whole geometry exactly if no special id keeps a part unsplit: with no reverse segment, if the share of the value is below 1 |
| `PhantomNodes.GeometryIsConserved` | include/engine/geospatial_query.hpp:358-442 | The same for the values of a stored geometry |
| `PhantomNodes.UnsplitCountsTwice` | include/engine/geospatial_query.hpp:431-442 | Without a reverse segment, a point at the end of a segment counts its value in both directions |
| `PhantomNodes.SplitDistances` | include/engine/geospatial_query.hpp:376-428 | Lengths of the geometry before and behind the segment, and from its ends to the point |
| `PhantomNodes.DistancesAddUp` | include/engine/geospatial_query.hpp:376-428 | These exceed the length of the geometry by exactly the detour over the point |
| `PhantomNodes.SegmentIsSplit` | include/engine/geospatial_query.hpp:431-442 | With both ids, the two shares make up the segment exactly |
| `PhantomNodes.PartIsRoundedDown` | include/engine/geospatial_query.hpp:432-442 | The share is rounded down, and complete at the ends of the segment |
| `PhantomNodes.CheckValidity` | include/engine/geospatial_query.hpp:445-454 | A source needs all segments to be valid, a target those up to the snapped one |
| `PhantomNodes.TargetsCoverTheGeometry` | include/engine/geospatial_query.hpp:448-454 | The two target ranges meet in the snapped segment and leave no other one out |
| `RouteLegs.CollapseInternalRouteResult` | include/engine/internal_route_result.hpp:87-152 | One leg for each waypoint, along all segments up to the next one; the first segment of each joined path has the weight and duration of the source in its direction added, and nothing else is changed; the weight of the route is unchanged |
| `RouteLegs.BlockInFields` | include/engine/internal_route_result.hpp:106-147 | Where every segment of every joined leg stands, and what it holds |
| `RouteLegs.LegOfWaypoint` | include/engine/internal_route_result.hpp:104-147 | One leg for every waypoint that starts one: the join of its block |
| `RouteLegs.BlockIsJoined` | include/engine/internal_route_result.hpp:106-133 | A joined leg goes along all paths of its block, from the first source to the last target |
| `RouteLegs.CollapsingAddsSources` | include/engine/internal_route_result.hpp:129-146 | Total duration and weight grow by exactly the forward or reverse values of the sources of the absorbed legs that are not empty |
| `RouteLegs.TotalDuration` | include/engine/internal_route_result.hpp:64-73 | The sum over all segments of all legs |
| `RouteLegs.AbsorbIsAssociative` | include/engine/internal_route_result.hpp:117-147 | Two absorptions may change places exactly if the leg in the middle has segments, or the last one has none, or nothing would be added |
| `RouteLegs.StagesAgree` | include/engine/internal_route_result.hpp:87-152 | Collapsing in two stages is collapsing once, exactly if no leg without segments, whose source adds something and which is no waypoint, is joined to segments in the first stage |
| `RouteLegs.EmptyLegMatters` | include/engine/internal_route_result.hpp:117-147 | Such a leg for which the stages differ |
| `TrafficSignals.TrafficSignals.Compress` | include/extractor/traffic_signals.hpp:23-36 | The entries of the node in the middle move to the other side, and its own signal goes |
| `TrafficSignals.OneCompression` | include/extractor/traffic_signals.hpp:23-36 | A signal between the ends is that of the last link, or was there before |
| `TrafficSignals.KeepsLastExactly` | include/extractor/traffic_signals.hpp:18-36 | Every order of compressing the inner nodes of a chain gives its first node the signal of the last link towards the last node, exactly if that link has a signal or no other node of the chain has one of its own towards the last node |
| `TrafficSignals.KeepsFirstExactly` | include/extractor/traffic_signals.hpp:18-36 | The same for the direction from the last node to the first |
| `TrafficSignals.FromTheLastReaches` | include/extractor/traffic_signals.hpp:23-36 | Compressing from the last inner node to the first makes any signal towards the last node one of the whole chain |
| `TrafficSignals.ChainKeepsSignals` | include/extractor/traffic_signals.hpp:18-36 | Where signals join neighbours only, both directions keep the signal of their last link in every order |
| `TrafficSignals.ShortcutMayMatter` | include/extractor/traffic_signals.hpp:23-36 | With a signal between nodes of the chain that are no neighbours, two orders differ |
| `TrafficSignals.TrafficSignals.CompressChain` | include/extractor/traffic_signals.hpp:23-36 | A run of compressions, one for each choice |
| `TrafficSignals.InnerSignalsGo` | include/extractor/traffic_signals.hpp:23-36 | Of the signals at nodes, exactly those of the inner nodes go |
| `TrafficSignals.ElsewhereNothingChanges` | include/extractor/traffic_signals.hpp:23-36 | A signal that is not between two nodes of the chain stays as it is |
| `Polyline.EncodeNumber` | src/engine/polyline_compressor.cpp:13-34 | The characters of a number, in 32-bit arithmetic |
| `Polyline.ExampleNumber` | src/engine/polyline_compressor.cpp:13-34 | The number -17998321 is written as in the example of the format |
| `Polyline.DecodeNumber` | src/engine/polyline_compressor.cpp:38-57 | The number in the next at most seven characters |
| `Polyline.NumberDecodes` | src/engine/polyline_compressor.cpp:38-57 | An encoded number is read back whatever follows it |
| `Polyline.NumberRoundTrip` | src/engine/polyline_compressor.cpp:13-57 | A number decodes to itself exactly if it lies between -2^30 and 2^30 - 1 |
| `Polyline.LargeNumberIsLost` | src/engine/polyline_compressor.cpp:13-57 | Of 2^30 nothing but a zero is left |
| `Polyline.EncodePolyline` | include/engine/polyline_compressor.hpp:24-50 | The differences of the rounded coordinates, one after the other |
| `Polyline.DecodePolyline` | include/engine/polyline_compressor.hpp:57-78 | The running sums of the decoded differences, scaled |
| `Polyline.LineDecodes` | include/engine/polyline_compressor.hpp:24-78 | The running sums are the rounded coordinates themselves: errors do not add up |
| `Polyline.LineNeeds` | include/engine/polyline_compressor.hpp:24-78 | A line that is decoded right takes at least the characters that were written, and more if a difference cannot be encoded |
| `Polyline.UsuallyEncodable` | include/engine/polyline_compressor.hpp:24-50 | All differences can be encoded with five digits, and with valid coordinates |
| `Polyline.PolylineRoundTrip` | include/engine/polyline_compressor.hpp:24-78 | A line decodes to its rounded coordinates exactly if every difference can be encoded; rounding is exact at six digits, and goes to the nearest fifth digit otherwise |
| `Base64.EncodeBase64` | include/engine/base64.hpp:48-73 | The characters in a row and the padding are the encoding by groups of section 4 of RFC 4648 |
| `Base64.IsTheAlphabet` | include/engine/base64.hpp:48-73 | The characters of table 1 of RFC 4648, in its order, and the padding |
| `Base64.TestVectors` | include/engine/base64.hpp:48-73 | Test vectors of section 10 of RFC 4648 |
| `Base64.DecodeBase64` | include/engine/base64.hpp:105-117 | Decoding with zeros for the padding, cut at the end, for complete and incomplete last groups; fails exactly for other characters |
| `Base64.EncodedLength` | include/engine/base64.hpp:48-73 | Four characters for each three bytes or part of them |
| `Base64.EncodedConcatenation` | include/engine/base64.hpp:48-73 | Encoding distributes over a concatenation after a multiple of three bytes |
| `Base64.RoundTrip` | include/engine/base64.hpp:48-117 | Decoding gives back every sequence of bytes that is not empty |
| `Base64.UnpaddedRoundTrip` | include/engine/base64.hpp:48-117 | The padding does not matter: the characters alone decode to the data as well |
| `Watchdog.Construct` | include/engine/data_watchdog.hpp:37-68 | Starts in a state that satisfies the invariant, or fails exactly if a region is missing |
| `Watchdog.WatcherKept` | include/engine/data_watchdog.hpp:91-127 | Whatever happens, the factory stands for a pair that was registered, except while it is swapped under its lock |
| `Watchdog.HistoryKept` | src/storage/storage.cpp:84-133 | The register only moves forward, and a timestamp belongs to one region only |
| `Watchdog.InvKept` | include/engine/data_watchdog.hpp:77-127 | Every action of every thread keeps the invariant |
| `Watchdog.HistoryWasRegistered` | src/storage/storage.cpp:91-133 | The recorded pairs were in the register while nobody held the mutex |
| `Watchdog.ResultsAreConsistent` | include/engine/data_watchdog.hpp:77-89 | In every interleaving each reader gets the factory of a pair that was registered at one instant, and never an earlier one than a reader before |
| `Watchdog.WaitsWithCurrentFactory` | include/engine/data_watchdog.hpp:97-101 | When the watcher goes to wait, its factory is that of the registered pair |
| `Watchdog.WriterRegisters` | src/storage/storage.cpp:91-133 | Whatever comes in between, the writer adds the keys that it was given to the register, with timestamps raised by one, and frees the mutex |
| `Watchdog.WatcherWaits` | include/engine/data_watchdog.hpp:91-101 | With nothing new, the watcher only goes to wait |
| `Watchdog.WatcherCatchesUp` | include/engine/data_watchdog.hpp:97-127 | With something new and no reader inside, the watcher goes once round; afterwards the factory is that of the registered pair and the mutex is free |
| `Watchdog.ReaderFinishes` | include/engine/data_watchdog.hpp:77-89 | A reader that enters gets the current factory and leaves everything else as it was |
| `Watchdog.ThreadsGoOn` | include/engine/data_watchdog.hpp:77-127 | No thread is stuck: only the mutex and the lock of the factory make it wait |

## Left out

- Overflow of 32-bit weights, durations and distances, except in the FlatBuffers and polyline codecs
  and in the merging of edges: sums are unbounded integers, and an INVALID weight is a value of its own.
- Rounding of floating point: distances, ratios and coordinates are exact numbers. Geometry on the
  sphere, bearings, projections and the approach and exclusion checks are parameters of a query.
- CellCustomizer.Customize: the cells of a level run one after the other, in any order. Threads inside
  of one level are not interleaved more finely; that they write disjoint matrices is proved.
- CellCustomizer.CustomizeCell: how cells, their boundary nodes and the sorted adjacency of the graph
  are built (include/partitioner/cell_storage.hpp:256-291, include/partitioner/multi_level_graph.hpp)
  is taken as the predicates `Stores` and `Along`, with positive weights and a mirror of every edge.
- QueryHeap.QueryHeap.DeleteMin: the d-ary heap of Boost is a set of which the least element is taken.
- Sorting.Sort: stands for any sorting algorithm, as parallel sorts leave the order of equals open.
- FlatBuilder.Builder.AddFieldInt32: the same for 8, 16 and 64 bits, and for structs, would only repeat it.
- FlatBuffers floating point fields, `clear`, `requiredField`, `getBufferIdentifier`, and the reading of
  size-prefixed buffers, whose prefix the generated readers do not skip.
- ExcludableGraph.ContractExcludableGraph: the contraction itself with its witness search is a
  parameter that introduces no new nodes and keeps what must not be contracted in the core; that it
  preserves distances is not part of this model. Edge identities and counts of original edges are left out.
- `toEdges` beyond its order: it copies fields one by one.
- Snapping.MakeAlternativeBigCandidates: a candidate stands for the phantom node that is made from it.
- Snapping.EndingEarlyLosesNothing: the order of the stream by great-circle distance is a condition; the
  spatial index orders by distance in the projection.
- PhantomNodes.SplitDistances: the length between two points is a parameter.
- Polyline.EncodePolyline: rounding is exact, also where a tenth is not a binary fraction. Differences
  beyond 32 bits, which have no defined conversion, are excluded.
- Polyline.DecodePolyline: running sums are unbounded.
- Base64.DecodeBase64: a single character in the last group, or more padding than bytes, for which the
  original reads or erases outside of its strings.
- Watchdog.WatcherKept: shutdown and termination, as the flag for it is written without the mutex; waiting
  may end at any time; there is one writer at a time, as the lock file ensures.
- Logging, debug assertions and warnings, input and output, shared memory itself.
