# GoKitt: transducers, graph store, chunks and notes

A model in Dafny of the cores of GoKitt, with proofs of what they promise.

**The transducer (`pkg/fst`).** A sorted stream of byte keys and 64-bit values is compiled into one
byte string, which then answers lookups, ordered scans and merges by itself. The proof goes in layers,
each with a simple meaning:

1. A *map* from keys to values is what every operation is about (`Keys.dfy`).
2. A *graph* of states by address means a map: the sum of outputs along the path a key spells
   (`Transducer.dfy`, `Walking.dfy`). Every state points to address 0 or to an earlier address from 16 on.
3. The *unfinished stack* means a map as well (`StackMeaning.dfy`). Freezing, popping, adding a suffix
   and shifting outputs are shown to change that meaning by exactly what was inserted
   (`StackSteps.dfy`, `OutputShift.dfy`), and the objects that do it are proved against those steps
   (`Unfinished.dfy`, `NodePool.dfy`, `NodeRegistry.dfy`, `FstBuilder.dfy`).
4. *Bytes*: each state in one of three layouts, written backwards (`Packing.dfy`, `CommonInputs.dfy`,
   `StateBytes.dfy`, `Encoder.dfy`), and read back from its last byte down (`StateReading.dfy`,
   `Decoder.dfy`). `FstFile.dfy` says when a byte string is a transducer for a map.
5. *Readers* of those bytes: lookups (`Fst.dfy`), the depth-first iterator with its stacks, automaton
   filter and chain pop (`Automata.dfy`, `Frontier.dfy`, `FstIterator.dfy`, `Scans.dfy`), the merge of
   several iterators (`Merging.dfy`, `MergedValues.dfy`, `Vellum.dfy`), and the in-memory index (`Wrapper.dfy`).

The main results: building from any map and looking up is the identity on every byte string
(`Wrapper.BuildThenGet`); a range scan gives exactly the accepted keys of its range in order
(`Scans.Range`); a prefix search gives exactly the keys with the prefix; merging gives the union; and the
bytes determine the map (`Uniqueness.MeaningUnique`).

**The graph store (`internal/graphstore`).** An undirected graph lives in tables, with a cache beside
them: neighbour sets, a flat slab of edges, an edge counter and a dense numbering of identifiers.
`GraphStore.SQLiteStore.Valid` says that the cache refines the tables; every vertex and edge operation
re-establishes it, whether it succeeds or is refused, and a run of them from an empty or freshly loaded
cache cannot be told from the same run on the tables alone (`GraphRuns.Run`). On top of it come the query
engine (`Joins.dfy`, `QueryEngine.dfy`), whose rows are exactly the assignments of identifiers that the
tables support (`RowMeanings.Ask`), breadth-first paths, neighbourhoods, traversal and components
(`Reach.dfy`, `AlgoPaths.dfy`, `Traversal.dfy`, `Components.dfy`), page ranks over exact reals, with how
fast they settle (`Ranking.dfy`, `RankRuns.dfy`), and neighbourhood coefficients (`AlgoStructural.dfy`,
`Coefficients.dfy`).

**Two smaller parts.** A document is split into sentence spans (`Whitespace.dfy`, `SentenceSpans.dfy`), which
are packed into leaves and parents (`ChunkPacking.dfy`, `Chunker.dfy`). `NoteStore.dfy` keeps every version
of a note and answers what a note was at a time.

Where the code does less than one would expect, the model keeps the code and says exactly when it is
right:

- A successful seek may end out of bounds, because the end is not tested on an exact hit:
  `FstIterator.FSTIterator.InBoundsWhen` says exactly when, `FstIterator.EmptyRangeFindsKey` gives a
  scan of an empty range that starts on a key.
- A merge treats a fresh iterator on the empty key as exhausted and drops its whole input:
  `Vellum.MergeWhole` says when the data written is a transducer for the union. It also goes on past the
  end of a bounded iterator: `BoundedMerges.MergedRanges`.
- A query with an edge from a variable to itself is pruned but never tested for the loop:
  `Traps.ExactWhen` characterises the queries that are right in every world a store can be in, and
  `StoredWorlds.Ensnare` gives the store in which any other one goes wrong.
- The clustering coefficient counts looped neighbours: `AlgoStructural.CoefficientExact` says when that
  matters, `LoopedStores.LoopedNeighbours` gives a store where it does. A vertex linked to itself is taken
  for one of its own neighbours as well: `Coefficients.CoefficientProper`.
- A repeated key keeps its first value although the count grows: `FstBuilder.Builder.Insert`,
  `FstBuilder.FirstValueKept`.
- Creating a note that exists breaks its history unless it replaces the only version or one that began
  at the same time: `NoteStore.CreateAgain`, with a run in `NoteStore.CreateTwice`.
- Adding a vertex to a cold cache keeps the rest from ever being loaded: `GraphStore.AddToColdCache`.
- Path searches, neighbourhoods and neighbourhood coefficients do not load the cache, so before anything else
  has they answer as if there were no edges: `ColdSearches.AskColdAndWarm`.
- A query pattern without a filter misses the vertices that never had an edge: `QueryRows.LonelyVertex`.
- A note restored within the second of its last change has two versions valid at once:
  `NoteStore.RestoreInTheSameSecond`; `NoteStore.Tiles` says exactly when that is.
- An automaton that gets into the state numbered as none is stopped there: `Automata.ContainsWhen`,
  with one in `Automata.StoppedAtNone`.
- A document whose last stretch is white space, but not only of one byte, such as a no-break space, loses it:
  `SentenceSpans.SplitSentencesWithSpans` says exactly when, `SentenceSpans.NoBreakSpaceLost` gives one.

Numbers: `U64` and `U32` are bounded; sums that Go computes in 64 bits are reduced modulo 2^64, and the
proofs show where that never matters. Readers assume data shorter than 2^63 bytes, as a Go slice is.
The registry needs a positive table size and bucket size, because the code dereferences a nil cell
otherwise.

## Model

| member | source | states |
|---|---|---|
| `Packing.PackedSizeLeast` | GoKitt/pkg/fst/writer.go:75-92 | the size chosen for a number is the least one that holds it |
| `Packing.PackedRoundTrip` | GoKitt/pkg/fst/writer.go:59-68 | a number written in n little-endian bytes reads back as itself whenever it fits them |
| `Packing.UnpackedRoundTrip` | GoKitt/pkg/fst/pack.go:49-55 | bytes read as a number are the bytes that number is written as |
| `Packing.ReadPackedUint` | GoKitt/pkg/fst/pack.go:49-55 | the shifting loop over at most eight bytes gives their little-endian value |
| `Uniqueness.DeltaInjective` | GoKitt/pkg/fst/pack.go:17-23 | different destinations, each 0 or an earlier address, have different deltas: taking the delta from the base loses nothing |
| `Packing.EncodePackSize` | GoKitt/pkg/fst/pack.go:27-38 | two sizes of at most eight packed into a byte unpack as the same two sizes |
| `StateReading.CountReads` | GoKitt/pkg/fst/pack.go:42-47 | the count round trip: any number of transitions up to 256 reads back from the header bits, or from the byte below when they are 0, where 1 stands for 256 |
| `CommonInputs.TablesInverse` | GoKitt/pkg/fst/common.go:31-547 | the two 256-entry tables are inverse permutations: each undoes the other |
| `CommonInputs.CommonRoundTrip` | GoKitt/pkg/fst/common.go:19-29 | a byte with a short code decodes from that code to itself; other bytes have none |
| `Transducer.LookupExtends` | GoKitt/pkg/fst/builder.go:156-173 | encoding further states changes the value of no key that could be reached before |
| `Transducer.LiveKey` | GoKitt/pkg/fst/fst.go:213-257 | under the address discipline every state that is final or has transitions reaches some accepted key, so there are no dead ends or cycles |
| `StateBytes.AtMost256` | GoKitt/pkg/fst/encoder_v1.go:118-209 | strictly ascending transition bytes are at most 256 |
| `StateBytes.EncodesAppend` | GoKitt/pkg/fst/encoder_v1.go:63-72 | states already in the data stay readable where they are when more is written |
| `Encoder.Writer.WritePackedUintIn` | GoKitt/pkg/fst/writer.go:59-68 | appends exactly the n little-endian bytes and moves the counter by n |
| `Encoder.EncoderV1.Start` | GoKitt/pkg/fst/encoder_v1.go:49-61 | the buffer becomes the 16-byte header with version and type |
| `Encoder.EncoderV1.EncodeState` | GoKitt/pkg/fst/encoder_v1.go:63-72 | appends exactly the bytes of the state in the layout its shape calls for and returns the address of the last one; the shared final state is address 0 and writes nothing |
| `Encoder.EncoderV1.EncodeStateOne` | GoKitt/pkg/fst/encoder_v1.go:74-98 | the one-transition layout: output and destination only when the state does not lead to the one just before it |
| `Encoder.EncoderV1.EncodeStateOneFinish` | GoKitt/pkg/fst/encoder_v1.go:100-116 | the transition byte as a short code in the top byte or a byte of its own before it |
| `Encoder.EncoderV1.EncodeStateMany` | GoKitt/pkg/fst/encoder_v1.go:118-209 | the many-transition layout: final output, outputs, destinations and bytes in reverse, sizes, count, header |
| `Encoder.EncoderV1.ManySizes` | GoKitt/pkg/fst/encoder_v1.go:118-148 | the sizes are the least that hold every delta and every output, and outputs are left out exactly when all are zero |
| `Encoder.EncoderV1.Finish` | GoKitt/pkg/fst/encoder_v1.go:211-227 | the footer with count and root follows |
| `StateReading.PlacedReads` | GoKitt/pkg/fst/decoder_v1.go:106-209 | the codec round trip: wherever a state with up to 256 strictly ascending transitions to address 0 or earlier addresses is placed, reading downwards from its last byte finds its final flag, final output, transition bytes, destinations and outputs, in all three layouts |
| `Decoder.IndexMirrors` | GoKitt/pkg/fst/decoder_v1.go:238-262 | searching the reversed byte run finds the transition at the mirrored place, or none exactly when there is none |
| `Decoder.At` | GoKitt/pkg/fst/decoder_v1.go:106-140 | the struct filled at an address shows the state encoded there; addresses 0 and 1 give the final and the dead state |
| `Decoder.AtSingle` | GoKitt/pkg/fst/decoder_v1.go:142-174 | the fields of a one-transition state, with the implicit destination when the next bit is set |
| `Decoder.AtMulti` | GoKitt/pkg/fst/decoder_v1.go:176-209 | the run boundaries of a many-transition state, counted down from its header |
| `Decoder.FstStateV1.FinalOutput` | GoKitt/pkg/fst/decoder_v1.go:219-224 | the final output of the state shown |
| `Decoder.FstStateV1.TransitionAt` | GoKitt/pkg/fst/decoder_v1.go:230-236 | the byte of transition i in ascending order |
| `Decoder.FstStateV1.TransitionFor` | GoKitt/pkg/fst/decoder_v1.go:238-262 | position, destination and output of the transition on a byte; -1 and the none address exactly without one |
| `NodePool.BuilderNode.Equiv` | GoKitt/pkg/fst/builder.go:368-391 | true exactly for nodes that stand for the same state |
| `NodePool.BuilderNodePool.Get` | GoKitt/pkg/fst/builder.go:433-440 | a node from the free list, which then no longer holds it, or a new one; blank either way |
| `NodePool.BuilderNodePool.Put` | GoKitt/pkg/fst/builder.go:442-449 | the node is cleared and joins the free list |
| `NodeRegistry.Registry.Hash` | GoKitt/pkg/fst/registry.go:61-76 | some bucket of the table, whatever the node |
| `NodeRegistry.Registry.Entry` | GoKitt/pkg/fst/registry.go:48-57 | a hit returns an address whose state in the graph equals the node asked for; a miss leaves a cell that holds the node and no node in two cells, stack, registry or pool at once |
| `NodeRegistry.Registry.OneCell` | GoKitt/pkg/fst/registry.go:84-92 | the one-cell bucket: hit, or the node replaced and handed to the pool |
| `NodeRegistry.Registry.ManyCells` | GoKitt/pkg/fst/registry.go:93-103 | the bucket searched from its front; a hit is promoted, a miss evicts the last cell and promotes it |
| `NodeRegistry.Registry.Promote` | GoKitt/pkg/fst/registry.go:105-110 | the cell moves to the front of its bucket and those before it one place back |
| `NodeRegistry.RotatedKeeps` | GoKitt/pkg/fst/registry.go:105-114 | a promotion changes neither which nodes the table holds nor what the cells show |
| `StackMeaning.SameDown` | GoKitt/pkg/fst/builder.go:137-154 | two stacks alike from some level on, and equal below it, mean the same |
| `StackMeaning.StackLive` | GoKitt/pkg/fst/builder.go:175-187 | every unfinished stack still leads to an accepted key |
| `StackSteps.PopKeeps` | GoKitt/pkg/fst/builder.go:270-278 | freezing the top state at the address of its encoding and popping it leaves the values of all keys as they were |
| `StackSteps.SuffixHolds` | GoKitt/pkg/fst/builder.go:299-316 | adding a suffix adds exactly the new key, with the outputs on its path summing to its value |
| `OutputShift.DifferencesExact` | GoKitt/pkg/fst/builder.go:399-408 | what is kept of a pending and of a new output is at most either, so both uint64 differences of a turn are the exact ones, and one of them is 0 |
| `OutputShift.ShiftNeverWraps` | GoKitt/pkg/fst/builder.go:225-252 | no addition of the shift wraps, because every output above lies on the path of a key whose whole value fits uint64 |
| `OutputShift.ShiftKeepsValues` | GoKitt/pkg/fst/builder.go:225-252 | moving a shared output down the path leaves the output sum of every key as it was |
| `OutputShift.PrefixedLookup` | GoKitt/pkg/fst/builder.go:339-349 | putting a prefix before a node's outputs adds it to the value of every key through it |
| `Unfinished.UnfinishedNodes.PushEmpty` | GoKitt/pkg/fst/builder.go:254-259 | a blank node from the pool on top, in no other place |
| `Unfinished.UnfinishedNodes.PopRoot` | GoKitt/pkg/fst/builder.go:261-268 | the last node taken off |
| `Unfinished.UnfinishedNodes.PopFreeze` | GoKitt/pkg/fst/builder.go:270-278 | the top node taken off with its pending transition made final at the address |
| `Unfinished.UnfinishedNodes.PopEmpty` | GoKitt/pkg/fst/builder.go:280-287 | the top node taken off, with nothing pending |
| `Unfinished.UnfinishedNodes.SetRootOutput` | GoKitt/pkg/fst/builder.go:289-292 | the root becomes final with the output |
| `Unfinished.UnfinishedNodes.TopLastFreeze` | GoKitt/pkg/fst/builder.go:294-297 | the pending transition of the top is appended with the address |
| `Unfinished.UnfinishedNodes.AddSuffix` | GoKitt/pkg/fst/builder.go:299-316 | the bytes pushed one by one, the output on the first, the last one final |
| `Unfinished.UnfinishedNodes.AddOutputPrefix` | GoKitt/pkg/fst/builder.go:339-349 | the prefix added to the final output, to every transition and to the pending one |
| `Unfinished.UnfinishedNodes.FindCommonPrefixAndSetOutput` | GoKitt/pkg/fst/builder.go:225-252 | stops exactly at the common prefix with the last key; every earlier key keeps its output sum; the remainder returned is the new value minus the outputs kept on the prefix |
| `FstBuilder.Builder.constructor` | GoKitt/pkg/fst/builder.go:49-72 | a valid empty build for any positive registry sizes |
| `FstBuilder.Builder.Compile` | GoKitt/pkg/fst/builder.go:156-173 | the address returned holds a state equal to the node, shared or new; earlier states are untouched, and the node ends in one place only |
| `FstBuilder.Builder.Encode` | GoKitt/pkg/fst/builder.go:160-172 | a new state is appended to the bytes, pointing only to 0 or earlier states; the last address is the last byte written, and the cell remembers it |
| `FstBuilder.Builder.CompileFrom` | GoKitt/pkg/fst/builder.go:137-154 | everything above a level is encoded and frozen; no key changes value |
| `FstBuilder.Builder.Insert` | GoKitt/pkg/fst/builder.go:91-112 | accepted exactly for keys not less than the last; a new key gets its value, a repeated non-empty one keeps its first value though the count grows, a repeated empty key takes the new value, and no other key changes |
| `FstBuilder.FirstValueKept` | GoKitt/pkg/fst/builder.go:91-112 | over a whole run of accepted insertions a non-empty key keeps the first value it was given |
| `FstBuilder.LastEmptyKept` | GoKitt/pkg/fst/builder.go:96-100 | over a whole run the empty key keeps the last value it was given |
| `FstBuilder.InsertedKeys` | GoKitt/pkg/fst/builder.go:91-112 | the keys stored after a run are exactly those inserted |
| `FstBuilder.Builder.Share` | GoKitt/pkg/fst/builder.go:91-112 | the outputs kept on the common prefix and the remainder make up the new value |
| `FstBuilder.Builder.Close` | GoKitt/pkg/fst/builder.go:124-135 | the buffer is a transducer for exactly what was inserted, under the root and count in its footer |
| `Uniqueness.ReadOnce` | GoKitt/pkg/fst/decoder_v1.go:106-209 | an address reads as one state only, in every layout |
| `Uniqueness.MeaningUnique` | GoKitt/pkg/fst/fst.go:34-94 | bytes that are a transducer for two maps are one for a single map: different maps never share their bytes |
| `Walking.WalkLookup` | GoKitt/pkg/fst/fst.go:68-94 | a lookup goes on from wherever the first part of its key leads |
| `Fst.FooterReads` | GoKitt/pkg/fst/decoder_v1.go:40-56 | root and count read back from the footer, the count in 64 bits |
| `Fst.HeaderReads` | GoKitt/pkg/fst/encoding.go:66-74 | the version reads back from the header |
| `Fst.FST.GetRoot` | GoKitt/pkg/fst/decoder_v1.go:40-47 | the root the builder wrote |
| `Fst.FST.LenCounts` | GoKitt/pkg/fst/decoder_v1.go:49-56 | the length is the count of every reading of the data |
| `Fst.FST.DecodeAt` | GoKitt/pkg/fst/decoder_v1.go:58-70 | the struct returned shows the state at the address |
| `Fst.FST.Get` | GoKitt/pkg/fst/fst.go:64-94 | found exactly for the keys of the map, with their values, for every byte string |
| `Fst.FST.IsMatchWithVal` | GoKitt/pkg/fst/fst.go:160-166 | final flag and output of the state at the address |
| `Fst.FST.AcceptWithVal` | GoKitt/pkg/fst/fst.go:170-177 | destination and output of the transition, the none address exactly without one |
| `Fst.FST.GetMinKey` | GoKitt/pkg/fst/fst.go:213-234 | a stored key not greater than any other |
| `Fst.FST.GetMaxKey` | GoKitt/pkg/fst/fst.go:236-257 | a stored key not less than any other; the empty key when nothing is stored |
| `Vellum.Load` | GoKitt/pkg/fst/vellum.go:83-85 | refused exactly without a header or with another version; otherwise the map the data stands for |
| `Automata.NeverNoneIfHopeless` | GoKitt/pkg/fst/automaton.go:18-36 | an automaton whose none state is hopeless loses nothing by stopping there |
| `Automata.AutomatonContains` | GoKitt/pkg/fst/automaton.go:40-54 | acceptance of the whole key, except that a run into the none state stops for good; plain acceptance where that state is hopeless |
| `Automata.ContainsWhen` | GoKitt/pkg/fst/automaton.go:40-54 | it is plain acceptance of every key if and only if no key gets into the none state and on to a match |
| `Automata.StoppedAtNone` | GoKitt/pkg/fst/automaton.go:40-54 | counter-example: an automaton that matches every key, and a key it is stopped on |
| `Frontier.AheadPush` | GoKitt/pkg/fst/fst_iterator.go:241-268 | taking a transition keeps every stored key that lies ahead of the scan and adds none |
| `Frontier.AheadPop` | GoKitt/pkg/fst/fst_iterator.go:270-299 | popping a chain of one-transition states in one shot keeps the stored keys ahead, as popping one by one would |
| `Frontier.StackWorkLess` | GoKitt/pkg/fst/fst_iterator.go:270-299 | a pop leaves no more work than there was |
| `FstIterator.FSTIterator.Current` | GoKitt/pkg/fst/fst_iterator.go:179-190 | the value stored for the bytes on the stack, a nil key for the untouched empty key, nothing where no key ends |
| `FstIterator.FSTIterator.Expand` | GoKitt/pkg/fst/fst_iterator.go:220-268 | the inner loop loses no accepted key: it takes the first transition the automaton allows, or finds the state exhausted, with less work left |
| `FstIterator.FSTIterator.Pop` | GoKitt/pkg/fst/fst_iterator.go:276-299 | the chain pop keeps what is ahead and no more work |
| `FstIterator.FSTIterator.NextFrom` | GoKitt/pkg/fst/fst_iterator.go:199-302 | moves to the least stored, accepted key ahead of the given transition, before the end; done exactly when none is, and then points at the root with nothing ahead, or at the least one past the end |
| `FstIterator.FSTIterator.Next` | GoKitt/pkg/fst/fst_iterator.go:195-197 | moves to the least stored, accepted key greater than the current bytes |
| `FstIterator.FSTIterator.PointTo` | GoKitt/pkg/fst/fst_iterator.go:105-174 | moves to the least stored, accepted key at or after the key itself when that is within the bounds, and from the start when it is before it, and fails exactly when there is none before the end; at or past the end it finds the end itself or nothing, because the end is not tested on an exact hit |
| `FstIterator.FSTIterator.Follow` | GoKitt/pkg/fst/fst_iterator.go:138-165 | one byte further, or the last transition before the missing byte |
| `FstIterator.FSTIterator.Reset` | GoKitt/pkg/fst/fst_iterator.go:90-102 | points at the start, with no automaton standing for one that accepts all: the least stored, accepted key of the range, or failure when there is none |
| `FstIterator.FSTIterator.Seek` | GoKitt/pkg/fst/fst_iterator.go:308-310 | points anew: for a key within the bounds at the least stored, accepted key from that key on, for one before the start from the start on, and failure exactly when there is none before the end; for one at or past the end the end itself or nothing |
| `FstIterator.FSTIterator.InBoundsWhen` | GoKitt/pkg/fst/fst_iterator.go:111-115 | a successful seek ends out of bounds if and only if the end is not after both the start and the key asked for |
| `FstIterator.EmptyRangeFindsKey` | GoKitt/pkg/fst/fst_iterator.go:167-173 | counter-example: a scan of an empty range starts by pointing at a stored key |
| `FstIterator.NewIterator` | GoKitt/pkg/fst/fst.go:181-190 | a fresh iterator at the least stored, accepted key of its range, or done when there is none |
| `Scans.Range` | GoKitt/pkg/fst/fst_iterator.go:22-45 | range iteration: for a start before the end, exactly the stored, accepted keys in the range, strictly ascending, each once, with their values |
| `Merging.Read` | GoKitt/pkg/fst/merge_iterator.go:63-68 | the current key is the least an input has left, and nil exactly when it has none |
| `Merging.Advance` | GoKitt/pkg/fst/merge_iterator.go:112-121 | advancing an input takes away exactly its current key |
| `Merging.MergeIterator.Init` | GoKitt/pkg/fst/merge_iterator.go:47-68 | the merge starts at the least key of all |
| `Merging.MergeIterator.UpdateMatches` | GoKitt/pkg/fst/merge_iterator.go:70-101 | finds the least key, all inputs that have it in order, and the merged value, which `MergedValues.UnionMerged` says key by key |
| `Merging.MergeIterator.Current` | GoKitt/pkg/fst/merge_iterator.go:106-108 | the least key of the union of what is left, with its merged value; nothing exactly for an empty union |
| `Merging.MergeIterator.Next` | GoKitt/pkg/fst/merge_iterator.go:112-126 | the union of what is left loses exactly its least key |
| `Merging.UnionWithout` | GoKitt/pkg/fst/merge_iterator.go:112-126 | removing a key from every input removes it from the union and changes nothing else |
| `MergedValues.UnionMerged` | GoKitt/pkg/fst/merge_iterator.go:70-101 | the union is the one map in which a key held by one input keeps its value and a key held by several gets the merge function of all its values, from the first input to the last |
| `MergedValues.MergedFromTwo` | GoKitt/pkg/fst/merge_iterator.go:90-97 | a key in exactly two inputs gets the merge function of the value of the earlier and the value of the later one |
| `Vellum.Merge` | GoKitt/pkg/fst/vellum.go:89-120 | the bytes written are a transducer for the union of what the iterators had left and count its keys; every map they can be read as has, for a key that one iterator had left, its value, and for several the merge function of all their values in iterator order |
| `Vellum.WholeLeft` | GoKitt/pkg/fst/merge_iterator.go:63-88 | a fresh iterator over a whole transducer has all of it left, but nothing at all when the empty key is stored: its nil slice reads as exhausted |
| `Vellum.MergeIsUnion` | GoKitt/pkg/fst/merge_iterator.go:70-101 | leaving out every input that holds the empty key changes the union if and only if there is such an input |
| `Vellum.MergeWhole` | GoKitt/pkg/fst/vellum.go:89-120 | the data that merging fresh iterators over whole transducers writes is a transducer for the union of their maps if and only if none of them holds the empty key; it is always one for the union of those that do not, with colliding values merged in order |
| `BoundedMerges.MergeRanges` | GoKitt/pkg/fst/merge_iterator.go:112-126 | iterators on ranges, merged: the data is a transducer for the union of all keys from where they begin, beyond their ends as well, with colliding values merged in order |
| `BoundedMerges.TailMembers` | GoKitt/pkg/fst/fst_iterator.go:105-115 | the tail of a range goes on from its start past its end, and from its end when the start is past that |
| `BoundedMerges.MergedRanges` | GoKitt/pkg/fst/fst_iterator.go:213-216 | that is the union of the ranges, whatever the merge function, if and only if no transducer stores a key at or after the end of its range |
| `Vellum.MergeMin` | GoKitt/pkg/fst/merge_iterator.go:160-168 | a least one of the values |
| `Vellum.MergeMax` | GoKitt/pkg/fst/merge_iterator.go:171-179 | a greatest one of the values |
| `Vellum.MergeSum` | GoKitt/pkg/fst/merge_iterator.go:182-188 | the sum in 64 bits |
| `Vellum.TotalAppend` | GoKitt/pkg/fst/merge_iterator.go:182-188 | the sum of values one after the other is the sum of the two sums |
| `Wrapper.BuildSortedFST` | GoKitt/pkg/fst/wrapper.go:110-132 | for every map the bytes are a transducer for it that counts its keys |
| `Wrapper.SortTuples` | GoKitt/pkg/fst/wrapper.go:116-118 | the same tuples in strictly ascending key order |
| `Wrapper.IndexReader.constructor` | GoKitt/pkg/fst/wrapper.go:47-53 | opens a transducer for the map it represents |
| `Wrapper.IndexReader.Len` | GoKitt/pkg/fst/wrapper.go:56-58 | the count that every reading of the data carries, in 64 bits |
| `Wrapper.IndexReader.Get` | GoKitt/pkg/fst/wrapper.go:61-63 | found exactly for the keys of the map, with their values |
| `Wrapper.IndexReader.SearchPrefix` | GoKitt/pkg/fst/wrapper.go:66-101 | exactly the keys with the prefix, ascending, with their values; an error if and only if no key is at or after the prefix |
| `Wrapper.BuildThenGet` | GoKitt/pkg/fst/wrapper.go:42-132 | building an index and reading it back is the identity on maps, for every key asked |
| `Indices.IndexRegistry.Load` | GoKitt/internal/graphstore/index.go:38-83 | the two lookups hold the table and are inverse; loading again changes nothing |
| `Indices.IndexRegistry.GetOrAssign` | GoKitt/internal/graphstore/index.go:86-114 | the index a known identifier has, or the next one, appended to the table and both lookups |
| `Indices.IndexRegistry.LookupsInverse` | GoKitt/internal/graphstore/index.go:117-132 | an identifier has an index exactly when the index has that identifier |
| `Indices.IndexRegistry.AllIndices` | GoKitt/internal/graphstore/index.go:141-149 | exactly the numbers below the count, each once |
| `Indices.CanonicalOf` | GoKitt/internal/graphstore/store.go:57-67 | the byte-wise comparison loop orders the pair |
| `Indices.CanonicalInjective` | GoKitt/internal/graphstore/store.go:57-67 | two pairs have the same canonical form exactly when they are the same unordered pair |
| `EdgeSlabs.EdgeKeyInjective` | GoKitt/internal/graphstore/cache.go:31-36 | two index pairs have the same key exactly when they are the same unordered pair |
| `EdgeSlabs.EdgeSlab.Put` | GoKitt/internal/graphstore/cache.go:54-64 | the contents gain or replace exactly the edge under its key |
| `EdgeSlabs.EdgeSlab.Get` | GoKitt/internal/graphstore/cache.go:67-74 | the edge kept under the unordered pair, if any |
| `EdgeSlabs.EdgeSlab.Remove` | GoKitt/internal/graphstore/cache.go:77-86 | the contents lose exactly the edge; its slot stays, dead |
| `EdgeSlabs.EdgeSlab.Len` | GoKitt/internal/graphstore/cache.go:89-91 | the number of live edges, despite dead slots |
| `GraphTables.AdjacencySymmetric` | GoKitt/internal/graphstore/store_edge.go:97-108 | adjacency that agrees with the table is symmetric and stays inside the registry |
| `GraphTables.AdjacencyAdd` | GoKitt/internal/graphstore/store_edge.go:97-108 | adding both directions of a neighbour keeps adjacency and table in agreement |
| `GraphTables.AdjacencyRemove` | GoKitt/internal/graphstore/store_edge.go:276-284 | removing both directions keeps adjacency and table in agreement |
| `GraphTables.SlabPut` | GoKitt/internal/graphstore/store_edge.go:91-95 | the slab keeps exactly the pairs with a row, each edge telling its row |
| `GraphTables.SlabRemove` | GoKitt/internal/graphstore/store_edge.go:285 | the slab loses exactly the pair whose row is deleted |
| `GraphStore.SQLiteStore.WarmCache` | GoKitt/internal/graphstore/store.go:79-248 | an empty or dirty cache refines the tables afterwards, vertices, neighbours, slab and count; any other is left exactly as it is, warm or not |
| `GraphStore.SQLiteStore.AddVertex` | GoKitt/internal/graphstore/store_vertex.go:12-86 | a new vertex in table and cache, or an error exactly for a known one; the vertices are warm afterwards exactly when they were before |
| `GraphStore.AddToColdCache` | GoKitt/internal/graphstore/store_vertex.go:70-76 | a vertex added to a store that has loaded nothing, and the cache asked for afterwards: the vertices are warm if and only if the vertex table was empty or has the vertex already; otherwise the cache holds the new vertex alone and no later load changes that |
| `GraphStore.SQLiteStore.UpdateVertex` | GoKitt/internal/graphstore/store_vertex.go:206-285 | replaces exactly one row; the cache refines the tables |
| `GraphStore.SQLiteStore.RemoveVertex` | GoKitt/internal/graphstore/store_vertex.go:125-177 | refused exactly for unknown vertices and those some edge row mentions; the cache refines the tables |
| `GraphStore.SQLiteStore.Vertex` | GoKitt/internal/graphstore/store_vertex.go:88-104 | the row of the vertex, found exactly when there is one |
| `GraphStore.SQLiteStore.AddEdge` | GoKitt/internal/graphstore/store_edge.go:13-122 | each error exactly in its case, else exactly one canonical row more; the cache refines the tables afterwards in every case |
| `GraphStore.SQLiteStore.UpdateEdge` | GoKitt/internal/graphstore/store_edge.go:124-226 | each error exactly in its case, else exactly one row replaced; the cache refines the tables |
| `GraphStore.RowKeeps` | GoKitt/internal/graphstore/store_edge.go:58-80 | the row keeps the type an edge is given, or the default, its weight and its data |
| `GraphStore.SQLiteStore.RemoveEdge` | GoKitt/internal/graphstore/store_edge.go:228-292 | removes exactly the canonical row or reports that there is none; the cache refines the tables |
| `GraphStore.SQLiteStore.GetEdge` | GoKitt/internal/graphstore/store_edge.go:294-326 | found exactly when the canonical row is there, with its weight and data, turned the way it was asked for |
| `GraphStore.SQLiteStore.ListEdges` | GoKitt/internal/graphstore/store_edge.go:328-343 | as many edges as rows, one telling each row |
| `GraphStore.SQLiteStore.Edges` | GoKitt/internal/graphstore/store_edge.go:347-378 | one edge for each neighbour, in index order, telling the row of the pair |
| `GraphStore.SQLiteStore.EdgeCount` | GoKitt/internal/graphstore/store_edge.go:380-389 | the number of rows of the edge table |
| `GraphRuns.Perform` | GoKitt/internal/graphstore/store_edge.go:13-292 | one operation or question on a store whose cache is warm, or that loads it first: afterwards the cache refines the tables, and tables and outcome are what the tables alone, without any cache, give |
| `GraphRuns.Run` | GoKitt/internal/graphstore/store_vertex.go:12-285 | over every run of vertex and edge operations and questions, refused or not: after each step the cache refines the tables, and all outcomes and the final tables are those of replaying the run on the tables alone |
| `GraphRuns.RunFromEmpty` | GoKitt/internal/graphstore/store.go:79-248 | the same from an empty database, for any run shorter than 2^32 |
| `QueryEngine.LabelCandidates` | GoKitt/internal/graphstore/query_engine.go:68-91 | the vertices with every label asked for; none when a label is unknown |
| `RowMeanings.AllOfEach` | GoKitt/internal/graphstore/query_engine.go:68-91 | a vertex is a candidate for several labels if and only if it has each of them |
| `QueryEngine.NodeCandidates` | GoKitt/internal/graphstore/query_engine.go:42-107 | the candidate set of each variable, its last pattern deciding |
| `QueryEngine.PruneByEdge` | GoKitt/internal/graphstore/query_engine.go:119-151 | sources with a target and targets with a source among the candidates |
| `QueryEngine.PruneCandidates` | GoKitt/internal/graphstore/query_engine.go:109-152 | all edge patterns in turn; stops at a pattern with an unknown variable exactly when there is one |
| `QueryEngine.Solver.Fits` | GoKitt/internal/graphstore/query_engine.go:191-225 | a value fits exactly when every edge to another bound variable is there |
| `QueryEngine.Solver.Solve` | GoKitt/internal/graphstore/query_engine.go:171-234 | appends the rows of exactly the consistent full assignments that extend the binding, each once, and restores the binding; `RowMeanings.Ask` says what the rows hold |
| `QueryEngine.Execute` | GoKitt/internal/graphstore/query_engine.go:22-239 | rows for exactly the engine's answers, each once, whatever the variable order; the brute-force join when variables with an edge to themselves are given by identifier; an error exactly for unknown variables |
| `QueryEngine.RowsDiffer` | GoKitt/internal/graphstore/query_engine.go:171-181 | different assignments make different rows of identifiers |
| `RowMeanings.Ask` | GoKitt/internal/graphstore/query_engine.go:22-239 | `Execute` said of identifiers and tables: each row gives exactly the variables of the query, each a registered vertex as its last pattern asks, so the identifier itself where one is given, and for every edge between different variables the edge table has a row; every assignment of identifiers that meets all patterns and edges is a row; no two rows are the same; an error exactly for an edge with a variable without pattern |
| `QueryRows.ExecutedRowsDiffer` | GoKitt/internal/graphstore/query_engine.go:171-181 | the rows of a query on a valid store with labels on registered vertices are pairwise different |
| `QueryRows.LonelyVertex` | GoKitt/internal/graphstore/query_engine.go:92-106 | counter-example: a store with one vertex and no edges gives no row to a query for any vertex |
| `Joins.InitialEach` | GoKitt/internal/graphstore/query_engine.go:42-107 | with distinct variables every pattern decides its own candidate set |
| `Joins.AllPruningKeeps` | GoKitt/internal/graphstore/query_engine.go:109-152 | pruning loses no assignment of the join, whatever the order of the patterns |
| `Joins.AnswersAreJoin` | GoKitt/internal/graphstore/query_engine.go:109-236 | without edges from a variable to itself, prune then backtrack is the brute-force join |
| `Traps.TrapCatches` | GoKitt/internal/graphstore/query_engine.go:198-207 | a variable with an edge to itself that is not given by identifier makes a wrong answer in a world built for the query |
| `Traps.TrapPossible` | GoKitt/internal/graphstore/query_engine.go:198-207 | in that world links are symmetric, identifiers are numbered densely, and nothing without an identifier is linked or labelled |
| `Traps.ExactWhen` | GoKitt/internal/graphstore/query_engine.go:109-236 | the engine gives the join in every possible world if and only if each variable with an edge to itself is given by identifier |
| `StoredWorlds.StoreWorldPossible` | GoKitt/internal/graphstore/store.go:79-248 | every store whose cache refines its tables, with labels on registered vertices, is in a possible world |
| `StoredWorlds.StoreIn` | GoKitt/internal/graphstore/store.go:79-248 | every possible world without empty neighbour sets, whose links fit the slab, is that of a store loaded from tables |
| `StoredWorlds.Ensnare` | GoKitt/internal/graphstore/query_engine.go:198-207 | for each query with an unpinned edge from a variable to itself, a store in which the engine answers it wrongly |
| `Reach.PathInBall` | GoKitt/internal/graphstore/algo_paths.go:39-69 | the end of a path is within as many hops as the path has |
| `Reach.BallHasPath` | GoKitt/internal/graphstore/algo_paths.go:39-69 | whatever is within k hops has a path of at most k hops |
| `Reach.NextSphere` | GoKitt/internal/graphstore/algo_paths.go:39-69 | what the last level reaches and has not been visited is exactly the next level |
| `AlgoPaths.KHopBitmapFiltered` | GoKitt/internal/graphstore/algo_paths.go:24-71 | exactly the vertices one to k allowed hops away in the cache as it is, for every k; nothing exactly for an unknown vertex |
| `AlgoPaths.Search` | GoKitt/internal/graphstore/algo_paths.go:92-146 | the target with parents one level apart, although parents are overwritten within a level; otherwise no allowed path at all |
| `AlgoPaths.Rebuild` | GoKitt/internal/graphstore/algo_paths.go:152-163 | the walk back through the parents ends, and reversed in place is a shortest path |
| `AlgoPaths.ShortestPathUnweightedFiltered` | GoKitt/internal/graphstore/algo_paths.go:81-177 | a path over allowed edges of the cache as it is, with the fewest hops of all; the error for two registered vertices only when no allowed path joins them there |
| `ColdSearches.PathsAreRowPaths` | GoKitt/internal/graphstore/algo_paths.go:81-146 | in a warm cache a path joins two vertices exactly when rows of the edge table do |
| `ColdSearches.AskColdAndWarm` | GoKitt/internal/graphstore/algo_paths.go:81-98 | of two different registered vertices of a store that has loaded nothing, the search answers that there is no path, which is right if and only if no rows join them; after loading the answer is right |
| `Traversal.LabelFilter` | GoKitt/internal/graphstore/traversal.go:62-84 | vertices with any of the labels; none when none of the labels is known |
| `Traversal.AnyOfSome` | GoKitt/internal/graphstore/traversal.go:62-84 | a vertex passes the label filter if and only if it has one of the labels |
| `Traversal.Wave` | GoKitt/internal/graphstore/traversal.go:119-182 | one level: exactly the vertices at the next distance, each with a parent on this one |
| `Traversal.PathTo` | GoKitt/internal/graphstore/traversal.go:195-214 | the path put together from its end names a walk from the root with as many hops as the distance |
| `Traversal.Emit` | GoKitt/internal/graphstore/traversal.go:188-227 | reports each vertex of the level once, with its distance and path, from the least depth on |
| `Traversal.Traverse` | GoKitt/internal/graphstore/traversal.go:43-232 | run to completion: exactly the vertices at a distance in range in the label-restricted graph, each once, with that distance and a path of as many hops from the root |
| `Components.Grow` | GoKitt/internal/graphstore/algo_components.go:35-57 | a search from a seed finds exactly what a path joins to it, and crosses into no earlier component |
| `Components.ConnectedComponents` | GoKitt/internal/graphstore/algo_components.go:10-69 | the registered identifiers split into disjoint lists without repeats; two are in one list if and only if a path joins them |
| `Ranking.AllGiven` | GoKitt/internal/graphstore/algo_ranking.go:61-76 | over symmetric links the ranks passed on add up to the ranks of the vertices that have neighbours |
| `Ranking.StepMass` | GoKitt/internal/graphstore/algo_ranking.go:56-81 | an iteration's ranks sum to the teleport share plus the damped sum of what was passed on |
| `Ranking.StepKeeps` | GoKitt/internal/graphstore/algo_ranking.go:56-81 | with damping between 0 and 1 an iteration keeps every rank at or above (1-d)/N, the sum at most 1, and exactly 1 when no vertex is isolated |
| `Ranking.Contribution` | GoKitt/internal/graphstore/algo_ranking.go:62-75 | what the neighbours pass on to a vertex |
| `Ranking.Iterate` | GoKitt/internal/graphstore/algo_ranking.go:56-81 | every vertex gets its teleport share and its damped contribution, the old ranks are untouched, and the result is how far the ranks moved in total |
| `Ranking.PageRank` | GoKitt/internal/graphstore/algo_ranking.go:21-97 | a rank for every identifier, the last of the rankings that iterating from the uniform one gives: up to the limit, or up to the first iteration that moves the ranks by less than the tolerance in total; with damping between 0 and 1 it has the bounds and the sum that every iteration keeps |
| `RankRuns.IteratedUnique` | GoKitt/internal/graphstore/algo_ranking.go:41-87 | links, options and number of vertices decide all the rankings on the way and where they end |
| `RankRuns.Contracts` | GoKitt/internal/graphstore/algo_ranking.go:56-81 | an iteration brings any two rankings closer, by the damping at least, summed over all vertices |
| `RankRuns.Approaches` | GoKitt/internal/graphstore/algo_ranking.go:54-87 | after k iterations the distance to a ranking that an iteration leaves alone is at most the k-th power of the damping times what it was |
| `RankRuns.StationaryUnique` | GoKitt/internal/graphstore/algo_ranking.go:56-81 | there is at most one ranking that an iteration leaves alone |
| `RankRuns.StopsNear` | GoKitt/internal/graphstore/algo_ranking.go:82-87 | an iteration that moves the ranks by less than the tolerance ends within d / (1 - d) times the tolerance of the ranking it would leave alone |
| `RankRuns.MiddleEndsOnTop` | GoKitt/internal/graphstore/algo_ranking.go:54-87 | on a path of three vertices the middle ends above both ends, which are level |
| `AlgoStructural.CountLinks` | GoKitt/internal/graphstore/algo_structural.go:132-141 | the summed intersections are the links within the neighbourhood, counted from both ends |
| `AlgoStructural.LinksCounted` | GoKitt/internal/graphstore/algo_structural.go:132-142 | with symmetric links every edge is counted twice and every loop once |
| `AlgoStructural.EdgesBounded` | GoKitt/internal/graphstore/algo_structural.go:144-146 | there are at most k(k-1)/2 edges among k neighbours |
| `AlgoStructural.ClusteringCoefficient` | GoKitt/internal/graphstore/algo_structural.go:114-147 | edges among the neighbours, plus half the looped neighbours rounded down, over k(k-1)/2; 0 below two neighbours |
| `AlgoStructural.CoefficientExact` | GoKitt/internal/graphstore/algo_structural.go:130-146 | the coefficient counts just the edges among the neighbours found if and only if fewer than two of those are linked to themselves; it then lies in [0,1] |
| `Coefficients.CoefficientProper` | GoKitt/internal/graphstore/algo_structural.go:114-147 | against the neighbours other than the vertex itself: without a loop at the vertex the coefficient is right if and only if it has fewer than two neighbours, or fewer than two with loops; with one, if and only if it has no other neighbour, or all the others are linked to each other and none to itself |
| `Coefficients.LoopAtTheVertex` | GoKitt/internal/graphstore/algo_structural.go:114-147 | counter-example: a vertex with a loop and two neighbours that are not linked has coefficient 2/3 |
| `LoopedStores.LoopedNeighbours` | GoKitt/internal/graphstore/algo_structural.go:130-146 | counter-example: a store and a vertex whose coefficient is 1 although no two of its neighbours are linked |
| `AlgoStructural.Jaccard` | GoKitt/internal/graphstore/algo_structural.go:51-81 | shared over all neighbours, within [0,1], and 1 exactly for equal, non-empty neighbourhoods |
| `Whitespace.RemoveNewlines` | GoKitt/pkg/chunker/chunker.go:688-714 | every run of white space becomes one blank, in UTF-8, with the replacement character for bytes that are none; then trimmed |
| `Whitespace.FlatWord` | GoKitt/pkg/chunker/chunker.go:691-711 | a word is copied, character by character, up to the white space after it |
| `Whitespace.FlatGap` | GoKitt/pkg/chunker/chunker.go:691-711 | white space between words, however long, becomes one blank |
| `Whitespace.FlatLeaves` | GoKitt/pkg/chunker/chunker.go:688-714 | text that begins with something other than white space keeps some |
| `SentenceSpans.TrimSpan` | GoKitt/pkg/chunker/chunker.go:399-423 | only space is trimmed, and none is left at the ends |
| `SentenceSpans.EndsWithAbbreviation` | GoKitt/pkg/chunker/chunker.go:389-397 | whether the trimmed text ends in one of the abbreviations |
| `SentenceSpans.EndsInWhen` | GoKitt/pkg/chunker/chunker.go:389-397 | ending in an abbreviation is being something followed by it |
| `SentenceSpans.SplitSentencesWithSpans` | GoKitt/pkg/chunker/chunker.go:334-387 | the spans are in order, disjoint, without space at their ends and have text; they cover every byte that is not space up to the tail behind the last sentence, and the whole document if and only if that tail is not Unicode white space beyond the one-byte kind |
| `SentenceSpans.NoBreakSpaceLost` | GoKitt/pkg/chunker/chunker.go:375-385 | counter-example: of a document of one no-break space two bytes are covered by no span |
| `ChunkPacking.TailFrom` | GoKitt/pkg/chunker/chunker.go:515-533 | the longest tail whose length the overlap allows |
| `ChunkPacking.Pack` | GoKitt/pkg/chunker/chunker.go:463-552 | the packing of leaves and of parents: contiguous runs without gaps; each begins as far back in the one before as the overlap allows and no further, each but the last is full, so that its next piece would make it longer than the size, and none is longer than the size except for one piece |
| `ChunkPacking.PackingUnique` | GoKitt/pkg/chunker/chunker.go:463-552 | lengths, size and overlap leave one packing |
| `Chunker.ChunkKeyInjective` | GoKitt/pkg/chunker/chunker.go:426-461 | different chunks have different keys, even with colons in document identifiers |
| `Chunker.ChunkIDMapper.GetOrAssign` | GoKitt/pkg/chunker/chunker.go:65-79 | the identifier a key has, or the next one, never used before |
| `Chunker.JoinSentenceTexts` | GoKitt/pkg/chunker/chunker.go:670-682 | the trimmed texts with a blank between |
| `Chunker.JoinedAppend` | GoKitt/pkg/chunker/chunker.go:670-682 | joining two lists puts one separator between what each gives |
| `Chunker.LeafTextStays` | GoKitt/pkg/chunker/chunker.go:485-492 | a run that begins with a sentence that has text has text, whether newlines are kept or not |
| `Chunker.LeafTextWhole` | GoKitt/pkg/chunker/chunker.go:485-492 | of trimmed sentences, as the splitter gives them, the text of a leaf is that of exactly those of its run with blanks between, one byte shorter than the length packed; without newlines it is that text flattened |
| `Chunker.ParentTextWhole` | GoKitt/pkg/chunker/chunker.go:577-593 | the same for a parent: the texts of exactly its leaves with newlines between, one byte shorter than the length packed, and flattened where newlines are not wanted |
| `Chunker.ChunkTextIs` | GoKitt/pkg/chunker/chunker.go:485-492 | a chunk without newlines has no one-byte white space but blanks; any other is what was joined with white space taken off its ends |
| `Chunker.BuildLeafChunks` | GoKitt/pkg/chunker/chunker.go:463-552 | one leaf for each run that has any text, from the start of its first sentence to the end of its last, with an identifier of its own; no run is left out when the sentences have text |
| `Chunker.Backfill` | GoKitt/pkg/chunker/chunker.go:613-623 | exactly the leaves a parent lists name it from then on |
| `Chunker.BuildParentChunks` | GoKitt/pkg/chunker/chunker.go:554-668 | one parent for each run of leaves that has any text, listing them in order; every leaf names a parent that lists it when the leaves have text |
| `Chunker.ChunkDocument` | GoKitt/pkg/chunker/chunker.go:316-331 | sentences, leaves and parents of a document together: coverage exactly when the tail is not lost, both packings with no run of sentences left out, distinct identifiers, and every leaf's parent |
| `NoteStore.ReplayIsLast` | GoKitt/internal/store/sqlite_store.go:1038-1101 | replaying a history up to a time ends at its last event not after that time |
| `NoteStore.OneCurrent` | GoKitt/internal/store/sqlite_store.go:734-843 | exactly one row of an existing note is current, and it has the highest version |
| `NoteStore.Tiles` | GoKitt/internal/store/sqlite_store.go:768-827 | the intervals of validity tile, exactly one row being valid at any time from the first event on and none before, if and only if the times of the events do not descend |
| `NoteStore.RestoreInTheSameSecond` | GoKitt/internal/store/sqlite_store.go:1104-1189 | counter-example: a restore takes its time cut down to the second, and after a change within that second two rows are valid at once |
| `NoteStore.TimeTravel` | GoKitt/internal/store/sqlite_store.go:1038-1101 | the row a query for a time picks is what replaying the history up to then makes current, whatever order the timestamps have |
| `NoteStore.CreateAgain` | GoKitt/internal/store/sqlite_store.go:734-765 | creating a note that exists leaves a history if and only if it is not handed in as ended, replaces the current row, and that was the only one or began at the same time |
| `NoteStore.CreateTwice` | GoKitt/internal/store/sqlite_store.go:734-765 | counter-example: a note created, updated and created again from its start has no history any more |
| `NoteStore.NotesStore.CreateNote` | GoKitt/internal/store/sqlite_store.go:734-765 | inserts or replaces exactly one row, with the version and start of validity filled in; a new note has a history, of one event, if and only if it is not handed in as ended |
| `NoteStore.NotesStore.UpdateNote` | GoKitt/internal/store/sqlite_store.go:768-827 | the history gains exactly one event, and every note still has a sound history, unless a note without versions is handed in as ended; the new row is the note handed in with the next version, the creation time of the current row and the reason, and every other row keeps all but its end and whether it is current |
| `NoteStore.NotesStore.UpsertNote` | GoKitt/internal/store/sqlite_store.go:830-843 | the same with the reason "upsert", creating the note when it has no current version |
| `NoteStore.NotesStore.RestoreNoteVersion` | GoKitt/internal/store/sqlite_store.go:1104-1189 | the earlier row, content and carried fields, becomes the newest version and event; without that version nothing changes |
| `NoteStore.NotesStore.GetNoteAtTime` | GoKitt/internal/store/sqlite_store.go:1038-1101 | a row of the table: the note as replaying its history up to the time makes it, nothing before its first event |
| `NoteStore.NotesStore.DeleteNote` | GoKitt/internal/store/sqlite_store.go:1192-1204 | the whole history of one note goes and no other |

## Left out

- Recycling of unfinished cells (the 64-slot cache) and of decoded state structs: both are modelled as values, so reuse of their memory is not captured; nodes, pool and registry are objects.
- Bit operations: shifts and bit-ors of packed headers are written as the arithmetic they amount to; only the registry's hash uses bit vectors.
- `Builder.Reset`, `Registry.Reset`, `Reader`, `Debug`, `String` and `DotString`: reuse and printing.
- I/O errors: the writer does not fail (the code drops encoder errors in `compileFrom`), buffering and flushing are not visible, and files are byte strings.
- Vellum.Load: data with a good header is taken to be a transducer; what the code does on other data is not modelled.
- Fst.FST.GetMinKey: needs a stored key, because the code indexes out of range without one.
- `FuzzyAutomaton` and edit distances.
- `MergeIterator.Seek`: it does not read the current keys again after seeking.
- Vellum.Merge: the iterators are different objects, and either fresh or over transducers without the empty key.
- Merging.Read, Merging.Advance, Merging.MergeIterator.Init: the same iterators.
- Wrapper.IndexReader.constructor: the bytes are a transducer, as for Vellum.Load.
- Wrapper.SortTuples: stands for the library sort, which is not part of the repository.
- The tables of the graph store are maps; SQL text, transactions, locks, JSON and encoders are left out, and so are failed index inserts.
- Vertex and edge attributes live in a table of timed properties that is not modelled; the cache agrees with the rows on value, weight, data and endpoints.
- Label rows: queries and traversals take the label bitmaps as they are.
- GraphStore.SQLiteStore.WarmCache: assumes fewer than 2^32 rows to load, the slots of the slab.
- GraphRuns.Run: assumes as many free slots and indices, of 2^32 each, as the run has operations.
- GraphStore.SQLiteStore.AddEdge: assumes a free slot among 2^32 in the slab, and a cache that refines the tables or is about to be loaded; GraphStore.SQLiteStore.AddVertex assumes a free index among 2^32.
- GraphStore.SQLiteStore.GetEdge, Vertex, Edges, ListEdges and EdgeCount start from a warm cache, which `GraphRuns.Warm` establishes as their first call does.
- Neighbour bitmaps are finite sets in a map, each owned by one index, walked in ascending order.
- Query features the engine does not read: property filters, hop ranges, limits, orderings and post filters.
- Traversal: direction, strategy and edge filter have no effect in the code; cancellation is left out.
- Ranking.PageRank: exact reals, so rounding is not captured; that there is a ranking an iteration leaves alone is not shown, only that there is at most one and how fast the ranks come near it.
- RowMeanings.Ask: labels are on registered vertices; of a query with an edge from a variable to itself the rows need not meet that edge, unless the variable is given by identifier.
- Ego networks, label propagation, centrality and personalised ranks, Adamic-Adar: easy members beside the ones here.
- SentenceSpans.SplitSentencesWithSpans: the matches of the boundary pattern are a parameter, assumed to be punctuation and the white space after it.
- Whitespace.RemoveNewlines: `strings.TrimSpace`, `unicode.IsSpace` and the decoding of UTF-8 are library calls, written out as their documentation describes them.
- Chunker.BuildLeafChunks: identifiers are assumed not to run out of 32 bits; the sentences are in order, as the splitting leaves them. Struct keys, restoring and the other mapper accessors are left out.
- Notes: all fields a note only carries along are one, and the search index beside the table is left out.
- Rules, temporal properties and migrations of the graph store, and everything else in the repository.
