# OpenZL JNI bridge: verified model

The bridge between Java and OpenZL compresses protobuf messages in a structured
form and keeps several pieces of shared state. This project models the parts
that carry logic of their own and proves what they promise.

**The structured codec.** A message is shredded into three control streams
(field types, field ids, lengths) and one value column per leaf path, keyed by
a 31-bit hash of the path. `StructuredReader` says as functions what reading a
frame does; `StructuredDecoder` holds the frame object with the reading
methods, which move the readers in place and are proved equal to those
functions. `StructuredWriter` is a reference encoder for the format that the
decoder reads (the production encoder is not part of this model: only its Java
class is named, at `JNI/OpenZLProtobuf.cpp:920`) and the proof that the decoder inverts it;
`StructuredReencoding` has the other direction. `StructuredMerging` says what
reading onto a message that has fields already means, which is what makes a
field that occurs twice come out right, and `OpenEnds` what a missing last stop
word means. `PathHash` is the hash of a path,
`SiblingTags` says which field numbers it tells apart, and `SchemaPaths` that
tags are FNV-1a hashes of paths and that a type registers exactly its leaves.
`ReaderProperties` has the byte accounting and the agreement with the
clustering of `Schemas`; `SchemaRecursion` says when the walk over a schema
returns; `UntaggedFrames` the frames without tags;
`SampleFormat` the binary sample parser and its printer; `FrameAssembly` the
input builders and the assembly of a frame, and `FrameContents` what a frame is
made of, read off the list of outputs; `Pipeline` puts all of them end to
end, from a message and back to it. `KnownAnswers` fixes the formats byte by
byte on one example each.

**The training registry.** `TrainingRegistry` is the state of one message type
with its critical sections as methods; `TrainingProtocol` lets any number of
threads run them, and training, in any order.

**The buffer pool.** `BufferLadder` is the 32-bit arithmetic of bucket sizes,
`BufferPool` the pool that is changed in place.

**The native state cache.** `NativeStates` has the state, its scratch buffer
and the cache; `CompressorHandles` the compressor object and its cleaner;
`NativeStateRuns` every interleaving of creating and closing.

**Traversals and printing.** `GraphWorklist` and `SchemaClosure` walk graphs on
the shared notion of `Reachability`; `PrettyPrint` is the JSON printer.

Each operation that changes state is a method proved equal to a specification
function, or to a relation on the state before and after it; the main results
are lemmas about those.

`dafny verify dfyconfig.toml` checks everything.

## Where the code and its documentation disagree

- `JNI/openzl-jni/src/main/java/io/github/hybledav/OpenZLBufferManager.java:62`
  says that buffers not allocated by the manager are ignored. The code pools any
  direct buffer (lines 126-135). The model follows the code, and the pool's
  properties hold with foreign, unaligned buffers.

## What is false of the code, with its exact condition

- The pretty printer does not keep every significant character: the final trim
  cuts off control characters that are not whitespace
  (`PrettyPrint.ControlCharacterLost`). It keeps them exactly if the first and
  the last significant characters are above the space
  (`PrettyPrint.PrettyKeepsSignificant`). Printing twice equals printing once
  without any condition.
- The pretty printer does not always keep strings: the end of a string that is
  never closed is trimmed too (`PrettyPrint.UnclosedStringTrimmed`). It keeps them exactly if the text ends outside a
  string or with a character above the space (`PrettyPrint.PrettyKeepsStrings`).
- The sample parser can copy past its input: it adds two 32-bit sizes in 32 bits
  before it copies a field, at `JNI/OpenZLProtobuf.cpp:1314`.
  `SampleFormat.WrappingSampleOverruns` is a sample of 32 bytes that does it, and
  `SampleFormat.ParseOverrunsExactly` the condition on the whole input: it
  happens if and only if a walk over the headers by their sizes meets a byte or
  string field that is larger than what is left although the wrapped sum of its
  sizes is not.
- Sibling paths are not separated for all field numbers: 56948505 and 67108869
  at the top of a message have one hash and one tag
  (`SiblingTags.LargeSiblingsCollide`). They are separated under every parent
  exactly for numbers below 2^26 (`SiblingTags.SeparatedExactly`).
- Encoding what a frame decoded to does not always give the frame back: a field
  can be named twice, repeated zero times, or a message left open. It does
  exactly if none of this occurs (`StructuredReencoding.EncoderInvertsDecoder`).

## Model

| member | source | states |
|---|---|---|
| PathHash.FieldTag | JNI/OpenZLProtobuf.cpp:905-909 | every tag lies in 1..2^31-1, so it is none of the control tags -1, -2, -3; its value is that of SchemaPaths.TagIsCutHash |
| SchemaPaths.TagIsCutHash | JNI/OpenZLProtobuf.cpp:890-909 | the tag of a field under any hash is the FNV-1a hash of its path, as little-endian words of four bytes, cut to 31 bits, or 1 where that is 0; extending the hash by a number appends its word to the path |
| SchemaPaths.ExtensionHashesWord | JNI/OpenZLProtobuf.cpp:890-903 | the four masked and shifted rounds are FNV-1a, with the standard prime, on the four bytes of the number, low byte first |
| SchemaPaths.XorBitwise | JNI/OpenZLProtobuf.cpp:890-893 | the exclusive or of the model is the bitwise one |
| SchemaPaths.KnownTags | JNI/OpenZLProtobuf.cpp:895-909 | the tags of fields 1 and 2 at the root and of field 2 of a message in field 1: 2070525444, 1810789175 and 1591251046 |
| SiblingTags.SeparatedExactly | JNI/OpenZLProtobuf.cpp:890-909 | for every bound: under all parent hashes, any two different field numbers below it have different tags, and hashes that differ modulo 2^31, if and only if the bound is at most 2^26 |
| SiblingTags.SiblingsDiffer | JNI/OpenZLProtobuf.cpp:890-909 | the pair of siblings behind it: neither do their hashes coincide, nor does mapping 0 to 1 make their tags meet |
| SiblingTags.LargeSiblingsCollide | JNI/OpenZLProtobuf.cpp:895-909 | two larger field numbers that share hash and tag at the top of a message |
| Schemas.CollectStructuredFieldClusters | JNI/OpenZLProtobuf.cpp:587-605 | for a type that reaches no recursive type, appends its clusters, nested types included, to the caller's vector and changes nothing in it; which clusters those are is SchemaPaths.ClustersExactly |
| Schemas.FieldClustersIncluded | JNI/OpenZLProtobuf.cpp:592-604 | the clusters of a type include all that any one of its fields contributes |
| SchemaPaths.ClustersExactly | JNI/OpenZLProtobuf.cpp:565-605 | the clusters of a type stand one to one for the paths that lead through nested messages to a leaf, every one of them, each once if no type declares a number twice: under the tag of the path, strings for codec 3 without a width, all others for codec 2 with 8, 4 or 1 bytes |
| SchemaPaths.ClusterIffLeaf | JNI/OpenZLProtobuf.cpp:587-605 | a cluster is registered if and only if some leaf path of the type calls for it |
| SchemaRecursion.WalkReturnsExactly | JNI/OpenZLProtobuf.cpp:587-605 | the collecting walk with a bound on nested calls returns for some bound if and only if no recursive type can be reached from the type |
| SchemaRecursion.BoundedWalkCollects | JNI/OpenZLProtobuf.cpp:587-605 | what the bounded walk collects, when it returns, is the clusters of the type |
| SchemaRecursion.RankedExactly | JNI/OpenZLProtobuf.cpp:587-605 | a ranking of the types that a type reaches, which its clusters are defined by, exists if and only if none of them is recursive |
| StructuredDecoder.StructuredDecodedFrame.ReadLengthControl | JNI/OpenZLProtobuf.cpp:1554-1559 | takes one word off the length stream, or fails at its end |
| StructuredDecoder.StructuredDecodedFrame.ReadStringValue | JNI/OpenZLProtobuf.cpp:1561-1573 | the string of a column is as long as the column and the control stream agree, else an error; other columns stay |
| StructuredDecoder.StructuredDecodedFrame.ReadStructuredValue | JNI/OpenZLProtobuf.cpp:1575-1590 | one value of a column, and a length word if it is a string |
| StructuredDecoder.StructuredDecodedFrame.ReadStructuredField | JNI/OpenZLProtobuf.cpp:1592-1619 | a single value is set, a repeated one is appended as many times as its count word says |
| StructuredDecoder.StructuredDecodedFrame.RequireStructuredCursor | JNI/OpenZLProtobuf.cpp:1621-1634 | the column of the tag, or the first unbound one, which is then bound to the tag |
| StructuredDecoder.StructuredDecodedFrame.ReadStructuredMessage | JNI/OpenZLProtobuf.cpp:1636-1692 | the loop in place does on every frame what the recursive description says, errors included, asks for the columns it lists, and ends on every input and schema |
| StructuredDecoder.StructuredDecodedFrame.ReadStructuredEntry | JNI/OpenZLProtobuf.cpp:1655-1689 | the same for one field, nested or leaf |
| StructuredDecoder.StructuredDecodedFrame.ReadRepeatedMessages | JNI/OpenZLProtobuf.cpp:1669-1676 | the same for the elements of a repeated message field, ending by the repeat counter when no type byte is left |
| StructuredWriter.DecoderInvertsEncoder | JNI/OpenZLProtobuf.cpp:1561-1692 | reading the encoding of any conforming message in front of arbitrary streams gives the message and leaves every reader at its suffix, through nested and repeated messages that share columns |
| StructuredReencoding.EncoderInvertsDecoder | JNI/OpenZLProtobuf.cpp:1561-1692 | for every tagged frame that decodes, encoding the message again gives exactly the streams that were read if and only if every message in it was closed by its stop word, named no field twice and repeated none zero times |
| StructuredMerging.ReadingMerges | JNI/OpenZLProtobuf.cpp:1592-1692 | reading any frame onto any message of the type fails exactly as reading it alone does, with the same error, and otherwise gives the message merged with what was read alone, with the same streams left and bytes counted |
| StructuredMerging.GetMerged | JNI/OpenZLProtobuf.cpp:1603-1616 | merging field by field: what one side has is kept, a single value is replaced, repeated values are appended in order and nested messages merged |
| StructuredMerging.MergeAssociates | JNI/OpenZLProtobuf.cpp:1667-1676 | merging messages of a type is associative |
| OpenEnds.LastStopOptional | JNI/OpenZLProtobuf.cpp:1644-1652 | any frame that is read to the end of its types, a stop word last, reads the same without that word, nested messages left open included, in four bytes less |
| KnownAnswers.KnownFrame | JNI/OpenZLProtobuf.cpp:1554-1692 | one frame in bytes, with a nested message of repeated strings and a number, and the message it holds |
| StructuredWriter.ReadsRepeated | JNI/OpenZLProtobuf.cpp:1608-1616 | the values of a repeated field are read back in order from a column that other paths share |
| ReaderProperties.MessageMoves | JNI/OpenZLProtobuf.cpp:1575-1692 | every successful run moves readers only forward and returns exactly the bytes by which control and value readers advanced |
| ReaderProperties.RequestsRegistered | JNI/OpenZLProtobuf.cpp:1664-1681 | for every type that reaches no recursive one and every frame, malformed or truncated ones included, each tag asked for is one the clustering registered, with the successor of the kind read |
| ReaderProperties.RequestsAreUses | JNI/OpenZLProtobuf.cpp:1621-1681 | a run that succeeds has used exactly the columns it asked for |
| ReaderProperties.FieldRegisters | JNI/OpenZLProtobuf.cpp:587-605 | a field's tag, or any tag of its nested type, is among the clusters of the type |
| ReaderProperties.FieldsRefused | JNI/OpenZLProtobuf.cpp:1621-1664 | an unknown number, another kind than the declared one and a column that is bound to no tag each give their own error |
| ReaderProperties.StringsRefused | JNI/OpenZLProtobuf.cpp:1561-1573 | a string is refused for its stream, its length or its bytes exactly in these cases, and otherwise cut off the front of its column |
| UntaggedFrames.UntaggedFrameReadsTheSame | JNI/OpenZLProtobuf.cpp:1621-1634 | if a tagged frame reads as a message, the frame with untagged columns in order of first use gives the same message, byte count and remaining streams |
| SampleFormat.ParseStructuredSample | JNI/OpenZLProtobuf.cpp:1292-1357 | the parsing loops compute the parser function on every byte string, with its errors |
| SampleFormat.ReadStructuredSampleUInt32Vector | JNI/OpenZLProtobuf.cpp:1278-1290 | whole words only and all of them present, else an error |
| SampleFormat.ReadStructuredSampleUInt64 | JNI/OpenZLProtobuf.cpp:1264-1269 | two words make one long word, the low one first |
| SampleFormat.ParseInvertsPrint | JNI/OpenZLProtobuf.cpp:1292-1357 | every well-formed sample whose printed form is below 2^32 bytes is parsed back from it, and is refused for trailing bytes if anything follows |
| SampleFormat.PrintInvertsParse | JNI/OpenZLProtobuf.cpp:1292-1357 | any accepted byte string is the printed form of what was parsed |
| SampleFormat.PayloadRefused | JNI/OpenZLProtobuf.cpp:1308-1348 | which field payloads are refused, and with which error, by kind and sizes |
| KnownAnswers.KnownSample | JNI/OpenZLProtobuf.cpp:1254-1357 | one sample in bytes, with a string and a 64-bit field, and what is parsed from it |
| SampleFormat.ParseAcceptsExactly | JNI/OpenZLProtobuf.cpp:1292-1357 | a byte string is accepted if and only if the walk over its headers by their sizes ends with the last byte |
| SampleFormat.ParseOverrunsExactly | JNI/OpenZLProtobuf.cpp:1308-1343 | parsing copies past the input if and only if that walk meets a byte or string field larger than the rest whose sizes add up to no more in 32 bits; on every other input no copy leaves it |
| SampleFormat.WrappingSampleOverruns | JNI/OpenZLProtobuf.cpp:1314-1340 | a sample of 32 bytes for which it does |
| FrameAssembly.BuildStructuredInputs | JNI/OpenZLProtobuf.cpp:1359-1408 | three headed control streams and then one tagged stream per field, or the error of the first unsupported kind |
| FrameAssembly.BuildPinnedInputs | JNI/OpenZLProtobuf.cpp:1177-1233 | the same from pinned buffers, dropping incomplete elements |
| FrameAssembly.BuildersAgree | JNI/OpenZLProtobuf.cpp:1177-1408 | both builders give equal inputs for the same aligned content |
| KnownAnswers.KnownInputs | JNI/OpenZLProtobuf.cpp:1359-1384 | the control inputs of one sample in bytes: magic, number, words, under tags -1, -2 and -3 |
| FrameAssembly.DecodeStructuredFrame | JNI/OpenZLProtobuf.cpp:1733-1791 | both passes over the outputs compute the assembly function, errors included |
| FrameContents.AssembledExactly | JNI/OpenZLProtobuf.cpp:1697-1791 | for every list of outputs: the assembly fails with the first fault of an output, or for a missing control stream; otherwise the frame has the last of each control stream without its header, the first column under each tag and the untagged columns in order |
| FrameAssembly.SecondPassIdle | JNI/OpenZLProtobuf.cpp:1779-1785 | whatever the outputs, the second pass assigns and removes nothing |
| FrameAssembly.FrameOfSample | JNI/OpenZLProtobuf.cpp:1359-1408 | the frame of a sample's inputs holds exactly its ids, types, lengths and columns |
| FrameAssembly.ColumnsOfFields | JNI/OpenZLProtobuf.cpp:1763-1777 | with distinct tags each field is the column under its tag, and there is no other |
| FrameAssembly.FrameWithoutTags | JNI/OpenZLProtobuf.cpp:1523-1546 | without tags the control streams are found by their headers and the columns keep their order |
| FrameAssembly.FrameWithoutTagsExactly | JNI/OpenZLProtobuf.cpp:1733-1785 | they do so if and only if no column starts with the control magic |
| Pipeline.StructuredRoundTrip | JNI/OpenZLProtobuf.cpp:1292-1408 | message, sample, printed form, parsed sample, inputs, frame, message: the same message, and every stream read to its end |
| Pipeline.UnambiguousSchemaAgrees | JNI/OpenZLProtobuf.cpp:587-626 | if no tag of the schema has two successors, the columns of every message hold one kind of value each |
| Pipeline.UnambiguousSchemaRoundTrip | JNI/OpenZLProtobuf.cpp:607-626 | a condition on the schema's clusters alone makes every conforming message survive the whole path |
| Pipeline.CreateStructuredClusters | JNI/OpenZLProtobuf.cpp:607-626 | the clusters of a type's compressor: those for the control tags -1, -2, -3 first, numeric of four bytes and for codec 2, and no leaf among the rest has a control tag |
| Pipeline.CompressorClustersExactly | JNI/OpenZLProtobuf.cpp:550-626 | a compressor expects the control streams and the columns of the type's leaves and nothing else; codec 3 exactly for string streams, codec 2 for all others |
| Pipeline.InputsHaveClusters | JNI/OpenZLProtobuf.cpp:565-626 | every compressor input of a conforming message whose paths agree in kind where they share a tag has a registered cluster under its tag that expects its stream type and element width and goes to codec 3 if it is a string stream, to codec 2 if not |
| Pipeline.UntaggedMessageRoundTrip | JNI/OpenZLProtobuf.cpp:1621-1785 | every conforming message whose paths agree in kind where they share a tag also survives without any tag, its columns in order of first use, if none starts with the control magic |
| Pipeline.UntaggedRoundTrip | JNI/OpenZLProtobuf.cpp:1733-1785 | for any sample whose tagged outputs read as a message, untagged ones read the same, and further columns stay waiting |
| Pipeline.DecompressStructuredPayload | JNI/OpenZLProtobuf.cpp:1813-1836 | assembling a frame and reading it, with the errors of either |
| TrainingRegistry.State.Offer | JNI/OpenZLProtobuf.cpp:803-826 | the locked section that takes a sample and perhaps the batch: its whole new state, and what the thread leaves with |
| TrainingRegistry.State.Report | JNI/OpenZLProtobuf.cpp:844-857 | the locked section that publishes a result or goes back to gathering |
| TrainingRegistry.State.Snapshot | JNI/OpenZLProtobuf.cpp:759-772 | the published bytes and generation, exactly for an entry that is behind; that entries do get them is TrainingProtocol.PublishedIsApplied |
| TrainingRegistry.State.Configure | JNI/OpenZLProtobuf.cpp:1956-1968 | the new minimum, unless it is not positive |
| TrainingRegistry.OfferSound | JNI/OpenZLProtobuf.cpp:803-826 | offering keeps the registry sound; a thread leaves with a batch exactly when it starts the only training, and the batch is the whole buffer |
| TrainingRegistry.OfferTakesExactly | JNI/OpenZLProtobuf.cpp:803-826 | what an offer does in each case: the published compressor for an entry without it, nothing while one trains, the whole buffer as a batch exactly from the minimum of samples or 65536 bytes on, and else one more sample unless 24 are there |
| TrainingRegistry.FullBufferDrops | JNI/OpenZLProtobuf.cpp:810-819 | under a minimum above the capacity, a section changes nothing exactly when the buffer does not accept the sample |
| TrainingProtocol.ReachableStatesSafe | JNI/OpenZLProtobuf.cpp:752-862 | in every state of every run: one trainer at most, in progress and complete exclude each other, complete means published means generation 1, samples conserved and bounded, results from large enough batches, entries in agreement |
| TrainingProtocol.EveryRunSafe | JNI/OpenZLProtobuf.cpp:752-862 | the same invariant is kept from any safe state on |
| TrainingProtocol.OfferConserves | JNI/OpenZLProtobuf.cpp:810-824 | accepted samples are the batches taken so far followed by the buffer, in order and each once |
| TrainingProtocol.NothingTakenBack | JNI/OpenZLProtobuf.cpp:752-862 | over every run the published bytes never change, batches stay as taken, no entry's generation falls, and the samples accepted so far stay first, in order, among the batches and the buffer |
| TrainingProtocol.PublishesExactlyWithinReach | JNI/OpenZLProtobuf.cpp:352-355 | after the minimum is set to m, some run on samples of at least n bytes publishes if and only if m is at most 24 and (m - 1) * n is below 65536 |
| TrainingProtocol.StarvedRuns | JNI/OpenZLProtobuf.cpp:649-656 | while every minimum in force is above 24, or too high for the samples' length, nothing is ever published |
| TrainingProtocol.PublishedIsApplied | JNI/OpenZLProtobuf.cpp:752-783 | from every safe state with a published compressor, a thread without it that enters the refresh, or is on its way, ends with exactly the published bytes and generation 1, and nothing else moves |
| TrainingProtocol.OfferLeadsToPublished | JNI/OpenZLProtobuf.cpp:803-838 | so does one that offers at least 1024 bytes; a thread that has the compressor already goes on unchanged |
| TrainingProtocol.ReporterRefreshes | JNI/OpenZLProtobuf.cpp:844-862 | the thread that publishes refreshes its own entry next |
| TrainingProtocol.EveryThreadCatchesUp | JNI/OpenZLProtobuf.cpp:752-783 | from every such state some run leaves every thread with the published compressor |
| BufferLadder.RoundUpLeast | JNI/openzl-jni/src/main/java/io/github/hybledav/OpenZLBufferManager.java:76-82 | rounding gives the least multiple of the alignment that covers the request |
| BufferLadder.LadderFits | JNI/openzl-jni/src/main/java/io/github/hybledav/OpenZLBufferManager.java:101-112 | no step of either doubling loop leaves 32 bits or is capped |
| BufferLadder.BucketMonotone | JNI/openzl-jni/src/main/java/io/github/hybledav/OpenZLBufferManager.java:161-170 | the bucket of a capacity is unique and monotone |
| BufferLadder.HigherSuffices | JNI/openzl-jni/src/main/java/io/github/hybledav/OpenZLBufferManager.java:152-158 | any buffer of a higher bucket is large enough, aligned or not |
| BufferLadder.LowerFails | JNI/openzl-jni/src/main/java/io/github/hybledav/OpenZLBufferManager.java:143-151 | every buffer of a lower bucket is too small |
| BufferPool.PoolState.Create | JNI/openzl-jni/src/main/java/io/github/hybledav/OpenZLBufferManager.java:101-112 | an empty pool with the ladder of its minimum, or an error exactly if that cannot be rounded |
| BufferPool.PoolState.BucketIndex | JNI/openzl-jni/src/main/java/io/github/hybledav/OpenZLBufferManager.java:161-170 | the least bucket that covers the capacity, or the last |
| BufferPool.PoolState.PollFromBucket | JNI/openzl-jni/src/main/java/io/github/hybledav/OpenZLBufferManager.java:143-159 | finds what a search of every bucket by capacity would find first, and removes only that |
| BufferPool.PoolState.Borrow | JNI/openzl-jni/src/main/java/io/github/hybledav/OpenZLBufferManager.java:114-124 | a cleared direct buffer at least as large as the request, the minimum and their rounded maximum; allocates exactly if no pooled buffer is large enough |
| BufferPool.PoolState.Release | JNI/openzl-jni/src/main/java/io/github/hybledav/OpenZLBufferManager.java:126-135 | any direct buffer is appended to the least bucket that covers its rounded capacity, or the last, and the pool stays valid |
| BufferPool.PoolState.Clear | JNI/openzl-jni/src/main/java/io/github/hybledav/OpenZLBufferManager.java:137-141 | no buffer is left, the buckets are |
| BufferPool.TakenOnce | JNI/openzl-jni/src/main/java/io/github/hybledav/OpenZLBufferManager.java:143-159 | borrowing takes one buffer out of the pool and keeps all others; one that was pooled once is no longer pooled |
| NativeStates.ScratchBuffer.Ensure | JNI/OpenZLNativeSupport.cpp:49-56 | at least the required room; never shrinks, and keeps a buffer that is large enough |
| NativeStates.NativeState.Reset | JNI/OpenZLNativeSupport.cpp:146-153 | default contexts, the same graph selected in the compressor and the context, an empty scratch size |
| NativeStates.NativeState.SetGraph | JNI/OpenZLNativeSupport.cpp:127-144 | the graph is selected in the compressor and in the context that uses it |
| NativeStates.StateCache.AcquireState | JNI/OpenZLNativeSupport.cpp:214-237 | the slot's state, else the top of the stack, else a new one; the requested graph selected, contexts at defaults, compressor parameters untouched |
| NativeStates.StateCache.RecycleState | JNI/OpenZLNativeSupport.cpp:239-260 | into the slot, else on the stack below eight, else deleted |
| NativeStates.PutThenTake | JNI/OpenZLNativeSupport.cpp:214-260 | a state put into an empty slot is the next one that the thread gets, and the cache is as before |
| NativeStates.KeptExactly | JNI/OpenZLNativeSupport.cpp:214-260 | a state is given up exactly when the slot is taken and eight are on the stack; one put on the stack is the next that any thread with an empty slot gets, and a thread gets none exactly when both are empty |
| CompressorHandles.NativeHandleCleaner.Run | JNI/openzl-jni/src/main/java/io/github/hybledav/OpenZLCompressor.java:497-521 | gives the state back on the first run and does nothing on later ones |
| CompressorHandles.OpenZLCompressor.constructor | JNI/openzl-jni/src/main/java/io/github/hybledav/OpenZLCompressor.java:35-44 | an open compressor on a state from the cache or a new one, with its graph selected |
| CompressorHandles.OpenZLCompressor.Close | JNI/openzl-jni/src/main/java/io/github/hybledav/OpenZLCompressor.java:491-495 | gives the state back once, however often it is called |
| CompressorHandles.CloseThenCreate | JNI/OpenZLNativeSupport.cpp:146-153 | the next compressor of the thread gets the same state with its compressor parameters, so it need not equal a new one |
| NativeStateRuns.ReachableStatesSafe | JNI/OpenZLNativeSupport.cpp:214-260 | in every state of every run each allocated state is in exactly one place, the stack holds at most eight, and every open compressor has its own graph selected |
| NativeStateRuns.StepSafe | JNI/openzl-jni/src/main/java/io/github/hybledav/OpenZLCompressor.java:491-521 | every step of creating, closing and cleaning, on any thread, keeps that |
| NativeStateRuns.Exclusive | JNI/OpenZLNativeSupport.cpp:214-260 | no two compressors, threads or cache entries share a state |
| NativeStateRuns.PopTakes | JNI/OpenZLNativeSupport.cpp:217-236 | looking at the slot and later at the stack, with others in between, takes what the cache gives at the second moment |
| NativeStateRuns.ClosingGivesBack | JNI/OpenZLNativeSupport.cpp:239-260 | in every safe state closing an open compressor puts its state into the slot, on the stack or among the deleted, each exactly in its case |
| NativeStateRuns.CreateAndCloseReuses | JNI/OpenZLNativeSupport.cpp:214-260 | a thread whose slot holds a state creates and closes a compressor without an allocation or a deletion, and leaves the cache as it was |
| PrettyPrint.PrettyPrintJson | JNI/openzl-jni/src/main/java/io/github/hybledav/OpenZLProtobuf.java:397-448 | the loop computes the printer function on every text |
| PrettyPrint.RawStrips | JNI/openzl-jni/src/main/java/io/github/hybledav/OpenZLProtobuf.java:402-446 | before the trim, output and input differ only in whitespace outside strings |
| PrettyPrint.PrettyKeepsSignificant | JNI/openzl-jni/src/main/java/io/github/hybledav/OpenZLProtobuf.java:397-448 | the output keeps every significant character if and only if the first and last ones are above the space |
| PrettyPrint.ControlCharacterLost | JNI/openzl-jni/src/main/java/io/github/hybledav/OpenZLProtobuf.java:447 | an input whose only significant character is cut off |
| PrettyPrint.PrettyKeepsStrings | JNI/openzl-jni/src/main/java/io/github/hybledav/OpenZLProtobuf.java:404-414 | strings are verbatim, quotes and escapes included, if and only if the text ends outside a string or with a character above the space |
| PrettyPrint.UnclosedStringTrimmed | JNI/openzl-jni/src/main/java/io/github/hybledav/OpenZLProtobuf.java:447 | an input that ends inside a string and loses its last space |
| PrettyPrint.PrintableKept | JNI/openzl-jni/src/main/java/io/github/hybledav/OpenZLProtobuf.java:397-448 | so for every text that ends outside a string and has no control characters but whitespace outside strings (sections 2 and 7 of RFC 8259) |
| PrettyPrint.LineBreaks | JNI/openzl-jni/src/main/java/io/github/hybledav/OpenZLProtobuf.java:416-454 | before the trim, every bracket and comma outside strings gets its line break on the right side, and then two spaces for each bracket that is open, whatever was closed too often before |
| PrettyPrint.OtherCharacters | JNI/openzl-jni/src/main/java/io/github/hybledav/OpenZLProtobuf.java:404-444 | before the trim, a colon outside strings gets one space, whitespace there is dropped, and every other character, in strings every one, is written alone |
| PrettyPrint.RunsStayTogether | JNI/openzl-jni/src/main/java/io/github/hybledav/OpenZLProtobuf.java:404-444 | a number, a name, a string or any run of them stays in one piece wherever it stands |
| PrettyPrint.StringsEnd | JNI/openzl-jni/src/main/java/io/github/hybledav/OpenZLProtobuf.java:404-414 | a string runs from its quote over every quote after an odd number of backslashes to the first after an even number |
| PrettyPrint.OpenIsDepth | JNI/openzl-jni/src/main/java/io/github/hybledav/OpenZLProtobuf.java:425-428 | the counter that stops at zero is the depth of brackets exactly as long as none was closed that was not open |
| PrettyPrint.PrettyExample | JNI/openzl-jni/src/main/java/io/github/hybledav/OpenZLProtobuf.java:397-454 | one text in full |
| PrettyPrint.PrettyTwice | JNI/openzl-jni/src/main/java/io/github/hybledav/OpenZLProtobuf.java:397-448 | printing twice equals printing once, on every input |
| GraphWorklist.ReachableGraphs | JNI/OpenZLProtobuf.cpp:2814-2844 | the growing queue ends with exactly the graphs reachable from the start, each once: it is the start followed by the successors and custom graphs of its own graphs in order, without repetitions |
| Reachability.ClosedIsReachable | JNI/OpenZLProtobuf.cpp:2826-2844 | a closed set of reachable nodes with the start is the set of reachable nodes |
| SchemaClosure.CollectFileDescriptors | JNI/openzl-jni/src/main/java/io/github/hybledav/OpenZLProtobuf.java:507-520 | a visit adds each newly reachable file once, with cycles, and ends |
| SchemaClosure.BuildDescriptorSet | JNI/openzl-jni/src/main/java/io/github/hybledav/OpenZLProtobuf.java:498-505 | the set holds each transitively reachable file exactly once, with its dependencies, the file itself first, and nothing else |
| SchemaClosure.ReachableNames | JNI/openzl-jni/src/main/java/io/github/hybledav/OpenZLProtobuf.java:522-532 | the collected names are those same files |
| SchemaClosure.SchemaRegistry.RegisterSchemaInternal | JNI/openzl-jni/src/main/java/io/github/hybledav/OpenZLProtobuf.java:660-674 | a name is registered if and only if a set with it was loaded; a refused set changes nothing |
| SchemaClosure.SchemaRegistry.RegisterSchema | JNI/openzl-jni/src/main/java/io/github/hybledav/OpenZLProtobuf.java:464-478 | a file that reaches an unregistered one is refused if native code refuses, changing nothing, and else loaded: one set that describes exactly the reachable files, whose names are then registered too; any other file changes nothing and is not refused |
| SchemaClosure.SchemaRegistry.RegisterDescriptorSet | JNI/openzl-jni/src/main/java/io/github/hybledav/OpenZLProtobuf.java:480-496 | the same for a parsed set that names an unregistered file; an unreadable set is refused and changes nothing |

## Left out

- OpenZL itself: compress and decompress are the identity on typed, tagged streams; training returns anything, except nothing for a batch below its minimum (`JNI/OpenZLProtobuf.cpp:654-656`).
- The value of `kStop` and the readers behind `StringReader` are not part of this model: the stop word is some constant that is no field kind, and a read past the end of a stream, or of its string lengths, fails.
- Protobuf reflection: a message is the list of its fields in the order they were first set, so setting one member of a oneof does not clear another; a value is its bit pattern or its bytes; strings are not checked for UTF-8.
- Words are little-endian in the model; the original reads control words and refers to vectors in the byte order of the host.
- Schemas.CollectStructuredFieldClusters: on a type that reaches a recursive one the source does not return, and nothing is said.
- Value cursors are values in the frame's map; the original owns them through unique pointers, so no two tags share one.
- SampleFormat.ParseStructuredSample: a copy past the end of the input is an error of the model where the original reads memory; `reserve` calls and their allocation failures are left out.
- Scratch vectors that the input builders reuse per thread: inputs are values, so inputs of several samples built before compression (`JNI/OpenZLProtobuf.cpp:2266-2281`) are not covered.
- TrainingRegistry.State.Offer: sizes are unbounded; a total above 2^64 bytes is left out, and the totals are proved to stay below 65536 plus one sample.
- Registries of several message types: they share nothing, so one is modelled.
- TrainingProtocol.ReachableStatesSafe: a compressor that cannot be built from published bytes leaves the entry as it was, as the catch block at `JNI/OpenZLProtobuf.cpp:780` does; generic serializer failures are left out.
- BufferPool.PoolState.Borrow: an allocation never fails; a buffer released twice is pooled twice, as in the code, so exclusive use needs each buffer to be released once.
- NativeStateRuns.ReachableStatesSafe: native resets and allocations succeed; a thread that ends keeps its slot, and calls that race with `close` on the same compressor are left out.
- NativeStates.NativeState.Reset: it does not say that a recycled state equals a new one, because the compressor's own parameters and registered graphs survive.
- PrettyPrint.PrettyPrintJson: the two regular expressions that quote numeric keys before the printer runs (`JNI/openzl-jni/src/main/java/io/github/hybledav/OpenZLProtobuf.java:392-393`) are left out; whitespace is that of current Unicode, without U+180E.
- GraphWorklist.ReachableGraphs: the text written for each graph and the error for a compressor without a starting graph are left out.
- SchemaClosure.SchemaRegistry.RegisterSchema: file names are unique, so a file is its name; null arguments are rejected before the modelled part.
- JNI access, exceptions and pinning, performance counters, enum mappings, argument guards, and the array, direct, numeric and metadata wrappers under `JNI/compressor/`: no logic beyond calling OpenZL.
- Benchmarks, data loaders, dashboards and build files: measurement and input or output.
