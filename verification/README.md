# A verified model of the MPack codec, the argz vectors and the log transformers

This project models, in Dafny, the parts of the repository whose correctness is not visible from any one function, and
proves what they are for.

- **MPack** (`3rd-party/mpack`). Four stateful parts share one wire format. `Wire` gives the tags, `Formats` ties them to the literal formats of the MessagePack specification, `Values` gives the meaning:
  object trees, their encoding, and a recursive-descent decoder `Decode` that is the yardstick for everything else.
  `NodeGraph`, `GraphPaths`, `Tree` and `TreeParser` are the tree parser: an explicit level stack, a byte budget, a paged node
  allocator, and pause and resume on a stream. `Tracking` and `Writer` are the buffered, tracked writer, `CallGrammar` the language of its legal calls, `Reader` the
  buffered reader with `mpack_discard`, and `Utf8` the string check. `Codec` composes writer, parser and reader end to end. The build modelled is the default one:
  no extensions, no compatibility mode, an allocator that succeeds. Floats and doubles are bit patterns, node pointers
  are (page, index) pairs.
- **argz and search paths** (`3rd-party/ltdl`). `Argz` edits a NUL-separated buffer in place and shows that it is a
  sorted set; `SearchPath` covers the canonical form of a path, its splitting and its rejoining.
- **Log transformers** (`utils`). `LogSlices` splits a log and extracts stretches of it, `OldLog` turns rows into
  aligned columns, `FlatFile` writes and reads the flat format, `Quantities` says which component stands in which column, `OldConvert` joins the two, `Perf` is the running mean and variance.

How the proofs fit together: each part has a simple meaning (`Decode`, an append-only output, the rest of a byte stream,
a list of strings, the rows of a log, a list of columns), and each method is proved against it whichever fast, slow or
failing branch it takes. The tree parser's invariant (`Tree.BookedOn`) says that reading the pending slots as one flat
queue completes the message, and plans for every allocated node the object it must denote; the plan is discharged when
the stack empties. The writer's invariant (`Tracking.SoundOn`) says that the output becomes a sequence of whole objects
once exactly what the open stack owes is supplied.

Read functions, fill functions and everything else the outside world decides are nondeterministic: `Sources.Source`
delivers any prefix of what remains, in any chunks, possibly nothing.

Seven properties turned out to hold only under a condition, which is stated and proved exactly:

- Canonicalizing a search path twice is canonicalizing it once if and only if no component made only of slashes comes
  after one that is not (`SearchPath.CanonicalIdempotent`; `a:/:b` is the counterexample in `SearchPath.UntidyPath`).
- Splitting and rejoining restores a canonical path if and only if no component made only of slashes stands between a
  real one and the last component (`SearchPath.JoinListed`; `a:/:b` again, in `SearchPath.UnrestoredPath`).
- The loop of `argz_stringify` stays inside its block if and only if the block has at least two bytes, that is, if the
  path was more than separators (`SearchPath.StringifyInside`, `SearchPath.BlockOfPath`; `:` is the counterexample in
  `SearchPath.LoneSeparator`).
- The average of the performance report is the mean of the samples that count if and only if a later sample is not zero
  or the first one is zero (`Perf.ShowPerf`, `Perf.LonelySample`): with no later sample it stays 0.
- The columns of the old-log converter have one cell per record if and only if the expanded names of every key list in
  force are distinct (`OldLog.ReadLog`; the input is in `OldLog.CollidingKeys`).
- With distinct names, the columns of the old-log converter show what was logged if and only if no 64-bit counter in force is 2^32 or more
  (`OldLog.ShownExactly`, `OldLog.LargeCounter`): it reads such a counter through the 32-bit accessor.
- The tree parser's size updates are right if and only if it gets past no map of 2^31 pairs or more, with enough bytes
  behind it and within the limits (`Tree.FitsExact`; the input is in `Tree.LargeMap`), for whole objects: if none of their maps is that large.

Every lemma carries `{:induction false}`: the proofs are the ones written down. `hide` statements keep definitions that a
proof does not need out of the solver's sight.

## Model

| member | source | states |
|---|---|---|
| `Wire.DecodeTagStable` | 3rd-party/mpack/mpack.c:2623-2965 | A tag verdict other than "cut short" never changes when more bytes arrive: the ground on which refilling readers stand. |
| `Wire.TagRoundTrip` | 3rd-party/mpack/mpack.c:1399-1542 | For every tag and whatever bytes follow, parsing the emitted bytes gives that tag (a non-negative signed integer comes back unsigned) and the exact size. With the literal formats of `Formats` and minimality this fixes the emitted bytes. |
| `Wire.IntRoundTrip` | 3rd-party/mpack/mpack.c:1750-1785 | Every 64-bit signed integer, through all nine formats the writer chooses from, is read back as itself. |
| `Wire.UintRoundTrip` | 3rd-party/mpack/mpack.c:1672-1686 | Every 64-bit unsigned integer, through all five formats, is read back as itself. |
| `Wire.LengthRoundTrip` | 3rd-party/mpack/mpack.c:1853-1890 | Every 32-bit str and bin length is read back as itself. |
| `Wire.CountRoundTrip` | 3rd-party/mpack/mpack.c:1825-1851 | Every 32-bit array and map count is read back as itself. |
| `Wire.Load64Store` | 3rd-party/mpack/mpack.h:2039-2100 | Loading what was stored big-endian gives the 64-bit value back, at any place in a buffer. |
| `Wire.TagMinimal` | 3rd-party/mpack/mpack.c:1627-1902 | No byte string that parses to an equal tag, equal under the tag comparison, is shorter than the emitted one. |
| `Wire.TagCmpOrder` | 3rd-party/mpack/mpack.c:306-380 | The tag comparison is antisymmetric, transitive and zero exactly for tags that agree once non-negative signed integers are taken as unsigned. |
| `Wire.TagCmpSign` | 3rd-party/mpack/mpack.c:306-380 | Within a type the smaller comes first: false before true, integers by value whatever their sign and type, lengths and counts by size, floats and doubles by the first byte in which their memory images differ. |
| `Wire.TagCmpTypes` | 3rd-party/mpack/mpack.c:318-319 | Tags of different types come in the order nil, bool, integer, float, double, str, bin, array, map. |
| `Wire.MemCmpSign` | 3rd-party/mpack/mpack.c:360-375 | Memory blocks are ordered by the first byte in which they differ. |
| `Wire.ImageReversed` | 3rd-party/mpack/mpack.c:371-374 | The memory image that floats are compared by is the stored form backwards: a little-endian host. |
| `Formats.SingleFormats` | 3rd-party/mpack/mpack.c:2677-2735 | Every one-byte format against its literal type bytes: both fixints, fixmap, fixarray, fixstr, nil, false and true; 0xc1 is invalid and the ext formats are unsupported. |
| `Formats.WideFormats` | 3rd-party/mpack/mpack.c:2737-2960 | Every format of several bytes with an unsigned payload (bin, float, double, uint, str, array, map), also where the writer would choose a shorter one: its type byte decides the kind, and the length, value or count is the sum of the bytes times their powers of 256. |
| `Formats.SignedFormats` | 3rd-party/mpack/mpack.c:2822-2848 | The four signed formats are read in two's complement, non-negative payloads included. |
| `Formats.CutFormats` | 3rd-party/mpack/mpack.c:2623-2965 | A tag is cut short exactly if bytes of its format are missing, and takes exactly the bytes of its format. |
| `Formats.Loads` | 3rd-party/mpack/mpack.h:2015-2100 | The big-endian loads read the number that the bytes spell. |
| `Formats.DecodedShape` | 3rd-party/mpack/mpack.c:4365-4391 | A decoded str or bin has as many bytes as its tag says, an array as many elements, a map twice as many; anything else has none. |
| `Values.ValueRoundTrip` | 3rd-party/mpack/mpack.c:2623-3008 | Encoding any well-formed list of object trees and decoding it back yields the same trees up to tag equality, and stops exactly at the last byte, whatever follows. |
| `Values.ValueMinimal` | 3rd-party/mpack/mpack.c:1627-1902 | Among all byte strings that decode to equal trees the emitted encoding is a shortest one. |
| `Values.DecodeStep` | 3rd-party/mpack/mpack.c:4365-4391 | Reading one head turns n pending objects into its elements followed by the other n - 1 in one flat queue: the refinement step from recursive descent to an explicit stack. |
| `Values.DecodeStable` | 3rd-party/mpack/mpack.c:4180-4262 | A decoding that is complete or invalid stays so when bytes are appended. |
| `Values.ShortWithin` | 3rd-party/mpack/mpack.c:4180-4262 | An object that a buffer cuts short ends past the end of that buffer, so refusing to go on is never premature. |
| `Values.DecodeWithin` | 3rd-party/mpack/mpack.c:4876-4909 | Bytes past an object play no part in decoding it. |
| `Values.DecodeShift` | 3rd-party/mpack/mpack.c:4947-4970 | Moving the unparsed bytes to the front of the buffer changes offsets and nothing else. |
| `Values.DecodeNext` | 3rd-party/mpack/mpack.c:4932-4970 | One more object read off the rest of a stream extends the list of objects decoded so far. |
| `Values.DecodeWellFormed` | 3rd-party/mpack/mpack.c:4473-4836 | The decoder builds only trees whose payload lengths and element counts match their tags. |
| `NodeGraph.DenotesUnique` | 3rd-party/mpack/mpack.c:4365-4457 | A node graph (tags, contiguous children, str and bin offsets) denotes at most one object. |
| `NodeGraph.AllocInPage` | 3rd-party/mpack/mpack.c:4393-4397 | Taking nodes from the current page yields slots no node uses and keeps the page accounting. |
| `NodeGraph.AllocSeparate` | 3rd-party/mpack/mpack.c:4420-4432 | A compound too large for the page, or met while more than an eighth of it is left, gets a page of its own, filled to the last slot. |
| `NodeGraph.AllocNewPage` | 3rd-party/mpack/mpack.c:4434-4445 | A fresh standard page is started only when at most an eighth of the old one is unused. |
| `NodeGraph.WrittenStep` | 3rd-party/mpack/mpack.c:4839-4870 | Writing one node keeps every node parsed before it in agreement with the object it must denote. |
| `NodeGraph.PlanDenotes` | 3rd-party/mpack/mpack.c:4876-4909 | Once nothing is pending the whole graph denotes the decoded object. |
| `GraphPaths.PathsApart` | 3rd-party/mpack/mpack.c:4393-4457 | The node graph is a tree: different paths of element indices from the root lead to different nodes. |
| `GraphPaths.PathsLead` | 3rd-party/mpack/mpack.c:4365-4457 | The paths that lead somewhere in the graph are exactly those of the object it denotes. |
| `GraphPaths.Inhabited` | 3rd-party/mpack/mpack.c:4393-4457 | The slots handed out for a message are exactly the nodes that can be walked to from its root: none is leaked and none is shared. |
| `GraphPaths.RangesApart` | 3rd-party/mpack/mpack.c:4393-4457 | The element ranges of any two different nodes of the graph lie in allocated pages and share no slot. |
| `Tree.PendingAdvanced` | 3rd-party/mpack/mpack.c:4887-4907 | The level stack is a queue: stepping to the next child and pushing a level replaces the first pending slot by the new children. |
| `Tree.SettledAt` | 3rd-party/mpack/mpack.c:4848-4861 | After a node the parser goes on exactly where the node ends; after a map of 2^31 pairs or more, exactly 2^32 bytes further on. |
| `Tree.FitsExact` | 3rd-party/mpack/mpack.c:4839-4869 | Every size update lands on the end of its node if and only if the parser gets past no map of 2^31 pairs or more: none is reached with its bytes there and its nodes and bytes within the limits. |
| `Tree.FitsDecoded` | 3rd-party/mpack/mpack.c:4839-4869 | Without limits, for objects that are all there, that condition is the same as: no map among them has 2^31 pairs or more. |
| `Tree.LargeMap` | 3rd-party/mpack/mpack.c:4857-4861 | The input: a complete map of 2^31 pairs of nils, after whose head the parser goes on at the end of the data instead of at byte 5. |
| `Tree.FitsLimited` | 3rd-party/mpack/mpack.c:4380-4386 | Limits only make the condition easier to meet. |
| `Tree.SmallFits` | 3rd-party/mpack/mpack.c:4848-4861 | Any data below 4 GiB satisfies the condition. |
| `Tree.Refused` | 3rd-party/mpack/mpack.c:4257-4299 | A reservation within the current head is refused only if the buffer does not hold the whole message. |
| `Tree.NeedFits` | 3rd-party/mpack/mpack.h:5908-5926 | If the message lies within some bound, so do the next head, its children and one byte for every node already promised. |
| `Tree.SlotsNeeded` | 3rd-party/mpack/mpack.c:4380-4391 | Children that exceed a limit belong to a message that exceeds it. |
| `Tree.FateExact` | 3rd-party/mpack/mpack.c:4839-4909 | How a parse of data with nothing behind it ends, as a walk over heads, reservations and limits: well exactly if the objects are all there and their nodes are within the node limit and the pool, otherwise with the error of the first bad byte, or of running out of bytes or nodes before it. |
| `Tree.FateShort` | 3rd-party/mpack/mpack.c:4279-4300 | A reservation for a head, or for elements that the node limit allows, that the data cannot meet decides the end. |
| `Tree.BookedStep` | 3rd-party/mpack/mpack.c:4839-4870 | One parsed node preserves the invariant that ties stack, offset, node memory and the object being decoded. |
| `Tree.CommitStep` | 3rd-party/mpack/mpack.c:4839-4870 | Writing the node, settling the budget and advancing the stack keep conservation and the invariant together. |
| `Tree.Finished` | 3rd-party/mpack/mpack.c:4903-4907 | When the last level empties, the root denotes the decoded object, the offset is its length, the root is among the slots handed out, and those are listed once each and are as many as the object has nodes. |
| `TreeParser.Parser.ReserveFill` | 3rd-party/mpack/mpack.c:4180-4262 | Growing the buffer by doubling, capped by the size limit, and reading chunks loses and reorders no byte and raises the free byte count by exactly the bytes read. "Too big" is flagged exactly when the bytes in the buffer and the reservation exceed the limit; failure without an error comes with exactly one empty read. |
| `TreeParser.Parser.Fill` | 3rd-party/mpack/mpack.c:4232-4258 | The read loop goes on until the reserved bytes are there, and gives up only on a read that delivers nothing, of which there is exactly one then and none otherwise. |
| `TreeParser.Parser.Reserve` | 3rd-party/mpack/mpack.c:4279-4300 | A reservation succeeds exactly when the bytes are there, reading them if it must, and never gives back bytes already promised. |
| `TreeParser.Parser.ReserveNode` | 3rd-party/mpack/mpack.c:4279-4300 | A refusal means that the message is not all in the buffer, is over a limit or invalid, and leaves the byte budget conserved. |
| `TreeParser.Parser.Alloc` | 3rd-party/mpack/mpack.c:4393-4457 | Hands out contiguous unused nodes in page and pool mode, leaving all nodes in use untouched: from the current page if they fit, else from a page of their own or a new current page by the one-eighth rule; fails only in a pool that is too small. |
| `TreeParser.Parser.AllocChildren` | 3rd-party/mpack/mpack.c:4393-4457 | The same for the elements of a compound; a pool too small for them is too small for the message. |
| `TreeParser.Parser.CountChildren` | 3rd-party/mpack/mpack.c:4372-4391 | Counts the elements and reserves a byte for each; a paused node is counted again, at most once for every pause, and the limit is flagged only if this count exceeds it. |
| `TreeParser.Parser.ReadTag` | 3rd-party/mpack/mpack.c:4473-4836 | The tag read from the buffer is the one at the parse offset of the stream; a bad or missing tag is reported for what it is. |
| `TreeParser.Parser.ReadHead` | 3rd-party/mpack/mpack.c:4459-4462 | Str and bin payloads are located where they lie in the data. |
| `TreeParser.Parser.ParseChildren` | 3rd-party/mpack/mpack.c:4365-4457 | Reserves a byte and allocates a node for every element and opens a level for them, or says why not, with nothing half done. |
| `TreeParser.Parser.Commit` | 3rd-party/mpack/mpack.c:4848-4907 | After a node the parsed bytes, one byte for every pending node, and the free bytes still add up to the buffer. |
| `TreeParser.Parser.ParseNode` | 3rd-party/mpack/mpack.c:4839-4870 | Every step keeps the invariant and consumes at least a byte; stopping leaves a state that can be resumed. |
| `TreeParser.Parser.ContinueParsing` | 3rd-party/mpack/mpack.c:4876-4909 | The loop ends with the whole message parsed, or stopped with its reason. |
| `TreeParser.Parser.PlaceRoot` | 3rd-party/mpack/mpack.c:4978-5020 | A message starts with one byte, one node and one level, in page mode and in pool mode. |
| `TreeParser.Parser.ParseStart` | 3rd-party/mpack/mpack.c:4932-5021 | Dropping the previous message loses no unread byte and waits for the first byte of the next. |
| `TreeParser.Parser.TryParse` | 3rd-party/mpack/mpack.c:5054-5069 | Non-blocking parse: while no error is flagged it succeeds on exactly those calls after which the buffered bytes hold a complete message, and gives up only on a read that delivers nothing; on success the graph denotes the message, the size is its length, the trailing byte count is what is left, and size and node count are within the limits. |
| `TreeParser.Parser.PathsToNodes` | 3rd-party/mpack/mpack.c:4393-4457 | The nodes of a parsed message form a tree. |
| `TreeParser.Parser.ElementsApart` | 3rd-party/mpack/mpack.c:4393-4457 | In a parsed message, in page mode and in pool mode, the element ranges of different nodes are allocated and share no slot. |
| `TreeParser.Parser.NodesOnPage` | 3rd-party/mpack/mpack.c:4420-4445 | After a parse the slots in use on every page come first and are exactly nodes of the message; a page left behind has at most an eighth of a standard page after them. |
| `TreeParser.Parser.Parse` | 3rd-party/mpack/mpack.c:5023-5052 | In memory, success exactly when one complete object starts at offset 0 and the node limit or pool suffices; on a blocking stream with no limits, exactly when the stream holds one, and with limits whenever they are twice its length and its node count. The error is exactly that of `Tree.Fate` in memory and on a blocking stream without limits, and is explained by the data everywhere: unsupported and invalid by the decoder, too big by tight limits, I/O by exactly one read that delivered nothing, on a blocking stream its end. |
| `TreeParser.Parser.TryNext` | 3rd-party/mpack/mpack.c:5054-5069 | Seen from the stream, an attempt takes the first message off and hands out a graph that denotes it, or takes nothing. |
| `TreeParser.Parser.Drain` | 3rd-party/mpack/mpack.c:4932-5069 | For every way a stream is cut into chunks, empty reads included, repeated attempts yield node graphs that denote the first messages of the stream in order, and consume exactly their bytes, whether or not an error ends the run. Without an error the messages and the reads that delivered nothing make up the attempts; on a blocking stream fewer messages than attempts means that no further one is there. |
| `TreeParser.Parser.InMemory` | 3rd-party/mpack/mpack.c:5103-5145 | A tree over data in memory, with pages or a pool. |
| `TreeParser.Parser.OnStream` | 3rd-party/mpack/mpack.c:5156-5171 | A tree over a read function. |
| `Sources.Source.Read` | 3rd-party/mpack/mpack.c:4232-4258 | A read function: any prefix of at most the asked size, possibly none, and in order; the reads that deliver nothing are counted. |
| `Tracking.ContinuesTag` | 3rd-party/mpack/mpack.c:674-679 | Writing a tag where an element is owed leaves an output that becomes complete once its payload and children are supplied. |
| `Tracking.SoundTag` | 3rd-party/mpack/mpack.c:599-619 | Counting an element and opening a compound keeps "the output lacks exactly what the stack owes". |
| `Tracking.SoundObject` | 3rd-party/mpack/mpack.c:1390-1393 | A whole object counts as one element and keeps the output sound. |
| `Tracking.SoundBytes` | 3rd-party/mpack/mpack.c:681-706 | Raw bytes of an open str or bin reduce what is owed by their number. |
| `Tracking.SoundPop` | 3rd-party/mpack/mpack.c:621-647 | Closing a finished compound owes nothing and changes nothing. |
| `Tracking.StrObject` | 3rd-party/mpack/mpack.c:1944-1997 | A str written in one piece is one object. |
| `Writer.Writer.Growable` | 3rd-party/mpack/mpack.c:1103-1129 | A growable writer starts empty, with no error and nothing open. |
| `Writer.Writer.Fixed` | 3rd-party/mpack/mpack.c:951-964 | A writer over a caller's buffer starts empty. |
| `Writer.Writer.Flush` | 3rd-party/mpack/mpack.c:1003-1064 | Both modes of the growable flush, whole buffer kept or extra data appended, preserve every byte, and the buffer is doubled until all fits. |
| `Growth.Doubled` | 3rd-party/mpack/mpack.c:1041-1043 | Doubling stops at the first size that is enough, below twice what is needed. |
| `Writer.Writer.FlushUnchecked` | 3rd-party/mpack/mpack.c:1200-1207 | Flushing a growable writer keeps the output and at least doubles a non-empty buffer. |
| `Writer.Writer.EnsureRoom` | 3rd-party/mpack/mpack.c:1232-1264 | For up to 32 bytes a growable writer without error always makes room; a fixed one always fails with "too big". |
| `Writer.Writer.WriteNativeStraddle` | 3rd-party/mpack/mpack.c:1266-1303 | Data that does not fit is appended whole, in whatever mix of copy, flush and growth; it fails exactly when the writer cannot grow. |
| `Writer.Writer.WriteNative` | 3rd-party/mpack/mpack.c:1305-1314 | Appends the bytes in both the fast and the straddling branch. |
| `Writer.Writer.WriteEncoded` | 3rd-party/mpack/mpack.c:1620-1625 | An encoded tag is appended whole; it fails exactly when the buffer is fixed and lacks room. |
| `Writer.Writer.TrackElement` | 3rd-party/mpack/mpack.c:649-679 | An element is allowed at top level or where one is owed, and counted there; anything else is flagged as a bug. |
| `Writer.Writer.TrackBytes` | 3rd-party/mpack/mpack.c:681-706 | Raw bytes are allowed only inside a str or bin that still owes them. |
| `Writer.Writer.WriteTag` | 3rd-party/mpack/mpack.c:1337-1366 | Emits the tag, tracks it and keeps the output sound. The outcome is exact: a bug where tracking forbids the element, too big where a caller's buffer lacks room, and otherwise success; an earlier error stays. |
| `Writer.Writer.Finish` | 3rd-party/mpack/mpack.c:916-919 | Closing succeeds exactly when the innermost open compound has that type and owes nothing. |
| `Writer.Writer.WriteBytes` | 3rd-party/mpack/mpack.c:2015-2019 | Appends payload bytes and counts them, with the exact outcome. |
| `Writer.Writer.WriteObjectBytes` | 3rd-party/mpack/mpack.c:1390-1393 | A pre-encoded object counts as one element, with the exact outcome. |
| `Writer.Writer.WriteStr` | 3rd-party/mpack/mpack.c:1944-1997 | All four branches (fixstr, copy in one piece, straddling, large) emit tag and contents as one object, and fail over a caller's buffer exactly if tag and contents together do not fit. |
| `Writer.Writer.WriteBin` | 3rd-party/mpack/mpack.c:1999-2005 | Opening, filling and closing a bin emits one object, and fails over a caller's buffer exactly if tag and contents together do not fit. |
| `Writer.Writer.WriteFlush` | 3rd-party/mpack/mpack.c:1209-1229 | Flushing between messages keeps the output; it flags a bug exactly inside a compound or without a flush function. |
| `Writer.Writer.Run` | 3rd-party/mpack/mpack.c:1337-2019 | For every sequence of calls that ends without error the output is the concatenation of the encodings and the tracking state is that of the replayed calls; with nothing open it is a concatenation of whole objects, one per top-level element. It succeeds if and only if the calls are legal and, over a caller's buffer, none flushes and the output fits; otherwise the error is that of the first call that fails. |
| `Writer.VerdictExact` | 3rd-party/mpack/mpack.c:911-929 | The first call that fails decides: no call fails exactly if tracking accepts the run and, over a caller's buffer, nothing flushes and everything fits; a growable writer is never too big. |
| `Writer.Writer.WholeObjects` | 3rd-party/mpack/mpack.c:728-734 | No error and an empty track stack mean that exactly the counted objects, each complete, were emitted. |
| `Writer.Writer.WriteValue` | 3rd-party/mpack/mpack.c:1337-1366 | Writing any well-formed tree through the tracked writer succeeds and emits exactly its encoding. |
| `Writer.Writer.Destroy` | 3rd-party/mpack/mpack.c:1066-1101 | Teardown hands back exactly the bytes written, in a block trimmed to them if less than half of it was used, or nothing after an error. |
| `CallGrammar.ObjectsReplay` | 3rd-party/mpack/mpack.c:599-706 | Inside an open array or map the tracker follows the grammar of calls: it gets to the end of the announced objects exactly if they are spelled, and otherwise never closes the compound. |
| `CallGrammar.TopReplay` | 3rd-party/mpack/mpack.c:599-734 | At top level it accepts a run and ends empty exactly if the run is a list of whole objects with flushes between them, and counts them. |
| `CallGrammar.Accepted` | 3rd-party/mpack/mpack.c:599-743 | The tracking stack accepts exactly the language of properly opened, filled and closed calls. |
| `CallGrammar.Record` | 3rd-party/mpack/mpack.c:911-929 | A growable writer ends a run without error and with nothing open if and only if the run is in the language; its output is then exactly that many whole objects. |
| `CallGrammar.RecordInto` | 3rd-party/mpack/mpack.c:951-964 | Over a caller's buffer a run ends without error and with nothing open if and only if it is in the language, flushes nothing, and its output fits. |
| `Reader.Reader.FillRange` | 3rd-party/mpack/mpack.c:2269-2291 | For every fill function the loop returns between the minimum and the maximum, in order, or flags an I/O error exactly when the source is too short. |
| `Reader.Reader.EnsureStraddle` | 3rd-party/mpack/mpack.c:2293-2334 | Compacting and refilling keep buffered bytes plus unread source equal to the stream; it fails exactly without a fill function, for more than the buffer holds, or at the end. |
| `Reader.Reader.Ensure` | 3rd-party/mpack/mpack.h:4259-4270 | Same, with the fast path when the bytes are already buffered. |
| `Reader.Reader.Refill` | 3rd-party/mpack/mpack.c:2392-2398 | Filling the whole buffer for a small read delivers its bytes and keeps the rest. |
| `Reader.Reader.ReadNativeStraddle` | 3rd-party/mpack/mpack.c:2337-2404 | Both branches, through the buffer and straight into the target, deliver the next bytes of the stream; after an error, or in memory when the bytes are missing, the target is zeroed. |
| `Reader.Reader.ReadNative` | 3rd-party/mpack/mpack.h:4272-4281 | Reads what a flat byte string would give, with the same error when it is too short. |
| `Reader.Reader.ReadInPlace` | 3rd-party/mpack/mpack.c:2587-2604 | In-place reads give the same bytes, exactly up to the size of the buffer, and otherwise the right error; after an error nothing. |
| `Reader.Reader.SkipUsingFill` | 3rd-party/mpack/mpack.c:2455-2481 | Skipping by whole buffers advances by exactly the count. |
| `Reader.Reader.SkipBytes` | 3rd-party/mpack/mpack.c:2438-2453 | Skips exactly the count or flags the right error. |
| `Reader.Reader.ParseTag` | 3rd-party/mpack/mpack.c:2623-2965 | The tag parsed from the buffer is the tag of the flat stream, with the same error cases. |
| `Reader.Reader.ReadTag` | 3rd-party/mpack/mpack.c:2967-3008 | Takes exactly the bytes of the tag; after an error it answers nil. |
| `Reader.Reader.Discard` | 3rd-party/mpack/mpack.c:3025-3066 | Terminates for every declared count, succeeds exactly on a complete object of the recursive decoder and advances by exactly its length; otherwise the error is the decoder's, and cut data is invalid in memory and an I/O error on a stream. Data in memory is never written to. |
| `Reader.Reader.DiscardArray` | 3rd-party/mpack/mpack.c:3044-3052 | Succeeds exactly when all elements decode, and fails with the error of the first that does not. |
| `Reader.Reader.DiscardMap` | 3rd-party/mpack/mpack.c:3053-3062 | Succeeds exactly when all keys and values decode, and fails with the error of the first that does not. |
| `Reader.Reader.InMemory` | 3rd-party/mpack/mpack.c:2100-2113 | The stream is the data. |
| `Reader.Reader.OnStream` | 3rd-party/mpack/mpack.c:2115-2133 | The stream is the source, read through a buffer of at least the minimum size. |
| `Codec.SameCanon` | 3rd-party/mpack/mpack.c:306-380 | Two trees agree node by node under the tag comparison if and only if their canonical forms, with non-negative integers unsigned, are the same tree. |
| `Codec.EncodedObject` | 3rd-party/mpack/mpack.c:2623-3008 | The encoding of any well-formed object decodes, to its last byte, to a tree equal under the tag comparison. |
| `Codec.EncodedFits` | 3rd-party/mpack/mpack.c:4848-4861 | An encoded tree meets the tree parser's condition if and only if none of its maps has 2^31 pairs or more. |
| `Codec.Write` | 3rd-party/mpack/mpack.c:1316-1335 | Writing a tree through the tracked growable writer and destroying it hands back exactly its encoding. |
| `Codec.ThroughTree` | 3rd-party/mpack/mpack.c:5023-5052 | What the writer emits the tree parser accepts whole, and its node graph denotes an equal tree. |
| `Codec.MessagesLeft` | 3rd-party/mpack/mpack.c:4932-4976 | After the first few messages of a stream of whole messages comes the next one, or nothing; never anything invalid. |
| `Codec.Receive` | 3rd-party/mpack/mpack.c:5054-5069 | A stream of encoded messages received without limits, however it is cut: no error is ever flagged, the node graphs that come out denote, in order, trees equal to those sent, the rest of the stream is the encoding of the rest, and one comes with every attempt that does not end on an empty read; on a blocking stream with every attempt until all are there. |
| `Codec.ThroughReader` | 3rd-party/mpack/mpack.c:3025-3066 | What the writer emits the buffered reader discards exactly, however the stream is cut and whatever follows. |
| `Codec.DiscardAgrees` | 3rd-party/mpack/mpack.c:3025-3066 | On any data in memory discard and the tree parser accept or refuse together, and discard advances by the tree's size. |
| `Utf8.Check` | 3rd-party/mpack/mpack.c:748-844 | Accepts exactly the strings spelled by the grammar of section 4 of RFC 3629; the no-null variant also excludes NUL. |
| `Utf8.LeadingChar` | 3rd-party/mpack/mpack.c:751-833 | Finds the character at the front, or reports that no prefix at all is one. |
| `Utf8.CharIsScalar` | 3rd-party/mpack/mpack.c:751-833 | Every grammar character is the encoding of a scalar value: no overlong form, no surrogate, nothing above 10FFFF. |
| `Utf8.ScalarIsChar` | 3rd-party/mpack/mpack.c:751-833 | Every scalar value's encoding is a grammar character that decodes to it. |
| `Utf8.PrefixFree` | 3rd-party/mpack/mpack.c:751-833 | No character is a proper prefix of another, so the greedy scan is complete. |
| `Argz.StrCmpOrder` | 3rd-party/ltdl/ltdl.c:3613-3635 | String comparison is a total order. |
| `Argz.StrCmpSign` | 3rd-party/ltdl/ltdl.c:3627-3632 | It is negative exactly if the first string is a proper prefix of the second or has the smaller byte at the first place where they differ. |
| `Argz.StrLenAt` | 3rd-party/ltdl/ltdl.c:748-782 | From anywhere inside an entry the terminator scan finds the end of that entry and no other. |
| `Argz.Vector.EntryFront` | 3rd-party/ltdl/ltdl.c:707-711 | Scanning back from anywhere inside an entry stops at its start. |
| `Argz.Vector.Next` | 3rd-party/ltdl/ltdl.c:748-782 | From anywhere inside an entry, steps to the next one; from NULL, to the first; past the last, NULL. |
| `Argz.Vector.AppendBlock` | 3rd-party/ltdl/ltdl.c:586-618 | Appends the block. |
| `Argz.Vector.InsertBlock` | 3rd-party/ltdl/ltdl.c:713-735 | Growing, shifting the tail by overlapping move and copying splices the string in. |
| `Argz.Vector.Insert` | 3rd-party/ltdl/ltdl.c:691-738 | From a pointer anywhere inside an entry, inserts before that entry; from NULL, at the end. |
| `Argz.Vector.InsertInOrder` | 3rd-party/ltdl/ltdl.c:3613-3635 | Keeps the vector strictly increasing in dictionary order, stated byte by byte, and its set of strings the old one plus the new one. |
| `Argz.Vector.InsertAll` | 3rd-party/ltdl/ltdl.c:3613-3635 | From an empty vector any sequence of ordered inserts leaves the list of the set inserted, strictly increasing in dictionary order. |
| `SearchPath.EmitCanonical` | 3rd-party/ltdl/ltdl.c:2595-2656 | The byte loop's output is the components, from the first that is not only slashes, stripped and joined. |
| `SearchPath.Canonicalize` | 3rd-party/ltdl/ltdl.c:2595-2656 | The in-place loop over source and destination cursors computes that canonical form. |
| `SearchPath.StripClean` | 3rd-party/ltdl/ltdl.c:2625-2646 | Stripping removes repeated and trailing slashes, is the identity on clean components, and empties exactly those made of slashes. |
| `SearchPath.CanonicalIdempotent` | 3rd-party/ltdl/ltdl.c:2595-2656 | Canonicalization is idempotent if and only if no component made only of slashes follows one that is not. |
| `SearchPath.UntidyPath` | 3rd-party/ltdl/ltdl.c:2595-2656 | `a:/:b` canonicalizes to `a::b` and then to `a:b`: idempotence fails. |
| `SearchPath.CreateSep` | 3rd-party/ltdl/ltdl.c:628-681 | The splitting loop lays out the NUL-separated block of exactly the path's entries. |
| `SearchPath.List` | 3rd-party/ltdl/ltdl.c:748-782 | Stepping through a vector lists its entries. |
| `SearchPath.StringifyInside` | 3rd-party/ltdl/ltdl.c:801-807 | Counting down an unsigned 64-bit counter, every offset visited lies in the block if and only if the block has at least two bytes. |
| `SearchPath.BlockOfPath` | 3rd-party/ltdl/ltdl.c:628-681 | The block of a path has at least two bytes if and only if the path is more than separators. |
| `SearchPath.LoneSeparator` | 3rd-party/ltdl/ltdl.c:801-807 | The input: the vector of `:` is one byte long, and the loop leaves it at its first access. |
| `SearchPath.Stringify` | 3rd-party/ltdl/ltdl.c:790-810 | Every NUL strictly between the first and the last offset becomes the separator, the rest stays; the loop stays inside exactly on blocks of two bytes or more. |
| `SearchPath.RejoinedBlock` | 3rd-party/ltdl/ltdl.c:790-810 | Applied to a block whose first entry is not empty it gives the joined string. |
| `SearchPath.CanonicalEntries` | 3rd-party/ltdl/ltdl.c:628-681 | Splitting a canonical path lists its non-empty stripped components, and an empty string after a final separator. |
| `SearchPath.JoinListed` | 3rd-party/ltdl/ltdl.c:790-810 | Joining that list gives the canonical path back if and only if no component made only of slashes stands between a real one and the last component. |
| `SearchPath.RestorableParts` | 3rd-party/ltdl/ltdl.c:2595-2656 | That condition on the path's components is the same as: no stripped component but the last is empty, from the first real one on. |
| `SearchPath.UnrestoredPath` | 3rd-party/ltdl/ltdl.c:790-810 | The input: `a:/:b` comes back as something other than its canonical form. |
| `SearchPath.RoundTrip` | 3rd-party/ltdl/ltdl.c:2595-2656 | For every path: the vector of the canonical path lists exactly those components; with a real component stringifying restores the canonical path under exactly that condition, and always on a tidy path; without one it leaves the block. |
| `LogSlices.FaithfulStep` | utils/mc_bin_utils.in.cpp:298-331 | A record goes to one part only, and a part that opens on a record without keys gets the keys in force written out. |
| `LogSlices.CountedStep` | utils/mc_bin_utils.in.cpp:298-331 | The byte accounting that bounds the number of parts. |
| `LogSlices.CutStep` | utils/mc_bin_utils.in.cpp:298-331 | One record extends the current piece, or opens the next exactly if the current one is full, with its keys spelled out if it lists none. |
| `LogSlices.Splitter.Feed` | utils/mc_bin_utils.in.cpp:298-331 | Every record keeps the parts, read one by one, equal to the rows so far, the cuts where they belong, and the byte accounting intact. |
| `LogSlices.Splitter.Split` | utils/mc_bin_utils.in.cpp:286-334 | The parts, each read on its own and put end to end, give exactly the rows of the log. They are consecutive pieces of it, and each is cut at the first record with which it has reached the part size (the file size from the last part asked for on), a re-keyed first record never being cut alone; at most `parts` files open when the file holds the log and re-adding keys costs less than a part. |
| `LogSlices.Extractor.Callback` | utils/mc_bin_utils.in.cpp:439-476 | One record keeps the files equal to the stretches where the key is in force. |
| `LogSlices.Extractor.Extract` | utils/mc_bin_utils.in.cpp:439-476 | The files are exactly the maximal stretches of rows where the key is in force, in order, each readable on its own. |
| `OldLog.PushesLabelled` | utils/mc_old_bin_to_flat.cpp:276-345 | The value pushed to a column is what the record says about it, for every type, if and only if it is not a 64-bit counter of 2^32 or more. |
| `OldLog.LargeCounter` | utils/mc_old_bin_to_flat.cpp:292-294 | A 64-bit counter of 2^32 comes out as 0, because it is read through the 32-bit accessor. |
| `OldLog.LabelledNames` | utils/mc_old_bin_to_flat.cpp:207-265 | Every column a value speaks about is among those created for it. |
| `OldLog.StoredKeeps` | utils/mc_old_bin_to_flat.cpp:107-114 | What a column stores of a cell: 0 for a magnitude below the smallest normal number, the cell itself otherwise, negative numbers, NaN and texts included. |
| `OldLog.DecimalSpells` | utils/mc_old_bin_to_flat.cpp:176-180 | The index of an element is written in decimal: digits that spell it, without leading zeros. |
| `OldLog.LogReader.AddKey` | utils/mc_old_bin_to_flat.cpp:164-175 | A column that appears late is filled with missing cells up to the current record, so all stay aligned. |
| `OldLog.LogReader.SetKeys` | utils/mc_old_bin_to_flat.cpp:198-275 | A key list fixes the columns in force and which existing columns are absent. |
| `OldLog.LogReader.PushRow` | utils/mc_old_bin_to_flat.cpp:276-345 | The values of a record go, in order, to the columns in force. |
| `OldLog.RowStep` | utils/mc_old_bin_to_flat.cpp:276-347 | Pushing a row and padding the absent columns keeps every column aligned with the rows. |
| `OldLog.LogReader.ReadRecord` | utils/mc_old_bin_to_flat.cpp:188-349 | After every record each column has one cell per record and one more for every time a list names it again; if none does, cell r is record r's. |
| `OldLog.CountedExactly` | utils/mc_old_bin_to_flat.cpp:276-347 | All columns have one cell for every row if and only if no row names a column twice. |
| `OldLog.CollidingKeys` | utils/mc_old_bin_to_flat.cpp:219-231 | The input: keys `a` with two coordinates and `a_x` name the column `a_x` twice. |
| `OldLog.RowReports` | utils/mc_old_bin_to_flat.cpp:105-114 | A cell shows its record's value for that key, a magnitude below the smallest normal number as 0 and every other number, NaN and text unchanged, or NaN or the empty string where the key is absent. |
| `OldLog.LargeHidden` | utils/mc_old_bin_to_flat.cpp:292-294 | A column of a 64-bit counter of 2^32 or more never shows what was logged. |
| `OldLog.ShownExactly` | utils/mc_old_bin_to_flat.cpp:155-351 | Every cell of every column shows what was logged if and only if no 64-bit counter under a key in force is 2^32 or more. |
| `OldLog.ReadLog` | utils/mc_old_bin_to_flat.cpp:155-351 | The whole log: a column for exactly the names ever listed; every column has one cell per record if and only if the expanded names of every list in force are distinct; then each cell is as its record has it, 64-bit counters cut to 32 bits, and the columns show what was logged if and only if no counter in force is that large. |
| `OldConvert.Convert` | utils/mc_old_bin_to_flat.cpp:353-386 | The converter end to end, for any rendering of numbers as eight bytes: the file reads back as one record for every aligned column, none twice and none missing, each with the column's name and all its cells. |
| `OldConvert.Lines` | utils/mc_old_bin_to_flat.cpp:353-359 | Going through the columns in any order writes each exactly once. |
| `FlatFile.LineRead` | utils/mc_old_bin_to_flat.cpp:80-103 | Reading a written column gives back its key and cells, whatever follows. |
| `FlatFile.LineExact` | utils/mc_old_bin_to_flat.cpp:125-148 | What is read as a column is exactly what the writer would have written for it. |
| `FlatFile.FileRoundTrip` | utils/mc_old_bin_to_flat.cpp:353-359 | A written file is read back as its columns, all of them and in order. |
| `FlatFile.FileExact` | utils/mc_old_bin_to_flat.cpp:353-359 | Any file that reads back as some columns is their image, byte for byte. |
| `FlatFile.Input.ReadLine` | utils/mc_old_bin_to_flat.cpp:91-103 | The reader of a column takes what the format says, or fails. |
| `FlatFile.Input.ReadTexts` | utils/mc_old_bin_to_flat.cpp:32-41 | The string column reader takes each string after its length. |
| `FlatFile.Input.ReadFile` | utils/mc_old_bin_to_flat.cpp:91-148 | Succeeds on every written file with exactly its columns, and on nothing else. |
| `FlatFile.LongestRow` | utils/mc_bin_utils.h:37-57 | The computed width of a ragged entry is the length of its longest row. |
| `FlatFile.EntrySize` | utils/mc_bin_utils.h:59-97 | The size counted for an entry is the number of columns written for it, for every type. |
| `FlatFile.CountColumns` | utils/mc_bin_to_flat.cpp:13-18 | The leading count equals the number of column records. |
| `FlatFile.SlotInjective` | utils/mc_bin_to_flat.cpp:286-297 | Distinct cells of the transposition go to distinct places of the flat buffer. |
| `FlatFile.Transpose` | utils/mc_bin_to_flat.cpp:275-297 | After the nested loops every place of the buffer holds element j of row i, or NaN. |
| `FlatFile.FilledColumn` | utils/mc_bin_to_flat.cpp:298-298 | The slice written for column j is element j of every row, or NaN. |
| `FlatFile.EveryCell` | utils/mc_bin_to_flat.cpp:275-299 | No element of a row is lost: it stands in the column of its index, at its row. |
| `Quantities.CellSays` | utils/mc_bin_to_flat.cpp:79-272 | Name and cell together, for every component of every type and against the literal names: the cell at a row is the component of the logged quantity that the column is named after. |
| `Quantities.SaidInCell` | utils/mc_bin_to_flat.cpp:79-272 | Conversely, every component of the quantity logged at a row stands, at that row, in the column of its name. |
| `Quantities.MissingBits` | utils/mc_bin_to_flat.cpp:63-71 | Where nothing was logged the cell has the bits of a quiet NaN, or of zero for integers and booleans. |
| `Quantities.TextColumn` | utils/mc_bin_to_flat.cpp:73-77 | A text entry is one column under its own name, empty where nothing was logged. |
| `Quantities.NumbersLayout` | utils/mc_bin_to_flat.cpp:20-42 | The bytes of a numeric column, place by place: a one, the key after its little-endian length, the number of cells, the cells. |
| `Quantities.TextsLayout` | utils/mc_bin_to_flat.cpp:44-53 | The bytes of a text column: a zero, the key after its length, the number of texts, the texts. |
| `Quantities.FirstText` | utils/mc_bin_to_flat.cpp:48-52 | Every text stands after its length. |
| `FlatFile.FillColumn` | utils/mc_bin_to_flat.cpp:80-102 | A component column has that component where the row is present and the missing value elsewhere. |
| `FlatFile.Output.PutTexts` | utils/mc_bin_to_flat.cpp:44-53 | Appends the image of a string column. |
| `FlatFile.Output.PutLines` | utils/mc_old_bin_to_flat.cpp:353-359 | The old converter writes the image of its columns. |
| `FlatFile.Output.PutRagged` | utils/mc_bin_to_flat.cpp:275-299 | Writes as many columns as the longest row has elements. |
| `FlatFile.Output.PutFixed` | utils/mc_bin_to_flat.cpp:79-272 | Writes one column per component. |
| `FlatFile.Output.Convert` | utils/mc_bin_to_flat.cpp:330-412 | The whole conversion: the file is the image of the columns of every entry after their number, and reading it recovers them all. |
| `Perf.ShowPerf` | utils/mc_bin_perf.cpp:121-143 | The loop ends with the sum of squared deviations, the variance, the count and the extremes of the samples that count; the reported average is their mean if and only if a later sample is not zero or the first one is zero. |
| `Perf.WelfordStep` | utils/mc_bin_perf.cpp:133-140 | The recurrence yields the mean and the sum of squared deviations of the extended list. |
| `Perf.Add` | utils/mc_bin_perf.cpp:133-140 | One pass of the loop keeps mean, spread, variance and extremes right. |
| `Perf.MeanIsLeast` | utils/mc_bin_perf.cpp:121-143 | The sum of squared deviations from the mean is the least from any centre, with the exact excess elsewhere. |
| `Perf.LonelySample` | utils/mc_bin_perf.cpp:121-143 | A first sample that is not zero followed by zero is reported with average 0, although it is the mean. |

## Left out

- `TreeParser.Parser.TryParse`, `TreeParser.Parser.Parse`, `TreeParser.Parser.Drain`: require that the parser gets past no map of 2^31 pairs or more (`Tree.Fits`), because it then goes on outside the data (`Tree.FitsExact`, `Tree.LargeMap`).
- `TreeParser.Parser.Parse`: on a stream with limits it does not say at which byte "too big" is flagged, because a retried node adds its children to the node count again and the size check depends on how the stream was cut; what is accepted is within the limits, what is refused exceeds them when its length is doubled and its nodes are counted once more for every pause, and without limits the verdict is exact.
- `TreeParser.Parser.ParseChildren`: the capacity of the parse stack (local array, then heap) is not modelled, the stack is a sequence; overflow of `size_t` in capacities and separate pages is not modelled.
- `TreeParser.Parser.ReserveFill`: read functions that flag an error or return -1 are not modelled; how much a single read asks for is not part of the contract.
- `Codec.ThroughTree`, `Codec.Receive`, `Codec.DiscardAgrees`: under the same condition on large maps.
- `Writer.Writer.WriteObjectBytes`: requires one whole object, as its documentation demands; the code does not check it.
- `Writer.Writer.Destroy`: only the growable teardown; closing with compounds open is reported by tracking and does not change the bytes handed back.
- `Writer.Writer.Run`: calls made after an error was flagged keep the error and their effect on the buffer is not described.
- `Reader.Reader.SkipBytes`: readers with a skip function of their own are not modelled, nor is tracking on the reading side.
- `SearchPath.Stringify`: what lies outside the block is not modelled; the call is taken to end at the first access outside it.
- `LogSlices.Splitter.Split`: the bound on the number of files assumes that the records fit in the file size and that re-adding keys costs less than a part; failure to open a file is not modelled.
- `OldLog.ReadLog`, `OldLog.LogReader.ReadRecord`, `OldLog.LogReader.SetKeys`: require each column to keep its kind and values to keep their shape between key lists; other logs are not described.
- `OldConvert.Convert`: for logs whose expanded names are distinct; names and texts become bytes character by character, and counts and lengths are below the `long` cast of the stream's write.
- `FlatFile.Output.Convert`: requires byte counts below the `int` cast of the stream's write, and takes the entries in the order of the map.
- `FlatFile.Input.ReadFile`: the repository has the readers of a column but no loop over a file; the loop and the dispatch on the kind byte follow the writer. A read past the end fails as a whole, the partly filled string it would leave is not described.
- `Perf.ShowPerf`: over the reals; rounding and the square root are not modelled.
- Ext and timestamp types, the Expect API, node getters, printing, stdio readers and writers, error callbacks with longjmp, allocation failure: not modelled.
- `extract` by time range, file naming, option parsing, `show` and `convert`: not modelled.
- `FlatLog`, `iterate_binary_log` and the record copy callback are abstract: a log is a sequence of records, a copied record is the same record with its keys written out, and missing scalars take the default passed to the getter.
- ltdl loaders, residency, mutexes and Windows separators; the controller, filter and visualizer headers: not modelled.
