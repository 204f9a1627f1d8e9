# Verification of the storage engine's compression and durability core

This project models the parts of the time series engine on which stored data
depends, and proves what they guarantee:

1. **The codec.** Bit packing over a growing byte buffer, the delta-of-delta
   timestamp coder and the XOR value coder, and the loop that interleaves both on
   one bit stream. The laws are stated on bit strings (`seq<bool>`, most
   significant bit first); the writer, the reader, both coders and both chunk loops
   are classes and methods proved against those bit strings. A double is its
   64-bit word.
2. **Durability.** One metric as an object (`Engine.MetricStore`: head block, log,
   chunk index, chunk files), and the same metric as a state machine (`Protocol`)
   in which any number of `Head_PUT` and `headflush` calls are interleaved sub-step
   by sub-step, with a crash possible between any two. `ChunkFiles`, `Recovery`,
   `Durability` and `Live` prove what is readable, what a restart shows, what survives
   and what a restarted server answers.
3. **Queries.** Chunk pruning, the collecting loops and bucket aggregation, against
   naive definitions (filter everything; one row for every non-empty bucket).
4. **Downsampling.** The one-pass minute averager, the bound on its output arrays,
   the fate of coarse chunks in the codec, and coarse answers against raw answers.
5. **Line reassembly.** The client buffer, whose answer must not depend on how the
   byte stream was cut up.

## How to read it

| file | content |
|---|---|
| `Words`, `Bits`, `BitIO` | words, bit strings, byte buffer, bit writer and reader |
| `Timestamps`, `Values`, `Chunks` | the two coders, their interleaving, chunk files |
| `Doubles` | what clearing four bits does to a binary64 number (section 3.4 of IEEE 754-2019) |
| `Heads`, `Wal`, `Store`, `Engine` | head block, log, one metric and its lock regions |
| `Protocol`, `ChunkFiles`, `Recovery` | the step machine, its runs up to a first crash, and the restart after it |
| `Durability`, `Live` | runs with any number of crashes: what survives, and what a server that went on answers |
| `Query`, `Collect`, `Aggregate`, `AggQuery` | range and aggregation queries |
| `Downsample`, `Coarse`, `CoarseWriter`, `CoarseQuery` | minute averages, coarse files and the queries that read them |
| `Lines` | the client's line buffer |

`dafny verify dfyconfig.toml` checks everything.

Modelling decisions:

- `long`, `int64_t` and `uint64_t` are ranges of the integers; every conversion
  and every wrap-around is written out (`Signed64`, `Unsigned64`). Where the source
  subtracts or adds signed 64-bit deltas without a range check
  (`src/timestamp.c:57`, `src/timestamp.c:179`), overflow is modelled as
  two's-complement wrap-around.
- A fresh head's last timestamp is never set by the source (`src/head.c:8-20`), so
  it is a parameter (`unset`) of every start and restart.
- A chunk file is absent, torn (opened for writing and not complete, hence
  unreadable because the payload is shorter than its header says), or whole.
- Loops whose body needs a proof of its own are split into a loop and a method for
  one turn; the bucket figures of the aggregation loop are one record. `realloc` and
  `memmove` are copies.
- `qsort` is a parameter known only to return some sorted permutation.
- Sums and averages are reals. How an average becomes a double is a parameter
  `round`, known to give a number, to keep the order and to leave doubles as they
  are (`Doubles.Rounds`, which `Doubles.TruncationRounds` shows can be met).
- A coarse directory is the sequence of its files in the order a scan meets them. A
  chunk whose coarse file was overwritten by another with the same first minute
  counts as not downsampled.

Where the code and its documentation differ, the model follows the code:

- The repository's own `README.md:117-121` says that writes are logged before they
  are applied, and line 330 that this needs no synchronous disk writes. The code
  puts the point in the head first, then logs and syncs it
  (`src/registry.c:87-98`, `src/wal.c:53-54`), and answers only then.
- `include/wal.h:11-13` says that replay makes no duplicates of an already flushed
  chunk. A restarted head does not know the flushed chunks' timestamps, so after a
  crash between the chunk write and the removal of the log every logged point comes
  back twice (`Recovery.WindowDuplicates`).
- `include/downsample.h:15-19` says that a coarse query also reads recent raw
  chunks. The code reads the coarse files and the head only
  (`src/registry.c:214-239`).

Properties that are false of the code as it stands, each with the exact condition
under which the code does meet it, and an input or a run on which it fails:

- Timestamps round-trip exactly if and only if the second gap fits signed 14 bits
  and every later change of gap fits signed 32 bits
  (`Timestamps.DecodingIsIdentityIff`; fails in `Timestamps.SecondGapIsCut` and
  `Timestamps.LaterChangeIsCut`).
- A log is recovered completely if and only if it fits a head and its timestamps
  increase strictly from above the fresh head's last timestamp (`Wal.ReplayRecoversAllIff`,
  `Recovery.RecoveryIsExactIff`; fails in `Wal.EqualTimestampsAreLost` and
  `Recovery.AnsweredPutIsLost`).
- What is appended behind a torn log is read back if and only if the tear fell between
  two records (`Wal.AppendsSurviveIff`; fails in `Wal.TornRecordMisaligns`).
- Chunks stay readable if and only if no flush opens a file that an indexed chunk
  already has; the file name is the first timestamp cut to 32 bits
  (`ChunkFiles.ChunksStayReadableIff`; fails in `ChunkFiles.ReusedNameIsReachable`).
- A range query that overlaps a flush is complete if and only if no chunk flushed in
  between holds a point in range (`Query.RacingAnswerIff`; fails in
  `Query.RacingQueryLosesPoint`).
- The downsampling loop emits minute averages if and only if its first timestamp is
  not negative or lies on a minute (`Downsample.CoarseIsMinuteAveragesIff`; fails in
  `Downsample.NegativeMinutesMerge`).
- A coarse chunk survives the codec if and only if its first two minutes are at most
  8160 seconds apart and later gaps change by no more than a signed 32-bit number
  (`Coarse.CoarseChunkSurvivesIff`; fails in `Coarse.DistantMinutesAreCut`).
- A coarse query misses no chunk if and only if no chunk without a coarse file holds a
  point in range (`CoarseQuery.MissesChunksIff`; fails in
  `CoarseQuery.CoarseQueryLosesPoint`).
- A `Dcount` is the bucket's own number of timestamps if and only if nothing earlier
  was counted (`Aggregate.DistinctIsOwnIff`): it runs on from bucket to bucket.
- The line buffer can be made to drop data before a line quits if and only if some
  line runs on for 7167 bytes with at least 1024 more bytes to come and no line before
  it quits (`Lines.ResetCanFireIff`; the answer then depends on the cut in
  `Lines.CutChangesAnswer`).

## Model

| member | source | states |
|---|---|---|
| `Chunks.ChunkRoundTrip` | src/flush.c:34-46 | For every list of points, in range or not, fresh decoders on the payload return the stored form of each point and stop exactly where the encoder stopped, before fewer than eight zero bits |
| `Chunks.ChunkLosslessIff` | src/flush.c:34-46 | A chunk gives every timestamp back exactly and every value with its low four bits cleared if and only if the second gap fits 14 bits and the later changes of gap fit 32 |
| `Chunks.FlushedChunkReadsBack` | src/flush.c:48-59 | The header of a flushed chunk carries its id, its first and last timestamp, its size and its count without loss; the chunk can be read, and decoding gives the stored form of its points |
| `Chunks.OneRoundTrip` | src/registry.c:581-584 | One interleaved write and read: both decoders take exactly the bits both encoders wrote, even when the timestamp states have drifted apart |
| `Chunks.ReencodingIsIdentical` | src/flush.c:34-46 | Encoding a decoded in-range chunk again gives the identical payload |
| `Chunks.EncodeFromQuantised` | src/value.c:44-46 | From any coder state, encoding sees values only through the mask |
| `Chunks.StreamSize` | src/flush.c:34-46 | The exact size: 128 bits for one point, between 2n+139 and 102n+4 bits for n at least 2 |
| `Chunks.PayloadStart` | src/flush.c:34-44 | A payload starts with the whole first timestamp and then the whole masked first value, high bits first |
| `Chunks.PayloadFits` | src/flush.c:57-59 | The payload of any full head fits the 32-bit size field |
| `Chunks.FlushToChunk` | src/flush.c:11-88 | The compressed file for the first n points of two arrays: header and payload are those of the specification; nothing for n = 0 |
| `Chunks.CompressPoints` | src/flush.c:30-46 | The interleaving loop over two stateful encoders produces exactly the packed specification bits |
| `Chunks.ClosedIsPacked` | src/bit_io.c:74-84 | The bytes of a closed writer are determined by the bits written |
| `Chunks.ChunkDecoder.ReadSample` | src/registry.c:583-584 | One turn of the decoding loop, for both decoders on the shared reader |
| `Chunks.DecompressAll` | src/downsample.c:86-120 | The decoding loop fills a fresh array with exactly the contents of the chunk |
| `Timestamps.DecodingIsIdentityIff` | src/timestamp.c:42-83 | Decoding is the identity on a list of timestamps if and only if every number the coder cuts down fits its width |
| `Timestamps.SecondGapIsCut` | src/timestamp.c:47 | A failing input: 0 and 8192 come back as 0 and 2^64 - 8192 |
| `Timestamps.LaterChangeIsCut` | src/timestamp.c:80 | A failing input: after a gap of 0, a gap of 2^31 comes back negative |
| `Timestamps.ExactTimestamps` | src/timestamp.c:98-188 | With no range assumption, the decoder's state is the double running sum, modulo 2^64, of the second gap wrapped to 14 bits and the changes wrapped to 32 |
| `Timestamps.StepRoundTrip` | src/timestamp.c:26-84 | For any two states in the same phase, one write then one read takes exactly the bits written and moves the decoder by the wrapped delta |
| `Timestamps.DeltaRoundTrip` | src/timestamp.c:57-81 | The prefix-coded delta of deltas comes back wrapped to 32 bits whatever size class was chosen |
| `Timestamps.TimestampCost` | src/timestamp.c:26-84 | What a timestamp costs: 64 bits, 14 bits, and later 1, 9, 12, 16 or 36 bits exactly as the signed change of gap is zero, fits 7, 9 or 12 bits, or fits none of these |
| `Timestamps.DeltaLayout` | src/timestamp.c:58-81 | The bits of each size class: its prefix of ones, and the low bits of the number behind it |
| `Timestamps.DeltaBitsAreShortest` | src/timestamp.c:57-81 | No shorter bit string is read by the decoder as the same delta of deltas whatever follows it |
| `Timestamps.ReadDeltaCost` | src/timestamp.c:129-177 | Whatever the decoder reads, on any bits, fits the size class it took |
| `Timestamps.ReadBackSigned` | src/timestamp.c:3-12 | A masked signed field comes back, by sign extension, wrapped to its width |
| `Timestamps.TimestampEncoder.constructor` | src/timestamp.c:14-24 | A fresh encoder |
| `Timestamps.TimestampEncoder.Write` | src/timestamp.c:26-84 | The encoder object appends exactly the specified bits to the shared stream and moves to the specified state |
| `Timestamps.TimestampDecoder.constructor` | src/timestamp.c:86-96 | A fresh decoder |
| `Timestamps.TimestampDecoder.Read` | src/timestamp.c:98-188 | The decoder object consumes and returns exactly what the specification does, also on bits no encoder wrote |
| `Values.StepRoundTrip` | src/value.c:60-131 | From every well-formed shared window state, not only reachable ones: one write then one read gives the masked value, takes exactly the bits written, and leaves both sides in the same well-formed state |
| `Values.NewWindowLength` | src/value.c:105-116 | A new window between masked words is 1 to 60 bits long, so its length fits six bits and the zero-means-64 escape is never needed |
| `Values.ReplaceRoundTrip` | src/value.c:100-128 | The new-window branch: header and meaningful bits are read back and install the same window |
| `Values.ReuseRoundTrip` | src/value.c:80-98 | The reuse branch: any word the previous window covers is rebuilt from it |
| `Values.ReadHeader` | src/value.c:200-212 | The header of a new window of any length up to 64 is read back, zero meaning 64 |
| `Values.FirstIsMasked` | src/value.c:152-165 | The first value a decoder returns is masked, whatever bits it reads |
| `Values.FullWindowStays` | src/value.c:80-98 | From the initial window every run keeps it, and a value costs 64, 1 or 66 bits |
| `Values.ValueCost` | src/value.c:60-131 | What a value costs from any well-formed window: 64, 1, the window and two, or the new window and thirteen bits, exactly as the value is first, unchanged, covered by the window, or not |
| `Values.ReusesIff` | src/value.c:80-82 | The reuse test succeeds exactly when the window covers every one bit of the change |
| `Values.LeadingIsGreatest` | src/value.c:71-78 | A window's leading count is the greatest that five bits can say |
| `Values.CtzIsGreatest` | src/value.c:73 | Its trailing count is the greatest number of low zero bits |
| `Values.ValueEncoder.constructor` | src/value.c:25-38 | A fresh encoder |
| `Values.ValueEncoder.Write` | src/value.c:40-132 | The encoder object appends exactly the specified bits and moves to the specified state, in all branches |
| `Values.ValueEncoder.WriteChange` | src/value.c:71-128 | A changed value: the bits and the new window for both branches of the reuse test |
| `Values.ValueDecoder.constructor` | src/value.c:134-147 | A fresh decoder |
| `Values.ValueDecoder.Read` | src/value.c:149-233 | The decoder object consumes and returns exactly what the specification does, the zero-means-64 escape included |
| `Bits.ClosedRoundTrip` | src/bit_io.c:45-84 | From any fill level: writing any fields, closing and reading the same widths gives each value modulo 2^width, leaves only zero padding, and takes the number of bits over eight, rounded up, bytes |
| `Bits.FieldsRoundTrip` | src/bit_io.c:106-140 | Reading back a list of fields gives each value modulo 2^width and leaves what follows untouched |
| `Bits.PackedBits` | src/bit_io.c:74-84 | Closing keeps the bits, adds fewer than eight zeros and has the exact byte length |
| `Bits.HighBitFirst` | src/bit_io.c:54-58 | The first bit of a byte is its highest |
| `Bits.ReadPastEnd` | src/bit_io.c:113-116 | A read past the end delivers the bits that are left |
| `Bits.BytesBitsInjective` | src/bit_io.c:14-23 | Different byte strings have different bits |
| `BitIO.ByteBuffer.constructor` | src/bit_io.c:3-12 | An empty buffer of 64 places |
| `BitIO.ByteBuffer.Append` | src/bit_io.c:14-23 | One byte is appended, capacity doubles exactly when full, size stays within capacity |
| `BitIO.BitWriter.constructor` | src/bit_io.c:34-43 | A writer that has written nothing |
| `BitIO.BitWriter.Write` | src/bit_io.c:45-72 | From any fill level, exactly the low bits of the value are appended, most significant first |
| `BitIO.BitWriter.Close` | src/bit_io.c:74-84 | The last byte is completed with zero bits and handed to the buffer |
| `BitIO.BitReader.constructor` | src/bit_io.c:95-104 | A reader at the start of the buffer |
| `BitIO.BitReader.Read` | src/bit_io.c:106-140 | Exactly the next bits are read and consumed; past the end, the bits that are left |
| `Words.SignExtendIsWrap` | src/timestamp.c:3-12 | Sign extension of a masked field is two's-complement wrap-around |
| `Words.XorInvolution` | src/value.c:227-228 | Exclusive or with the previous word undoes the encoder's exclusive or |
| `Doubles.MaskKeepsShape` | src/value.c:46 | Clearing the low four bits keeps sign and exponent, is idempotent, and keeps numbers numbers and finite numbers finite |
| `Doubles.MaskIsMonotone` | src/value.c:46 | On all numbers, infinities included, clearing the low bits keeps the order |
| `Doubles.MaskErrorBound` | src/value.c:46 | A value is cut toward zero, a normal number by less than the 2^48-th part of itself |
| `Doubles.UnitsStrict` | src/value.c:5-23 | A larger bit pattern is a larger magnitude, across binades and from subnormal to normal |
| `Doubles.ClassesByFields` | src/value.c:15-23 | Finite numbers and NaNs by their exponent and fraction fields |
| `Doubles.OneIsOne` | src/value.c:15-23 | The scale of the numbers: the word of 1.0 is one |
| `Doubles.ExponentDoubles` | src/value.c:15-23 | The next exponent doubles a normal number |
| `Doubles.FractionIsLinear` | src/value.c:15-23 | Within a binade a number is its power of two times one and the fraction over 2^52 |
| `Doubles.SignNegates` | src/value.c:15-23 | The sign bit negates |
| `Doubles.DecodedLeast` | src/registry.c:668-678 | Among numbers, infinities included, a least value of a chunk is still a least one after decoding, and the aggregation's minimum is that value, raw and quantised |
| `Doubles.DecodedGreatest` | src/registry.c:668-678 | The same for a greatest value and the maximum |
| `Doubles.KeptIsMonotone` | src/downsample.c:161 | Rounding an average to a double and clearing its low bits keep the order |
| `Doubles.KeptDecoded` | src/downsample.c:161 | They leave every finite value that was decoded from a chunk as it is |
| `Doubles.TruncationRounds` | src/downsample.c:161 | What is assumed of rounding can be met: rounding toward zero meets it |
| `Heads.PutKeepsInvariant` | src/head.c:23-42 | A point is accepted exactly when there is room and no point of the head is newer; the head stays sorted and bounded |
| `Heads.HeadBlock.constructor` | src/head.c:8-21 | A fresh head with an arbitrary last timestamp |
| `Heads.HeadBlock.PutValue` | src/head.c:23-42 | The array operation refines the specification and keeps the arrays |
| `Heads.HeadBlock.Reset` | src/registry.c:530-531 | What a successful flush leaves behind |
| `Wal.ParsePrefix` | src/wal.c:74-75 | However many bytes of a log survive, exactly its whole 16-byte records are read |
| `Wal.AppendsSurviveIff` | src/wal.c:37-50 | Every record appended behind a log cut to its first k bytes is read back as appended if and only if k is a multiple of 16: nothing trims a torn record |
| `Wal.ReadBehindTorn` | src/wal.c:74-83 | For every tear, what is read instead of the first appended record, and that its remaining bytes are not read |
| `Wal.TornRecordMisaligns` | src/wal.c:37-50 | An example: torn behind the timestamp, the torn record takes the next record's timestamp as its value |
| `Wal.RecordRoundTrip` | src/wal.c:44-46 | A record's sixteen bytes give back its timestamp and value |
| `Wal.ReplayIsMaxima` | src/wal.c:74-83 | Replay appends exactly the strict running maxima above the head's last timestamp, up to the room that is left |
| `Wal.ReplayIsIdempotent` | src/wal.c:74-83 | Replaying the same log into the same head again changes nothing |
| `Wal.ReplayRecoversAllIff` | src/wal.c:79-82 | A log is recovered completely into an empty head if and only if it fits the head and its timestamps increase strictly from above the head's last timestamp |
| `Wal.EqualTimestampsAreLost` | src/wal.c:79-80 | A concrete pair of accepted points of which replay recovers only the first |
| `Wal.LogFile.Append` | src/wal.c:30-56 | The bytes of one record that reach the file, all of them or fewer, are added at its end |
| `Wal.LogFile.Truncate` | src/wal.c:92-101 | The log is gone, or unchanged when it cannot be removed |
| `Wal.LogFile.ReplayInto` | src/wal.c:58-90 | The loop over any bytes, torn ones included, is the replay of its whole records, and counts what it accepted |
| `Store.FlushedReadsBack` | src/registry.c:506-512 | A flushed head that fits the codec reads back as its points, timestamps exact and values quantised, through the signed and unsigned casts |
| `Store.PutThroughAcceptsIff` | src/registry.c:73-102 | Exactly when an uninterrupted put is accepted, and what becomes of the head, the log, the index and the files; a full head of 50000 that could be flushed accepts even older points |
| `Store.FullHeadIsKept` | src/registry.c:89-95 | When a put flushes a full head, the file the new index entry names reads back as the head's quantised points, and no other file changes |
| `Engine.MetricStore.constructor` | src/registry.c:62-65 | A metric seen for the first time |
| `Engine.MetricStore.Flush` | src/registry.c:462-538 | The object refines the flush region: chunk file, index entry, head reset and log removal, or a torn file and nothing else when the write fails |
| `Engine.MetricStore.PutOnce` | src/registry.c:87-98 | The object refines one put region: head first, then log |
| `Engine.MetricStore.PutPoint` | src/registry.c:73-102 | The object refines a whole put with its retry after a flush |
| `Engine.MetricStore.Restarted` | src/server.c:276-298 | A restart from any bytes of a log and any listing: readable chunks are indexed, whole records replayed |
| `Engine.MetricStore.LoadChunks` | src/server.c:306-338 | An index entry for every readable file, in listing order |
| `Protocol.ConservationOverRuns` | src/registry.c:73-102 | Over every interleaving, without a crash, of any number of puts and flushes: flushed heads in index order, then the head, are the accepted points in acceptance order; answered puts are a prefix of them; head and chunks are sorted and bounded; with the lock free the log equals the head |
| `Protocol.StepKeepsInvariant` | src/registry.c:479-535 | Every sub-step of every thread keeps lock ownership, head order, log agreement, index agreement and conservation |
| `Protocol.UninterruptedFlush` | src/registry.c:479-535 | The sub-steps of a flush with nothing in between are the whole lock region, failed writes included |
| `Protocol.UninterruptedPut` | src/registry.c:80-101 | The sub-steps of an accepted put with nothing in between are one lock region |
| `Protocol.UninterruptedHeadPut` | src/registry.c:73-102 | The sub-steps of a whole call, with its flush and retry when the head is full, end in exactly the metric and the answer of the uninterrupted operation, for writes that work and that fail; the point is answered exactly when the answer says so |
| `Protocol.AnythingCanHappen` | src/registry.c:73-102 | A crash is possible in every state, and every thread can go on unless it waits for a taken lock |
| `Protocol.HistoryGrows` | src/registry.c:526-529 | Later states extend the accepted points and the flushed chunks, crashes included |
| `ChunkFiles.ChunksStayReadableIff` | src/registry.c:493-512 | Over every run without a crash: all indexed chunks are readable at every moment if and only if no flush opens a file name an indexed chunk already has |
| `ChunkFiles.ReusedNameIsReachable` | src/registry.c:493-504 | A failing run: a put, a flush, a put with the same low 32 bits, and the next flush is about to open the first chunk's file |
| `ChunkFiles.ReusedNameDestroys` | src/chunk.c:11 | Opening the file of an indexed chunk makes that chunk unreadable at once |
| `ChunkFiles.FreshStepKeepsFiles` | src/registry.c:493-529 | A sub-step that opens a fresh name, or none, keeps every chunk and the distinctness of the names |
| `ChunkFiles.NameIsOldest` | src/registry.c:493-494 | A head's file is named by the low 32 bits of its oldest timestamp |
| `ChunkFiles.EntryIsTight` | src/registry.c:526-527 | Its index entry has its oldest and newest timestamps |
| `Recovery.RecoveryIsExactIff` | src/server.c:276-298 | After a crash anywhere the restart shows the answered puts, plus at most the one already logged, plus a second copy of the log in the window between chunk write and log removal: exactly that if and only if the log increases strictly from above the fresh head's last timestamp |
| `Recovery.RecoveryAfterAnyRun` | src/server.c:276-298 | The same from an empty directory for every run up to its first crash, every crash point and every listing order |
| `Recovery.WindowRecoversAll` | src/registry.c:514-532 | In that window every answered put is recovered whatever the log holds |
| `Recovery.WindowDuplicates` | src/registry.c:514-532 | In that window every point of the log does come back at least twice |
| `Recovery.DuplicatingRun` | src/registry.c:506-532 | A run that a crash stops in that window, after which the point is in a chunk and in the head |
| `Recovery.AnsweredPutIsLost` | src/wal.c:79-80 | A failing run: two puts at the same time are both answered, and a restart shows the first only |
| `Recovery.ListingOrderIrrelevant` | src/server.c:283-291 | What a directory listing gives does not depend on its order or on unreadable files in it |
| `Recovery.LoadedContents` | src/server.c:306-338 | Loading a listing gives access to the points of exactly its files |
| `Recovery.RestartRebuildsIndex` | src/server.c:306-338 | Whatever the order of the listing, a restart makes exactly the index entries there were, and one for a chunk just written, each once |
| `Recovery.LoadedInOrder` | src/server.c:284-291 | The entries come in the order of the listing |
| `Durability.AnsweredPutsSurvive` | src/server.c:276-298 | Over every prudent run with any number of crashes and restarts, one more restart shows every point ever answered, at least once |
| `Durability.DistinctPutsAreCounted` | src/server.c:276-298 | If no point was answered twice, none is shown less often than it was answered |
| `Durability.PrudentStepKeepsSafe` | src/registry.c:479-535 | Every prudent event, a crash included, keeps every answered point in the log or in a readable chunk |
| `Durability.FreshRunIsPrudent` | src/registry.c:493-512 | Every run without a crash whose file names are fresh and whose chunks fit the codec is prudent |
| `Durability.FlushIsPrudent` | src/registry.c:479-535 | So is a flush into a file that holds nothing that is not also in the log |
| `Durability.CrashedRun` | src/server.c:276-298 | A prudent run with a crash in it, and the three answered points it ends with |
| `Durability.EveryReadableFileDecodes` | src/registry.c:506-512 | After every run, whatever its crashes and file names, the head is sorted and bounded and every readable file decodes |
| `Live.AnsweredPutsStayVisible` | src/server.c:276-298 | Over every prudent run with any number of crashes, and whatever was put and flushed after each restart: a query shows every answered point in its range |
| `Live.ShownPointsWereAccepted` | src/server.c:276-298 | On the same runs a query shows nothing but accepted points in its range |
| `Live.PrudentStepKeepsLive` | src/registry.c:479-535 | Every prudent event, a crash included, keeps every readable file a flushed head of accepted points that some index entry bounds, or the one just written |
| `Query.PruningIsSound` | src/registry.c:242-258 | Skipping chunks by their index entries, with either test, gives exactly the flushed points in range |
| `Query.PruningIsTight` | src/registry.c:123 | The tests skip no more and no less than they can: an entry passes exactly when its range and that of the query share a timestamp |
| `Query.AnswerIsComplete` | src/registry.c:104-175 | On any state of a run a query sees exactly the accepted points in range, in acceptance order, up to quantisation |
| `Query.QueryAfterAnyRun` | src/registry.c:104-175 | The same from an empty directory over every interleaving without a crash |
| `Query.PruningByBounds` | src/registry.c:120-123 | For any index whose entries bound their files, pruning equals decoding everything and filtering |
| `Query.LoadedIndexBounds` | src/server.c:329-330 | The index a restart loads bounds its files |
| `Query.RestartedQuery` | src/server.c:276-298 | After a crash and a restart queries see exactly the recovered points in range |
| `Query.RacingAnswerIff` | src/registry.c:120-149 | A query whose head is read after later flushes is complete if and only if those flushes held no point in range |
| `Query.RacingQueryLosesPoint` | src/registry.c:120-149 | A failing run for every point in range: answered, flushed during the query, and not shown |
| `Collect.PointArray.Append` | src/registry.c:539-561 | One point is appended; capacity goes from 0 to 1024 and then doubles |
| `Collect.CollectFromChunk` | src/registry.c:562-601 | The decoding loop appends exactly the points of the chunk in [start, end) |
| `Collect.CollectFromFile` | src/registry.c:562-571 | An unreadable file is reported and appends nothing |
| `Collect.CollectFromHead` | src/registry.c:602-618 | The loop appends exactly the points of the head in [start, end) |
| `Collect.CollectFromIndex` | src/registry.c:242-258 | The walk over the index gathers the specified points, skipping or stopping at unreadable files as the two queries do, and reports exactly when it had to stop |
| `Collect.GetRange` | src/registry.c:104-175 | The range query's points are the specified answer |
| `Aggregate.AggPoints` | src/registry.c:629-776 | The sorted scan with early break gives exactly the rows of naive grouping, for every function; an unknown function is an error exactly when there is a point |
| `Aggregate.ScanBucket` | src/registry.c:653-684 | The inner loop's count, sum, minimum, maximum and running distinct count are those of the points of the bucket |
| `Aggregate.RowsMean` | src/registry.c:691-715 | Every row, for every function and width: its bucket's points are those of the list in its range, and its value is the number that times their count gives their sum, one of theirs with none below or above, their sum, their count, or the timestamps so far |
| `Aggregate.EveryPointHasRow` | src/registry.c:649-662 | Every point in the range of the query has a row for its bucket |
| `Aggregate.RowsSameMultiset` | src/registry.c:647 | Every aggregate depends only on the multiset of points, so an unstable sort cannot change an answer |
| `Aggregate.CountsPartition` | src/registry.c:647-714 | The counts add up to the number of points: each is in exactly one bucket |
| `Aggregate.SumsPartition` | src/registry.c:647-714 | The sums add up to the total of the points |
| `Aggregate.RowsAreOrdered` | src/registry.c:649-689 | Rows come in order, on bucket boundaries, and only for non-empty buckets |
| `Aggregate.AverageBetween` | src/registry.c:692-703 | An average lies between the least and the greatest value |
| `Aggregate.ChangesSoFar` | src/registry.c:681-683 | The distinct count is the number of different timestamps seen since the first bucket, not counting a smallest timestamp of zero |
| `Aggregate.DistinctIsOwnIff` | src/registry.c:645-646 | That running count is the bucket's own number of timestamps if and only if no point came before and zero is not its smallest timestamp, or all that came before was at zero |
| `AggQuery.HeadAgg` | src/registry.c:176-292 | The whole aggregation query equals naive bucketing over the gathered points in whatever order they came, for every sort; it fails to read exactly when it is not sent to coarse files and some chunk it needs is unreadable |
| `AggQuery.AggregateSeesAccepted` | src/registry.c:208-259 | After any run without a crash or a reused name: an aggregate over less than 3600 seconds, in buckets below 60 seconds, or of a metric without a coarse directory, fails to read no chunk and aggregates exactly the accepted points in range |
| `AggQuery.AggregateAfterCrashes` | src/registry.c:240-274 | After any prudent run, with any number of crashes: what such an aggregate gathers when it can read its chunks holds every answered point in range and only accepted ones |
| `AggQuery.GetAfterRun` | src/registry.c:104-175 | The range query's loops, on an object in any state a run without a crash or a reused name reaches, give exactly the accepted points in range |
| `AggQuery.GetAfterCrashes` | src/registry.c:104-175 | On an object in any state a prudent run reaches, crashes included, they give every answered point in range and only accepted ones |
| `AggQuery.AggAfterRun` | src/registry.c:176-292 | The aggregation's loops, on an object in any state a run without a crash or a reused name reaches, give naive bucketing of the accepted points in range |
| `AggQuery.CollectFromDisk` | src/registry.c:208-259 | The choice between coarse files and raw chunks, and what each gathers |
| `Downsample.Downsample` | src/downsample.c:131-178 | The one-pass loop with its array stores in bounds gives the coarse rows of the points, for negative timestamps too |
| `Downsample.CoarseIsMinuteAveragesIff` | src/downsample.c:147 | The coarse rows are the minute averages if and only if the first timestamp is not negative or lies on a minute |
| `Downsample.MergedRows` | src/downsample.c:147 | Otherwise the first row averages everything before the end of the minute after the first point's, and the other rows are right |
| `Downsample.NegativeMinutesMerge` | src/downsample.c:147 | A failing input: points at -30 and 10 become one row, with the average of both, instead of two |
| `Downsample.MinutesAreExact` | src/downsample.c:144-178 | One row for each non-empty minute and no other, increasing multiples of 60, each with the average of exactly its points |
| `Downsample.MinutesConserveTotal` | src/downsample.c:161 | The averages times their counts add up to the total of all points |
| `Downsample.RowsFit` | src/downsample.c:131-136 | The number of rows never exceeds the places allocated, negative timestamps included |
| `Downsample.BoundIsReachedIff` | src/downsample.c:131-133 | The array bound is reached if and only if the first bucket is the minute of the first point, the last point lies earlier in its minute than the first in its own, and no minute between is empty |
| `Downsample.BoundIsReached` | src/downsample.c:131-133 | An example: points at 59 and 60 |
| `Downsample.FirstBucketIff` | src/downsample.c:147 | Truncating division finds the minute of the first point exactly when it is not negative or lies on a minute |
| `Downsample.CoarseOutput.Emit` | src/downsample.c:160-162 | One average is stored in the next place of both arrays |
| `Coarse.MinuteGap` | src/downsample.c:147-168 | Such minutes differ by at least 60 and at most 8160 seconds |
| `Coarse.CoarseChunkSurvivesIff` | src/downsample.c:180-186 | The coarse chunk decodes to exactly its minutes and quantised averages if and only if its first two minutes are at most 8160 seconds apart and later gaps change by no more than a signed 32-bit number |
| `Coarse.CoarseChunkSurvives` | src/downsample.c:180-186 | In particular if neighbouring raw points are at most 8160 seconds apart |
| `Coarse.DistantMinutesAreCut` | src/timestamp.c:44-47 | A failing input: points at 0 and 8220 make a coarse chunk that does not survive |
| `CoarseWriter.WriteCoarseChunk` | src/downsample.c:86-190 | Decompressing, averaging and compressing a sorted raw chunk gives the specified coarse file |
| `CoarseWriter.CoarseFileReadsBack` | src/downsample.c:180-186 | For a chunk whose minutes meet the codec's conditions, the coarse file reads back as its stored minute averages |
| `CoarseWriter.CoarseFileName` | src/downsample.c:183-185 | It is named by the low 32 bits of the first point's minute |
| `CoarseWriter.StoreKeeps` | src/downsample.c:161 | Rounding and the codec keep the order and every value a decoded chunk holds |
| `CoarseWriter.ShortGapsCoarsen` | src/downsample.c:147-186 | Gaps of at most 8160 seconds between raw points are enough for the codec's conditions |
| `CoarseWriter.SortedChunkCoarsens` | src/downsample.c:147-186 | Any sorted decoded chunk of finite values from the epoch on with such gaps can be downsampled faithfully |
| `Coarse.ChunkRepresents` | src/downsample.c:144-178 | Coarse points lie in exactly the minutes of the raw points, each between two raw values of its minute |
| `CoarseQuery.FilesRepresent` | src/registry.c:221-238 | What a query reads from the coarse files of some chunks, in any directory order, stands for what it would read from the chunks |
| `CoarseQuery.CoarseQueryWithinRaw` | src/registry.c:208-274 | On any state of a run, for at least 3600 seconds and buckets of at least 60, on minutes, when no chunk without a coarse file holds a point in range: the coarse avg query, head included, has exactly the buckets of the raw answer, each average between the raw minimum and maximum |
| `CoarseQuery.CoarseQueryAfterAnyRun` | src/registry.c:208-274 | The same from an empty directory, over every interleaving without a crash, against the accepted points in range |
| `CoarseQuery.MissesChunksIff` | src/registry.c:214-239 | Downsampling more chunks leaves what a coarse query gathers unchanged if and only if none of them holds a point in range |
| `CoarseQuery.CoarseQueryLosesPoint` | src/registry.c:214-239 | A failing run: one chunk downsampled and a later one not; the raw query shows both points, and nothing the coarse query gathers lies in the minute of the later one |
| `Coarse.RowsWithinRaw` | src/registry.c:649-703 | For points that stand for others: the same non-empty buckets, and each average between the least and greatest raw value of its bucket |
| `Coarse.AverageWithinRaw` | src/registry.c:692-703 | The same for one bucket |
| `Lines.SegmentationIndependence` | src/server.c:63-105 | However a stream is cut into pieces of 1 to 1024 bytes, if no line runs on for 7167 bytes with 1024 more to come before a line quits, the parser gets the stream's newline-terminated pieces in order, each cut at 1023 bytes, up to the one that quits |
| `Lines.HandedLines` | src/server.c:98-105 | Under the same condition each line the parser gets is the first 1023 bytes of the stream's line in its place, or all of it; none but the last quits, and all are handed out if none does |
| `Lines.ShortLinesAreWhole` | src/server.c:98-105 | If besides no line has more than 1023 bytes the parser gets the very lines of the stream |
| `Lines.LinesPartition` | src/server.c:94-105 | The lines of a stream put together with its rest give the stream back, and each holds one newline, at its end |
| `Lines.ResetCanFireIff` | src/server.c:76-125 | Some way of cutting up a stream fires the overflow reset before a line quits if and only if some line runs on for 7167 bytes with 1024 more bytes to come and no line before it quits |
| `Lines.CutChangesAnswer` | src/server.c:76-82 | A failing input: a line of 7167 bytes and its newline, then 1023 bytes; cut one way the parser gets the line, cut another way it gets nothing |
| `Lines.LineAfterReset` | src/server.c:78-84 | After a reset nothing pending is left: the next line comes alone |
| `Lines.ShortLinesAreSafe` | src/server.c:76-82 | The reset never fires while every line and the unfinished rest have at most 7167 bytes |
| `Lines.Connection.HandleClient` | src/server.c:53-159 | The client loop over its buffer hands out exactly the specified lines, resets included |
| `Lines.Connection.HandOut` | src/server.c:88-153 | The inner loop hands out every complete line, stops after one that quits, and leaves the begun line at the front |
| `Lines.Connection.Compact` | src/server.c:150-154 | The bytes after the last line move to the front, in order |

## Left out

- Engine.MetricStore: one metric; the hash table over several metrics (uthash) is not modelled, and the chunk index is a sequence rather than an array that doubles, so the overflow of its 16-bit capacity field is not captured.
- Engine.MetricStore.Restarted: promises a valid store only for a log without a torn record at its end; exactly when appends behind a torn log are lost is stated by Wal.AppendsSurviveIff.
- Engine.MetricStore.PutOnce: the whole record reaches the log, and Engine.MetricStore.Flush removes it; partial appends and failed removals are modelled on the log file alone (Wal.LogFile.Append, Wal.LogFile.Truncate).
- Protocol: log records append whole, no log append or removal fails, and no retention pass runs; a failed chunk write always leaves a torn file, also where the source would not have opened it.
- Recovery.RecoveryIsExactIff: a crash is a crash of the process; the chunk file is complete once it is closed, although the source does not sync it to disk. Requires fresh file names and chunks that fit the codec; the conditions are exact in ChunkFiles.ChunksStayReadableIff and Chunks.ChunkLosslessIff.
- Durability.AnsweredPutsSurvive: one direction only, and at least once: of a point answered twice one copy may be overwritten (a point put and flushed, then put and flushed again, reuses the file name). The conditions are partly the client's (no reuse of a readable chunk's name except by points still in the log, chunks in range, timestamps increasing strictly) and partly the allocator's, whose memory a fresh head's last timestamp is.
- Live.AnsweredPutsStayVisible: under the same conditions, and by membership: after a crash a file can be rewritten, and an older index entry then no longer bounds it, so multiplicities are exact only before the first crash. An aggregate over raw chunks can then also report an unreadable chunk (AggQuery.HeadAgg says when).
- Durability.PrudentStepKeepsSafe: membership, for the same reason; Durability.DistinctPutsAreCounted counts when no point is answered twice.
- Values.ValueDecoder.Read: payloads whose window header claims more than 64 bits are excluded; the source would shift by a negative count there.
- Collect.GetRange and AggQuery.HeadAgg: run on a metric nobody else touches meanwhile; what a flush in between does is stated by Query.RacingAnswerIff. A query for an unknown metric, failed allocations and the overflow of the length of a range are not modelled.
- Aggregate.AggPoints: values are reals, so rounding, infinities and NaN in sums and averages are not modelled; bucket ends and counts are unbounded integers.
- Aggregate.RowsSameMultiset: exact for reals; in floating point the order of equal timestamps can change the rounding of a sum.
- Downsample.Downsample: the cast of the number of places to a 32-bit integer and the overflow of bucket ends are not modelled.
- CoarseQuery.CoarseQueryWithinRaw: the average is the exact quotient, rounded once; the rounding of the running sum is not modelled. Requires finite values, minutes in the codec's range, and first timestamps that are not negative or lie on a minute.
- CoarseWriter.WriteCoarseChunk: a raw chunk whose decoded timestamps are out of order, as after a failed range condition, is not modelled, nor is a point count of 2^31 or more.
- Lines.Connection.HandleClient: replies and failed sends are not modelled; which lines quit is a parameter.
- Collect.PointArray.Append: failed allocations.
- The pass that chooses chunks to downsample, its marker files and its thread.
- Retention, which deletes old chunks.
- Sockets, threads, signals, the command-line client and the benchmark.
- Real files, directories, path names and their truncation.
- Text formatting and number parsing; answers are sequences of points or rows.
- Command dispatch, STATS and the second copy of the aggregation query, which add no property beyond one branch.
