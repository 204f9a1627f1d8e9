/** The coarse file of one raw chunk, through the minute averager and the codec
    (src/downsample.c). */
module CoarseWriter {
  import opened Words
  import opened Heads
  import opened Chunks
  import opened Store
  import opened Doubles
  import opened Downsample
  import opened Coarse
  import Aggregate
  import Bits
  import Values

  /** The averages as they are handed to the codec. */
  function CoarseSamples(rows: seq<Aggregate.Row>, round: real -> Word): (samples: seq<Sample>)
    ensures |samples| == |rows|
  {
    seq(|rows|, i requires 0 <= i < |rows| => Sample(Unsigned64(rows[i].start), round(rows[i].value)))
  }

  ghost function ChunkSamples(points: seq<Point>, round: real -> Word): seq<Sample>
    requires points != []
  {
    CoarseSamples(CoarseRows(ReadingsOf(points)), round)
  }

  /** The coarse file of the points of a raw chunk, named by its first minute. */
  ghost function CoarseFile(points: seq<Point>, round: real -> Word): File {
    if points == [] || ChunkSamples(points, round) == [] then Torn
    else
      var samples := ChunkSamples(points, round);
      Whole(FlushedChunk(ToUint32(samples[0].ts), samples))
  }

  /** Finite values as they come out of a chunk. */
  ghost predicate Decoded(points: seq<Point>) {
    forall i :: 0 <= i < |points| ==>
      Finite(points[i].value) && Values.Mask(points[i].value) == points[i].value
  }

  /** A decoded raw chunk that can be downsampled faithfully: the source finds its
      minutes, and they meet the codec's range conditions. */
  ghost predicate Coarsens(points: seq<Point>, round: real -> Word) {
    && 0 < |points| <= HEAD_CAPACITY
    && RawChunk(ReadingsOf(points))
    && Decoded(points)
    && InRange(ChunkSamples(points, round))
  }

  /** Gaps of at most 8160 seconds are enough for the range conditions. */
  lemma ShortGapsCoarsen(points: seq<Point>, round: real -> Word)
    requires points != [] && RawChunk(ReadingsOf(points)) && GapsAtMost(ReadingsOf(points), MAX_GAP)
    ensures InRange(ChunkSamples(points, round))
  {
    hide MinuteAverages, CoarseRows, Stored, Quantised, Unsigned64, RealOf;
    var s := ReadingsOf(points);
    assert s[0].ts >= 0 || s[0].ts % BUCKET_SECONDS == 0 by { OnMinuteRemainder(s[0].ts); }
    CoarseIsMinuteAveragesIff(s);
    CoarseChunkSurvives(s, ChunkSamples(points, round));
  }

  /** Any sorted decoded chunk of finite values from the epoch on with such gaps can be
      downsampled faithfully. */
  lemma SortedChunkCoarsens(points: seq<Point>, round: real -> Word)
    requires 0 < |points| <= 50000 && points[0].ts >= 0 && Sorted(points) && Decoded(points)
    requires forall i :: 0 < i < |points| ==> points[i].ts - points[i - 1].ts <= 8160
    ensures Coarsens(points, round)
  {
    hide Finite, RealOf, InRange, Values.Mask;
    ShortGapsCoarsen(points, round);
  }

  /** The way of a value through rounding and the codec. */
  ghost function Keeping(round: real -> Word): real -> real {
    x => Kept(round, x)
  }

  /** Rounding and the codec keep what a decoded chunk holds. */
  lemma StoreKeeps(points: seq<Point>, round: real -> Word)
    requires Rounds(round)
    requires Decoded(points)
    ensures Keeps(Keeping(round), ReadingsOf(points))
  {
    hide Kept, Finite, Values.Mask, RealOf;
    forall x, y | x <= y
      ensures Keeping(round)(x) <= Keeping(round)(y)
    {
      KeptIsMonotone(round, x, y);
    }
    forall p | p in ReadingsOf(points)
      ensures Keeping(round)(p.val) == p.val
    {
      var i :| 0 <= i < |points| && ReadingsOf(points)[i] == p;
      KeptDecoded(round, points[i].value);
    }
  }

  lemma {:induction false} FewRows(s: seq<Aggregate.Reading>, start: int, end: int)
    requires forall p :: p in s ==> p.ts < end
    ensures |Aggregate.NaiveRows(Aggregate.Avg, s, start, end, BUCKET_SECONDS)| <= |Aggregate.Between(s, start, end)|
    decreases end - start
  {
    hide Aggregate.Between, Aggregate.ValueOf;
    if start < end {
      FewRows(s, start + BUCKET_SECONDS, end);
      Aggregate.BetweenSplit(s, start, start + BUCKET_SECONDS, end);
    }
  }

  lemma {:induction false} BetweenIsShorter(s: seq<Aggregate.Reading>, lo: int, hi: int)
    ensures |Aggregate.Between(s, lo, hi)| <= |s|
  {
    if s != [] {
      BetweenIsShorter(s[..|s| - 1], lo, hi);
    }
  }

  /** A chunk has no more minutes than points. */
  lemma NoMoreRowsThanPoints(s: seq<Aggregate.Reading>)
    requires s != [] && Aggregate.Sorted(s)
    ensures |CoarseRows(s)| <= |s|
  {
    hide Aggregate.NaiveRows, Aggregate.Between;
    var base := FirstBucket(s[0].ts);
    var end := Max(LastTime(s), base) + 1;
    FewRows(Clamp(s, base), base, end);
    BetweenIsShorter(Clamp(s, base), base, end);
  }

  /** A chunk has at least one minute. */
  lemma MinutesOfChunk(points: seq<Point>)
    requires points != [] && RawChunk(ReadingsOf(points))
    ensures 0 < |CoarseRows(ReadingsOf(points))| <= |points|
  {
    hide Aggregate.NaiveRows, RealOf;
    var s := ReadingsOf(points);
    assert s[0].ts >= 0 || s[0].ts % BUCKET_SECONDS == 0 by { OnMinuteRemainder(s[0].ts); }
    CoarseIsMinuteAveragesIff(s);
    MinutesAreExact(s);
    assert s[0] in s;
    NoMoreRowsThanPoints(s);
  }

  /** Minutes of signed 64-bit timestamps are signed 64-bit numbers. */
  lemma MinutesAreLong(points: seq<Point>)
    requires points != [] && RawChunk(ReadingsOf(points))
    ensures forall i :: 0 <= i < |CoarseRows(ReadingsOf(points))| ==>
              -TWO_63 <= CoarseRows(ReadingsOf(points))[i].start < TWO_63
  {
    hide Aggregate.NaiveRows, Aggregate.Between, RealOf, Aggregate.Aligned;
    var s := ReadingsOf(points);
    var base := FirstBucket(s[0].ts);
    var end := Max(LastTime(s), base) + 1;
    Aggregate.RowsAreOrdered(Aggregate.Avg, Clamp(s, base), base, end, BUCKET_SECONDS);
    var rows := CoarseRows(s);
    forall i | 0 <= i < |rows|
      ensures -TWO_63 <= rows[i].start < TWO_63
    {
      assert Aggregate.GoodRow(rows[i], Clamp(s, base), base, end, BUCKET_SECONDS);
    }
  }

  /** The coarse file of a chunk reads back as the stored minute averages. */
  lemma CoarseFileReadsBack(points: seq<Point>, round: real -> Word)
    requires Coarsens(points, round)
    ensures CoarseFile(points, round).Whole? && Intact(CoarseFile(points, round).chunk)
    ensures ReadingsOf(ReadBack(CoarseFile(points, round))) == CoarseChunk(ReadingsOf(points), Keeping(round))
  {
    hide CoarseRows, Intact, Contents, FlushedChunk, Stored, InRange, RealOf, Values.Mask, Finite, RawChunk,
      Signed64, Unsigned64;
    var rows, samples := CoarseRows(ReadingsOf(points)), ChunkSamples(points, round);
    MinutesOfChunk(points);
    MinutesAreLong(points);
    FlushedChunkReadsBack(ToUint32(samples[0].ts), samples);
    ChunkLosslessIff(samples);
    assert ReadBack(CoarseFile(points, round)) == FromSamples(Quantised(samples));
    forall i | 0 <= i < |rows|
      ensures FromSample(Quantised(samples)[i]) == Point(rows[i].start, Values.Mask(round(rows[i].value)))
    {
      SignedOfUnsigned(rows[i].start);
    }
  }

  /** The coarse file is named by the low 32 bits of the first point's minute. */
  lemma CoarseFileName(points: seq<Point>, round: real -> Word)
    requires Coarsens(points, round)
    ensures CoarseFile(points, round).Whole?
    ensures CoarseFile(points, round).chunk.header.chunkId == MinuteOf(points[0].ts) % 0x1_0000_0000
  {
    hide CoarseRows, MinuteAverages, RealOf, Values.Mask, Finite, InRange, Payload, MinuteOf;
    var s := ReadingsOf(points);
    MinutesOfChunk(points);
    assert s[0].ts >= 0 || s[0].ts % BUCKET_SECONDS == 0 by { OnMinuteRemainder(s[0].ts); }
    CoarseIsMinuteAveragesIff(s);
    FirstMinuteHasRow(s);
    LowOfUnsigned(MinuteOf(points[0].ts));
  }

  lemma LowOfUnsigned(x: int)
    ensures ToUint32(Unsigned64(x)) == x % 0x1_0000_0000
  {
  }

  /** What is read from the coarse file of a chunk represents the chunk. */
  lemma CoarseFileRepresents(points: seq<Point>, round: real -> Word)
    requires Rounds(round) && Coarsens(points, round)
    ensures Represents(ReadingsOf(ReadBack(CoarseFile(points, round))), ReadingsOf(points))
  {
    hide Represents, Keeps, Rounds, Finite, Values.Mask, RealOf, CoarseChunk, CoarseFile, ReadBack, InRange, RawChunk;
    CoarseFileReadsBack(points, round);
    StoreKeeps(points, round);
    ChunkRepresents(ReadingsOf(points), Keeping(round));
  }

  // ---------------------------------------------------------------------------
  // The pass over one chunk
  // ---------------------------------------------------------------------------

  /** Decompress a raw chunk, average it by minutes and compress the averages. */
  method WriteCoarseChunk(file: ChunkFile, round: real -> Word) returns (coarse: Option<ChunkFile>)
    requires Intact(file) && file.header.pointCount < 0x8000_0000 && Sorted(ReadBack(Whole(file)))
    ensures coarse == match CoarseFile(ReadBack(Whole(file)), round)
                      case Torn => None
                      case Whole(chunk) => Some(chunk)
  {
    hide Intact, Contents, RealOf, Signed64, CoarseRows, FlushedChunk, Aggregate.Sorted, Sorted;
    var samples := DecompressAll(file);
    var n := samples.Length;
    ghost var points := ReadBack(Whole(file));
    assert points == FromSamples(samples[..]);
    PointCount(file);
    if n == 0 {
      return None;
    }
    var pts := new Aggregate.Reading[n](i reads samples requires 0 <= i < samples.Length =>
      Aggregate.Reading(Signed64(samples[i].ts), RealOf(samples[i].value)));
    assert pts[..n] == ReadingsOf(points);
    ReadingsSorted(points);
    var out := Downsample.Downsample(pts, n);
    NoMoreRowsThanPoints(ReadingsOf(points));
    coarse := CompressRows(out, round);
  }

  /** The output arrays as a chunk named by its first minute. */
  method CompressRows(out: CoarseOutput, round: real -> Word) returns (coarse: Option<ChunkFile>)
    requires out.Valid() && out.n < 0x8000_0000
    ensures var samples := CoarseSamples(out.Points(), round);
            coarse == if samples == [] then None else Some(FlushedChunk(ToUint32(samples[0].ts), samples))
  {
    hide FlushedChunk, Unsigned64;
    var n := out.n;
    if n == 0 {
      return None;
    }
    var starts, averages := out.ts, out.val;
    var ts := new Word[n](i reads starts requires 0 <= i < starts.Length => Unsigned64(starts[i]));
    var val := new Word[n](i reads averages requires 0 <= i < averages.Length => round(averages[i]));
    assert SamplesOf(ts[..n], val[..n]) == CoarseSamples(out.Points(), round);
    coarse := FlushToChunk(ToUint32(ts[0]), ts, val, n);
  }

  lemma ReadingsSorted(points: seq<Point>)
    requires Sorted(points)
    ensures Aggregate.Sorted(ReadingsOf(points))
  {
    hide RealOf;
  }

  lemma {:induction false} DecodedLength(c: Coder, b: seq<bool>, n: nat)
    requires WellFormed(c) && Decodable(c, b, n)
    ensures |DecodeFrom(c, b, n).0| == n
    decreases n
  {
    hide Decodable, DecodeFrom, DecodeOne, ReadableOne;
    if n == 0 {
      DecodeEnd(c, b);
    } else {
      DecodeStep(c, b, n);
      var next := DecodeOne(c, b);
      DecodedLength(next.0, next.1, n - 1);
    }
  }

  /** A chunk file gives as many points as its header says. */
  lemma PointCount(file: ChunkFile)
    requires Intact(file)
    ensures |Contents(file)| == file.header.pointCount
  {
    hide Decodable, DecodeFrom;
    IntactStart(file);
    var b := Bits.BytesBits(file.payload[..file.header.sizeBytes]);
    DecodedLength(START, b, file.header.pointCount);
  }
}
