/** A chunk: both coders interleaved on one bit stream (src/flush.c), and the
    loop that undoes it (src/registry.c, src/downsample.c). */
module Chunks {
  import opened Words
  import opened Bits
  import opened BitIO
  import opened Heads
  import T = Timestamps
  import V = Values

  /** A stored point: a timestamp and the 64-bit word of a double. */
  datatype Sample = Sample(ts: Word, value: Word)

  /** The states of both coders of one stream. */
  datatype Coder = Coder(ts: T.TsState, val: V.ValState)

  const START := Coder(T.INIT, V.INIT)

  ghost predicate WellFormed(c: Coder) {
    V.WellFormed(c.val)
  }

  function Next(c: Coder, p: Sample): (r: Coder)
    requires WellFormed(c)
    ensures WellFormed(r)
  {
    Coder(T.Encoded(c.ts, p.ts), V.Encoded(c.val, p.value))
  }

  function SampleBits(c: Coder, p: Sample): Bits
    requires WellFormed(c)
  {
    T.EncodedBits(c.ts, p.ts) + V.EncodedBits(c.val, p.value)
  }

  /** The bits the encoding loop writes for the points that remain. */
  function EncodeFrom(c: Coder, points: seq<Sample>): Bits
    requires WellFormed(c)
    decreases |points|
  {
    if points == [] then [] else SampleBits(c, points[0]) + EncodeFrom(Next(c, points[0]), points[1..])
  }

  function Encode(points: seq<Sample>): Bits {
    EncodeFrom(START, points)
  }

  /** The payload bytes of a chunk. */
  function Payload(points: seq<Sample>): seq<Byte> {
    Pack(Encode(points))
  }

  // ---------------------------------------------------------------------------
  // Decoding
  // ---------------------------------------------------------------------------

  /** Both decoders, once. */
  function DecodeOne(c: Coder, b: Bits): (r: (Coder, Bits))
    requires WellFormed(c) && ReadableOne(c, b)
    ensures WellFormed(r.0)
  {
    var (ts, b1) := T.Decoded(c.ts, b);
    var (val, b2) := V.Decoded(c.val, b1);
    (Coder(ts, val), b2)
  }

  predicate ReadableOne(c: Coder, b: Bits) {
    V.Readable(c.val, T.Decoded(c.ts, b).1)
  }

  /** Every value of the next `n` points can be read. */
  ghost predicate Decodable(c: Coder, b: Bits, n: nat)
    requires WellFormed(c)
    decreases n
  {
    n == 0 ||
    (ReadableOne(c, b) &&
     var next := DecodeOne(c, b);
     Decodable(next.0, next.1, n - 1))
  }

  /** The next `n` points, and the bits left over; cut short where a value cannot
      be read, which never happens to a decodable stream. */
  ghost function DecodeFrom(c: Coder, b: Bits, n: nat): (seq<Sample>, Bits)
    requires WellFormed(c)
    decreases n
  {
    if n == 0 || !ReadableOne(c, b) then ([], b)
    else
      var next := DecodeOne(c, b);
      var later := DecodeFrom(next.0, next.1, n - 1);
      ([Current(next.0)] + later.0, later.1)
  }

  /** The point the decoders have just returned. */
  function Current(c: Coder): Sample {
    Sample(c.ts.prevTimestamp, c.val.prevBits)
  }

  /** What the decoders return for points written by an encoder whose timestamp
      state may differ from theirs. */
  ghost function ReceivedFrom(e: T.TsState, d: T.TsState, points: seq<Sample>): seq<Sample>
    decreases |points|
  {
    if points == [] then []
    else
      var d' := T.Received(e, d, points[0].ts);
      [Sample(d'.prevTimestamp, V.Mask(points[0].value))]
      + ReceivedFrom(T.Encoded(e, points[0].ts), d', points[1..])
  }

  /** One point written and read: both decoders take exactly the bits written. */
  lemma OneRoundTrip(e: T.TsState, d: T.TsState, v: V.ValState, p: Sample, rest: Bits)
    requires T.SamePhase(e, d) && V.Valid(v)
    ensures var b := SampleBits(Coder(e, v), p) + rest;
            && ReadableOne(Coder(d, v), b)
            && DecodeOne(Coder(d, v), b) == (Coder(T.Received(e, d, p.ts), V.Encoded(v, p.value)), rest)
  {
    hide T.EncodedBits, V.EncodedBits, T.Decoded, V.Decoded, V.Readable, V.Encoded, T.Received, V.Mask;
    var tail := V.EncodedBits(v, p.value) + rest;
    T.StepRoundTrip(e, d, p.ts, tail);
    V.StepRoundTrip(v, p.value, rest);
    assert SampleBits(Coder(e, v), p) + rest == T.EncodedBits(e, p.ts) + tail;
  }

  lemma {:induction false} RoundTripFrom(e: T.TsState, d: T.TsState, v: V.ValState, points: seq<Sample>, pad: Bits)
    requires T.SamePhase(e, d) && V.Valid(v)
    ensures Decodable(Coder(d, v), EncodeFrom(Coder(e, v), points) + pad, |points|)
    ensures DecodeFrom(Coder(d, v), EncodeFrom(Coder(e, v), points) + pad, |points|)
            == (ReceivedFrom(e, d, points), pad)
    decreases |points|
  {
    hide T.EncodedBits, V.EncodedBits, T.Decoded, V.Decoded, V.Readable, V.Encoded, T.Encoded, T.Received, V.Mask;
    hide SampleBits, DecodeOne, ReadableOne;
    if points == [] {
      assert EncodeFrom(Coder(e, v), points) + pad == pad;
    } else {
      var p := points[0];
      var e', d', v' := T.Encoded(e, p.ts), T.Received(e, d, p.ts), V.Encoded(v, p.value);
      var tail := EncodeFrom(Coder(e', v'), points[1..]) + pad;
      T.StepRoundTrip(e, d, p.ts, []);
      V.StepRoundTrip(v, p.value, []);
      OneRoundTrip(e, d, v, p, tail);
      RoundTripFrom(e', d', v', points[1..], pad);
      assert EncodeFrom(Coder(e, v), points) + pad == SampleBits(Coder(e, v), p) + tail;
    }
  }

  // ---------------------------------------------------------------------------
  // What a chunk gives back
  // ---------------------------------------------------------------------------

  function TimestampsOf(points: seq<Sample>): (ts: seq<Word>)
    ensures |ts| == |points|
  {
    seq(|points|, i requires 0 <= i < |points| => points[i].ts)
  }

  /** The points with their values quantised, their timestamps exact. */
  function Quantised(points: seq<Sample>): (q: seq<Sample>)
    ensures |q| == |points|
  {
    seq(|points|, i requires 0 <= i < |points| => Sample(points[i].ts, V.Mask(points[i].value)))
  }

  /** The points a chunk of `points` gives back, in range or not. */
  ghost function Stored(points: seq<Sample>): (q: seq<Sample>)
    ensures |q| == |points|
  {
    var ts := TimestampsOf(points);
    seq(|points|, i requires 0 <= i < |points| => Sample(T.DecodedTimestamp(ts, i), V.Mask(points[i].value)))
  }

  ghost predicate InRange(points: seq<Sample>) {
    T.InRange(TimestampsOf(points))
  }

  lemma {:induction false} ReceivedIsStored(points: seq<Sample>, n: nat)
    requires n <= |points|
    ensures var ts := TimestampsOf(points);
            ReceivedFrom(T.EncodedAll(ts[..n]), T.ReceivedAll(ts[..n]), points[n..]) == Stored(points)[n..]
    decreases |points| - n
  {
    hide T.Received, T.Encoded, V.Mask;
    if n < |points| {
      var ts := TimestampsOf(points);
      var upto := ts[..n + 1];
      assert upto[..|upto| - 1] == ts[..n] && upto[|upto| - 1] == points[n].ts;
      assert T.EncodedAll(upto) == T.Encoded(T.EncodedAll(ts[..n]), points[n].ts);
      assert T.ReceivedAll(upto) == T.Received(T.EncodedAll(ts[..n]), T.ReceivedAll(ts[..n]), points[n].ts);
      ReceivedIsStored(points, n + 1);
      assert points[n..][1..] == points[n + 1..];
      assert Stored(points)[n..] == [Stored(points)[n]] + Stored(points)[n + 1..];
    }
  }

  lemma FreshReceivedIsStored(points: seq<Sample>)
    ensures ReceivedFrom(T.INIT, T.INIT, points) == Stored(points)
  {
    hide ReceivedFrom, Stored;
    ReceivedIsStored(points, 0);
    assert TimestampsOf(points)[..0] == [] && points[0..] == points && Stored(points)[0..] == Stored(points);
  }

  /** Decoding the payload of any points with fresh decoders gives their stored
      form, and the reader stops exactly where the encoder stopped: before fewer
      than eight zero bits. */
  lemma ChunkRoundTrip(points: seq<Sample>)
    ensures var b := BytesBits(Payload(points));
            var pad := Field(0, PadWidth(|Encode(points)|));
            && Decodable(START, b, |points|)
            && DecodeFrom(START, b, |points|) == (Stored(points), pad)
            && |pad| < 8
  {
    hide Decodable, DecodeFrom, EncodeFrom, Field, Pack, BytesBits, ReceivedFrom, Stored;
    var pad := Field(0, PadWidth(|Encode(points)|));
    PackedBits(Encode(points));
    RoundTripFrom(T.INIT, T.INIT, V.INIT, points, pad);
    FreshReceivedIsStored(points);
  }

  /** A chunk gives back its points with quantised values exactly when the second
      gap fits 14 bits and every later change of gap fits 32. */
  lemma ChunkLosslessIff(points: seq<Sample>)
    ensures Stored(points) == Quantised(points) <==> InRange(points)
  {
    var ts := TimestampsOf(points);
    T.DecodingIsIdentityIff(ts);
    if Stored(points) == Quantised(points) {
      forall i | 0 <= i < |ts|
        ensures T.DecodedTimestamp(ts, i) == ts[i]
      {
        assert Stored(points)[i] == Quantised(points)[i];
      }
    }
  }

  /** Encoding looks at values only through the mask. */
  lemma {:induction false} EncodeFromQuantised(c: Coder, points: seq<Sample>)
    requires WellFormed(c)
    ensures EncodeFrom(c, Quantised(points)) == EncodeFrom(c, points)
    decreases |points|
  {
    hide T.EncodedBits, T.Encoded, Field, V.XorWord;
    if points != [] {
      var p := points[0];
      assert V.Mask(V.Mask(p.value)) == V.Mask(p.value);
      assert Quantised(points)[1..] == Quantised(points[1..]);
      EncodeFromQuantised(Next(c, p), points[1..]);
    }
  }

  /** Encoding a decoded in-range chunk again gives the identical payload. */
  lemma ReencodingIsIdentical(points: seq<Sample>)
    requires InRange(points)
    ensures Payload(Stored(points)) == Payload(points)
  {
    ChunkLosslessIff(points);
    EncodeFromQuantised(START, points);
  }

  // ---------------------------------------------------------------------------
  // Exact size
  // ---------------------------------------------------------------------------

  /** The coders are past their first two timestamps and have kept the full window. */
  ghost predicate Steady(c: Coder) {
    && !c.ts.isFirst && !c.ts.isSecond && !c.val.isFirst
    && c.val.leading == 0 && c.val.trailing == 0
  }

  lemma {:induction false} SteadySize(c: Coder, points: seq<Sample>)
    requires Steady(c)
    ensures 2 * |points| <= |EncodeFrom(c, points)| <= 102 * |points|
    decreases |points|
  {
    hide T.EncodedBits, V.EncodedBits, V.Mask;
    if points != [] {
      T.TimestampCost(c.ts, points[0].ts);
      V.FullWindowStays(c.val, points[0].value);
      SteadySize(Next(c, points[0]), points[1..]);
    }
  }

  /** The length in bits of any stream that starts from fresh encoders. */
  lemma StreamSize(points: seq<Sample>)
    ensures |points| == 1 ==> |Encode(points)| == 128
    ensures |points| >= 2 ==> 2 * |points| + 139 <= |Encode(points)| <= 102 * |points| + 4
  {
    hide SampleBits, Next;
    if |points| >= 1 {
      FirstSize(points[0]);
      var c := Next(START, points[0]);
      var rest := points[1..];
      assert Encode(points) == SampleBits(START, points[0]) + EncodeFrom(c, rest);
      if |rest| >= 1 {
        assert EncodeFrom(c, rest) == SampleBits(c, rest[0]) + EncodeFrom(Next(c, rest[0]), rest[1..]);
        SecondSize(c, rest[0]);
        SteadySize(Next(c, rest[0]), rest[1..]);
      }
    }
  }

  lemma FirstSize(p: Sample)
    ensures |SampleBits(START, p)| == 128
    ensures var c := Next(START, p);
            && !c.ts.isFirst && c.ts.isSecond && !c.val.isFirst
            && c.val.leading == 0 && c.val.trailing == 0
  {
    V.FullWindowStays(V.INIT, p.value);
  }

  lemma SecondSize(c: Coder, p: Sample)
    requires !c.ts.isFirst && c.ts.isSecond && !c.val.isFirst
    requires c.val.leading == 0 && c.val.trailing == 0
    ensures |SampleBits(c, p)| in {15, 80} && Steady(Next(c, p))
  {
    V.FullWindowStays(c.val, p.value);
  }

  /** A payload starts with the whole first timestamp and then the whole first value,
      masked. */
  lemma PayloadStart(points: seq<Sample>)
    requires points != []
    ensures |BytesBits(Payload(points))| >= 128
    ensures BytesBits(Payload(points))[..64] == Field(points[0].ts, 64)
    ensures BytesBits(Payload(points))[64..128] == Field(V.Mask(points[0].value), 64)
  {
    hide Field, BytesBits, Pack, EncodeFrom, V.Mask;
    PackedBits(Encode(points));
    EncodeFromStep([], START, points, 0);
    assert points[0..] == points;
    assert [] + Encode(points) == Encode(points);
  }

  /** The payload of a full head fits the 32-bit size field. */
  lemma PayloadFits(points: seq<Sample>)
    requires |points| <= HEAD_CAPACITY
    ensures |Payload(points)| < 0x1_0000_0000
  {
    StreamSize(points);
    PackedBits(Encode(points));
  }

  // ---------------------------------------------------------------------------
  // Chunk files
  // ---------------------------------------------------------------------------

  /** An unsigned 32-bit integer. */
  type Uint32 = x: int | 0 <= x < 0x1_0000_0000

  datatype Header = Header(chunkId: Uint32, startTs: Word, endTs: Word, sizeBytes: Uint32, pointCount: Uint32)

  datatype ChunkFile = ChunkFile(header: Header, payload: seq<Byte>)

  datatype Option<T> = None | Some(value: T)

  function ToUint32(x: int): Uint32 {
    x % 0x1_0000_0000
  }

  /** The file a flush of `points` writes. */
  function FlushedChunk(chunkId: Uint32, points: seq<Sample>): ChunkFile
    requires points != []
  {
    var payload := Payload(points);
    ChunkFile(Header(chunkId, points[0].ts, points[|points| - 1].ts, ToUint32(|payload|), ToUint32(|points|)),
              payload)
  }

  /** The whole payload named by the header can be read and decoded. */
  ghost predicate Intact(file: ChunkFile) {
    && file.header.sizeBytes <= |file.payload|
    && Decodable(START, BytesBits(file.payload[..file.header.sizeBytes]), file.header.pointCount)
  }

  /** The points a decoding loop gets out of a chunk file. */
  ghost function Contents(file: ChunkFile): seq<Sample>
    requires Intact(file)
  {
    DecodeFrom(START, BytesBits(file.payload[..file.header.sizeBytes]), file.header.pointCount).0
  }

  /** A flushed chunk of at most a head's worth of points can always be read and
      gives back the stored form of its points. */
  lemma FlushedChunkReadsBack(chunkId: Uint32, points: seq<Sample>)
    requires 0 < |points| <= HEAD_CAPACITY
    ensures var file := FlushedChunk(chunkId, points);
            && file.header.sizeBytes == |file.payload| && file.header.chunkId == chunkId
            && file.header.startTs == points[0].ts && file.header.endTs == points[|points| - 1].ts
            && file.header.pointCount == |points|
            && Intact(file)
            && Contents(file) == Stored(points)
  {
    hide Decodable, DecodeFrom, Payload, BytesBits, Stored;
    var file := FlushedChunk(chunkId, points);
    PayloadFits(points);
    ChunkRoundTrip(points);
    assert file.payload[..file.header.sizeBytes] == file.payload;
  }

  /** The points in two parallel arrays. */
  function SamplesOf(timestamps: seq<Word>, values: seq<Word>): (points: seq<Sample>)
    requires |timestamps| == |values|
    ensures |points| == |timestamps|
  {
    seq(|timestamps|, i requires 0 <= i < |timestamps| => Sample(timestamps[i], values[i]))
  }

  /** Write one point with both encoders of a stream. */
  method WriteSample(tsEnc: T.TimestampEncoder, valEnc: V.ValueEncoder, p: Sample)
    requires tsEnc.bw == valEnc.bw && tsEnc.bw.Valid() && V.WellFormed(valEnc.State())
    modifies tsEnc, valEnc, tsEnc.bw.Repr()
    ensures tsEnc.bw.Valid() && V.WellFormed(valEnc.State())
    ensures tsEnc.bw.buffer.data == old(tsEnc.bw.buffer.data) || fresh(tsEnc.bw.buffer.data)
    ensures var c := old(Coder(tsEnc.State(), valEnc.State()));
            && Coder(tsEnc.State(), valEnc.State()) == Next(c, p)
            && tsEnc.bw.Written() == old(tsEnc.bw.Written()) + SampleBits(c, p)
  {
    hide T.EncodedBits, V.EncodedBits, T.Encoded, V.Encoded, BytesBits, TopBits;
    tsEnc.Write(p.ts);
    valEnc.Write(p.value);
  }

  /** Compress the first `n` points of two parallel arrays into a chunk; nothing is
      written when there are none. */
  method FlushToChunk(chunkId: Uint32, timestamps: array<Word>, values: array<Word>, n: nat)
    returns (file: Option<ChunkFile>)
    requires n <= timestamps.Length && n <= values.Length && n < 0x8000_0000
    ensures n == 0 ==> file == None
    ensures n > 0 ==> file == Some(FlushedChunk(chunkId, SamplesOf(timestamps[..n], values[..n])))
  {
    hide Payload;
    if n == 0 {
      return None;
    }
    ghost var points := SamplesOf(timestamps[..n], values[..n]);
    var payload := CompressPoints(timestamps, values, n, points);
    var header := Header(chunkId, timestamps[0], timestamps[n - 1], ToUint32(|payload|), n);
    file := Some(ChunkFile(header, payload));
  }

  method CompressPoints(timestamps: array<Word>, values: array<Word>, n: nat, ghost points: seq<Sample>)
    returns (payload: seq<Byte>)
    requires n <= timestamps.Length && n <= values.Length
    requires points == SamplesOf(timestamps[..n], values[..n])
    ensures payload == Payload(points)
  {
    hide EncodeFrom, SampleBits, Next, TopBits, BytesBits, Pack;
    var bw := new BitWriter();
    var tsEnc := new T.TimestampEncoder(bw);
    var valEnc := new V.ValueEncoder(bw);
    assert points[0..] == points;
    for i := 0 to n
      invariant tsEnc.bw == bw && valEnc.bw == bw && bw.Valid() && V.WellFormed(valEnc.State())
      invariant fresh(bw.Repr())
      invariant bw.Written() + EncodeFrom(Coder(tsEnc.State(), valEnc.State()), points[i..]) == Encode(points)
    {
      EncodeFromStep(bw.Written(), Coder(tsEnc.State(), valEnc.State()), points, i);
      WriteSample(tsEnc, valEnc, Sample(timestamps[i], values[i]));
    }
    EncodeFromEnd(bw.Written(), Coder(tsEnc.State(), valEnc.State()), points);
    bw.Close();
    payload := bw.buffer.data[..bw.buffer.size];
    ClosedIsPacked(Encode(points), payload);
  }

  lemma EncodeFromStep(written: Bits, c: Coder, points: seq<Sample>, i: nat)
    requires WellFormed(c) && i < |points|
    ensures written + EncodeFrom(c, points[i..])
            == written + SampleBits(c, points[i]) + EncodeFrom(Next(c, points[i]), points[i + 1..])
  {
    hide SampleBits, Next;
    assert points[i..][1..] == points[i + 1..];
  }

  lemma EncodeFromEnd(written: Bits, c: Coder, points: seq<Sample>)
    requires WellFormed(c)
    ensures written + EncodeFrom(c, points[|points|..]) == written
  {
  }

  /** Closing a writer leaves the packed bytes, whatever the zero padding. */
  lemma ClosedIsPacked(b: Bits, bytes: seq<Byte>)
    requires exists filled: nat :: filled < 8 && BytesBits(bytes) == b + Field(0, Padding(filled))
    ensures bytes == Pack(b)
  {
    hide BytesBits, Pack, Field, PadWidth;
    var filled: nat :| filled < 8 && BytesBits(bytes) == b + Field(0, Padding(filled));
    PackedBits(b);
    assert |BytesBits(bytes)| == |b| + Padding(filled);
    PaddingIsUnique(|b|, |bytes|, filled);
    BytesBitsInjective(bytes, Pack(b));
  }

  lemma PaddingIsUnique(n: nat, bytes: nat, filled: nat)
    requires filled < 8 && 8 * bytes == n + Padding(filled)
    ensures Padding(filled) == PadWidth(n)
  {
  }

  // ---------------------------------------------------------------------------
  // The decoding loop
  // ---------------------------------------------------------------------------

  /** Both decoders on the payload of one chunk file. */
  class ChunkDecoder {
    const br: BitReader
    const tsDec: T.TimestampDecoder
    const valDec: V.ValueDecoder

    ghost predicate Valid()
      reads this, br, br.buffer, br.buffer.data, tsDec, valDec
    {
      && tsDec.br == br && valDec.br == br
      && br.Valid()
      && V.WellFormed(valDec.State())
    }

    ghost function State(): Coder
      reads this, tsDec, valDec
    {
      Coder(tsDec.State(), valDec.State())
    }

    ghost function Repr(): set<object>
      reads this
    {
      {br, tsDec, valDec}
    }

    constructor (br: BitReader)
      requires br.Valid()
      ensures this.br == br && Valid() && fresh(tsDec) && fresh(valDec)
      ensures State() == START
    {
      this.br := br;
      tsDec := new T.TimestampDecoder(br);
      valDec := new V.ValueDecoder(br);
    }

    /** One turn of the loop: the next timestamp, then the next value. */
    method ReadSample() returns (p: Sample)
      requires Valid() && ReadableOne(State(), br.Rest())
      modifies Repr()
      ensures Valid()
      ensures (State(), br.Rest()) == DecodeOne(old(State()), old(br.Rest()))
      ensures p == Current(State())
    {
      hide T.Decoded, V.Decoded, V.Readable, BytesBits;
      var ts := tsDec.Read();
      var value := valDec.Read();
      p := Sample(ts, value);
    }

    /** The same on a stream of which `n` more points can be read. */
    method ReadNext(ghost n: nat) returns (p: Sample)
      requires Valid() && n > 0 && Decodable(State(), br.Rest(), n)
      modifies Repr()
      ensures Valid() && Decodable(State(), br.Rest(), n - 1)
      ensures old(DecodeFrom(State(), br.Rest(), n).0) == [p] + DecodeFrom(State(), br.Rest(), n - 1).0
    {
      hide DecodeFrom, Decodable, DecodeOne, ReadableOne, BytesBits;
      DecodeStep(State(), br.Rest(), n);
      p := ReadSample();
    }
  }

  /** Fresh decoders at the start of a file's payload. */
  method OpenDecoder(file: ChunkFile) returns (decoder: ChunkDecoder)
    requires file.header.sizeBytes <= |file.payload|
    ensures fresh(decoder) && fresh(decoder.Repr()) && decoder.Valid()
    ensures decoder.State() == START
    ensures decoder.br.Rest() == BytesBits(file.payload[..file.header.sizeBytes])
  {
    hide BytesBits, BitReader.Rest;
    var buffer := new ByteBuffer.FromPayload(file.payload[..file.header.sizeBytes]);
    var reader := new BitReader(buffer);
    decoder := new ChunkDecoder(reader);
  }

  /** Decompress a whole chunk into a fresh array. */
  method DecompressAll(file: ChunkFile) returns (points: array<Sample>)
    requires Intact(file)
    ensures fresh(points) && points[..] == Contents(file)
  {
    hide DecodeFrom, Decodable, BytesBits, Contents, Intact;
    IntactStart(file);
    var n := file.header.pointCount;
    points := new Sample[n](_ => Sample(0, 0));
    var decoder := OpenDecoder(file);
    assert points[..0] == [];
    for i := 0 to n
      invariant decoder.Valid() && fresh(decoder.Repr())
      invariant Decodable(decoder.State(), decoder.br.Rest(), n - i)
      invariant points[..i] + DecodeFrom(decoder.State(), decoder.br.Rest(), n - i).0 == Contents(file)
    {
      StoreNext(decoder, points, i, n - i);
    }
    DecodeEnd(decoder.State(), decoder.br.Rest());
    assert points[..n] == points[..];
  }

  /** One turn of the loop: the next point goes to place `i`. */
  method StoreNext(decoder: ChunkDecoder, points: array<Sample>, i: nat, ghost n: nat)
    requires decoder.Valid() && n > 0 && Decodable(decoder.State(), decoder.br.Rest(), n)
    requires i < points.Length && points as object != decoder.br.buffer.data
    modifies decoder.Repr(), points
    ensures decoder.Valid() && Decodable(decoder.State(), decoder.br.Rest(), n - 1)
    ensures points[..i + 1] + DecodeFrom(decoder.State(), decoder.br.Rest(), n - 1).0
            == old(points[..i]) + old(DecodeFrom(decoder.State(), decoder.br.Rest(), n).0)
  {
    hide DecodeFrom, Decodable, BytesBits;
    var p := decoder.ReadNext(n);
    points[i] := p;
    assert points[..i + 1] == old(points[..i]) + [p];
  }

  lemma IntactStart(file: ChunkFile)
    requires Intact(file)
    ensures file.header.sizeBytes <= |file.payload|
    ensures var b := BytesBits(file.payload[..file.header.sizeBytes]);
            && Decodable(START, b, file.header.pointCount)
            && Contents(file) == DecodeFrom(START, b, file.header.pointCount).0
  {
  }

  lemma DecodeStep(c: Coder, b: Bits, n: nat)
    requires WellFormed(c) && n > 0 && Decodable(c, b, n)
    ensures ReadableOne(c, b)
    ensures var next := DecodeOne(c, b);
            && Decodable(next.0, next.1, n - 1)
            && DecodeFrom(c, b, n).0 == [Current(next.0)] + DecodeFrom(next.0, next.1, n - 1).0
  {
  }

  lemma DecodeEnd(c: Coder, b: Bits)
    requires WellFormed(c)
    ensures DecodeFrom(c, b, 0).0 == []
  {
  }
}
