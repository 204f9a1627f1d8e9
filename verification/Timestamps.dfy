/** The delta-of-delta timestamp coder (src/timestamp.c). */
module Timestamps {
  import opened Words
  import opened Bits
  import opened BitIO

  /** The fields an encoder and its decoder share. */
  datatype TsState = TsState(prevTimestamp: Word, prevDelta: Long, isFirst: bool, isSecond: bool)

  const INIT := TsState(0, 0, true, false)

  // ---------------------------------------------------------------------------
  // One timestamp on bit strings
  // ---------------------------------------------------------------------------

  /** `D & mask` for a mask of `bits` ones, as the word handed to the writer. */
  function Masked(d: Long, bits: nat): Word
    requires 0 < bits <= 32
  {
    Pow2Monotone(bits, 32);
    Pow2Widths();
    d % Pow2(bits)
  }

  /** A delta of deltas: a prefix code for its size class, then its low bits. */
  function DeltaBits(d: Long): Bits {
    if d == 0 then Field(0, 1)
    else if -64 <= d <= 63 then Field(0x02, 2) + Field(Masked(d, 7), 7)
    else if -256 <= d <= 255 then Field(0x06, 3) + Field(Masked(d, 9), 9)
    else if -2048 <= d <= 2047 then Field(0x0E, 4) + Field(Masked(d, 12), 12)
    else Field(0x0F, 4) + Field(Masked(d, 32), 32)
  }

  function Delta(s: TsState, timestamp: Word): Long {
    Signed64(timestamp - s.prevTimestamp)
  }

  function EncodedBits(s: TsState, timestamp: Word): Bits {
    if s.isFirst then Field(timestamp, 64)
    else if s.isSecond then Field(Masked(Delta(s, timestamp), 14), 14)
    else DeltaBits(Signed64(Delta(s, timestamp) - s.prevDelta))
  }

  function Encoded(s: TsState, timestamp: Word): TsState {
    if s.isFirst then s.(prevTimestamp := timestamp, isFirst := false, isSecond := true)
    else s.(prevTimestamp := timestamp, prevDelta := Delta(s, timestamp), isSecond := false)
  }

  /** The four prefix codes, read one bit at a time; the delta of deltas and
      what follows it. */
  function ReadDelta(b: Bits): (r: (Long, Bits)) {
    var b1 := ReadRest(b, 1);
    var b2 := ReadRest(b1, 1);
    var b3 := ReadRest(b2, 1);
    var b4 := ReadRest(b3, 1);
    if ReadValue(b, 1) == 0 then (0, b1)
    else if ReadValue(b1, 1) == 0 then ReadSigned(b2, 7)
    else if ReadValue(b2, 1) == 0 then ReadSigned(b3, 9)
    else if ReadValue(b3, 1) == 0 then ReadSigned(b4, 12)
    else ReadSigned(b4, 32)
  }

  /** `signextend(brread(br, bits), bits)` */
  function ReadSigned(b: Bits, bits: nat): (Long, Bits)
    requires 0 < bits <= 32
  {
    ReadBound(b, bits);
    (SignExtend(ReadValue(b, bits), bits), ReadRest(b, bits))
  }

  lemma ReadBound(b: Bits, bits: nat)
    requires 0 < bits <= 32
    ensures ReadValue(b, bits) < Pow2(bits) <= 0x1_0000_0000
  {
    ReadValueBound(b, bits);
    Pow2Monotone(bits, 32);
    Pow2Widths();
  }

  /** The state after reading a delta. */
  function Advance(s: TsState, delta: Long): TsState {
    TsState(Unsigned64(s.prevTimestamp + delta), delta, false, false)
  }

  function Decoded(s: TsState, b: Bits): (r: (TsState, Bits)) {
    if s.isFirst then
      (s.(prevTimestamp := ReadWord(b), isFirst := false, isSecond := true), ReadRest(b, 64))
    else if s.isSecond then
      var (delta, rest) := ReadSigned(b, 14);
      (Advance(s, delta), rest)
    else
      var (d, rest) := ReadDelta(b);
      (Advance(s, Signed64(s.prevDelta + d)), rest)
  }

  // ---------------------------------------------------------------------------
  // Reading back one timestamp
  // ---------------------------------------------------------------------------

  /** A signed field comes back wrapped to its width. */
  lemma ReadBackSigned(d: Long, bits: nat, rest: Bits)
    requires 0 < bits <= 32
    ensures ReadSigned(Field(Masked(d, bits), bits) + rest, bits) == (WrapSigned(d, bits), rest)
  {
    var m := Masked(d, bits);
    ReadField(m, bits, rest);
    LowOfSmall(m, bits);
    SignExtendIsWrap(d, bits);
  }

  /** Past a prefix, the decoder reads a field of the width the prefix names. */
  lemma ReadPrefix7(rest: Bits)
    ensures ReadDelta([true, false] + rest) == ReadSigned(rest, 7)
  {
    hide ReadValue, ReadRest, ReadSigned;
    ReadBit(true, [false] + rest);
    ReadBit(false, rest);
    assert [true, false] + rest == [true] + ([false] + rest);
  }

  lemma ReadPrefix9(rest: Bits)
    ensures ReadDelta([true, true, false] + rest) == ReadSigned(rest, 9)
  {
    hide ReadValue, ReadRest, ReadSigned;
    var tail := [true, false] + rest;
    ReadBit(true, tail);
    ReadBit(true, [false] + rest);
    ReadBit(false, rest);
    assert [true, true, false] + rest == [true] + tail && tail == [true] + ([false] + rest);
  }

  lemma ReadPrefix12(rest: Bits)
    ensures ReadDelta([true, true, true, false] + rest) == ReadSigned(rest, 12)
  {
    hide ReadValue, ReadRest, ReadSigned;
    ReadThreeOnes([false] + rest);
    ReadBit(false, rest);
    assert [true, true, true, false] + rest == [true, true, true] + ([false] + rest);
  }

  lemma ReadPrefix32(rest: Bits)
    ensures ReadDelta([true, true, true, true] + rest) == ReadSigned(rest, 32)
  {
    hide ReadValue, ReadRest, ReadSigned;
    ReadThreeOnes([true] + rest);
    ReadBit(true, rest);
    assert [true, true, true, true] + rest == [true, true, true] + ([true] + rest);
  }

  lemma ReadThreeOnes(tail: Bits)
    ensures var b1 := ReadRest([true, true, true] + tail, 1);
            var b2 := ReadRest(b1, 1);
            && ReadValue([true, true, true] + tail, 1) == ReadValue(b1, 1) == ReadValue(b2, 1) == 1
            && ReadRest(b2, 1) == tail
  {
    hide ReadValue, ReadRest;
    var b1, b2 := [true, true] + tail, [true] + tail;
    ReadBit(true, b1);
    ReadBit(true, b2);
    ReadBit(true, tail);
    assert [true, true, true] + tail == [true] + b1 && b1 == [true] + b2;
  }

  /** The decoder undoes the encoder's choice of size class; only the 32-bit
      escape loses anything. */
  lemma DeltaRoundTrip(d: Long, rest: Bits)
    ensures ReadDelta(DeltaBits(d) + rest) == (WrapSigned(d, 32), rest)
  {
    hide Field, Masked, WrapSigned, ReadDelta, ReadSigned, ReadValue, ReadRest;
    PrefixCodes();
    WrapSmall(d);
    if d == 0 {
      ReadZeroDelta(rest);
    } else {
      var bits := if -64 <= d <= 63 then 7 else if -256 <= d <= 255 then 9 else if -2048 <= d <= 2047 then 12 else 32;
      var tail := Field(Masked(d, bits), bits) + rest;
      ReadBackSigned(d, bits, rest);
      ReadPrefix7(tail);
      ReadPrefix9(tail);
      ReadPrefix12(tail);
      ReadPrefix32(tail);
      var prefix := DeltaBits(d)[..|DeltaBits(d)| - bits];
      assert DeltaBits(d) + rest == prefix + tail;
    }
  }

  lemma ReadZeroDelta(rest: Bits)
    ensures ReadDelta([false] + rest) == (0, rest)
  {
    hide ReadValue, ReadRest;
    ReadBit(false, rest);
  }

  lemma WrapSmall(d: Long)
    ensures d == 0 ==> WrapSigned(d, 32) == d
    ensures -64 <= d <= 63 ==> WrapSigned(d, 7) == WrapSigned(d, 32) == d
    ensures -256 <= d <= 255 ==> WrapSigned(d, 9) == WrapSigned(d, 32) == d
    ensures -2048 <= d <= 2047 ==> WrapSigned(d, 12) == WrapSigned(d, 32) == d
  {
    Pow2Small();
    Pow2Widths();
    WrapSignedIdentity(d, 7);
    WrapSignedIdentity(d, 9);
    WrapSignedIdentity(d, 12);
    WrapSignedIdentity(d, 32);
  }

  /** The size classes: the smallest that a delta of deltas fits. */
  lemma DeltaCost(d: Long)
    ensures |DeltaBits(d)| == (if d == 0 then 1
                               else if -64 <= d < 64 then 9
                               else if -256 <= d < 256 then 12
                               else if -2048 <= d < 2048 then 16
                               else 36)
  {
  }

  /** What a timestamp costs: 64 bits for the first, 14 for the second, and for a later
      one 1, 9, 12, 16 or 36 as its change of gap is zero or fits 7, 9, 12 or no fewer
      than 32 signed bits. */
  lemma TimestampCost(s: TsState, timestamp: Word)
    ensures s.isFirst ==> |EncodedBits(s, timestamp)| == 64
    ensures !s.isFirst && s.isSecond ==> |EncodedBits(s, timestamp)| == 14
    ensures var change := Signed64(Signed64(timestamp - s.prevTimestamp) - s.prevDelta);
            !s.isFirst && !s.isSecond ==>
              |EncodedBits(s, timestamp)| == (if change == 0 then 1
                                              else if -64 <= change < 64 then 9
                                              else if -256 <= change < 256 then 12
                                              else if -2048 <= change < 2048 then 16
                                              else 36)
  {
    hide DeltaBits, Signed64;
    if !s.isFirst && !s.isSecond {
      DeltaCost(Signed64(Delta(s, timestamp) - s.prevDelta));
    }
  }

  /** The bits of a size class: its prefix, then the low bits of the number. */
  lemma DeltaLayout(d: Long)
    ensures var b := DeltaBits(d);
            && (|b| == 1 ==> b == [false])
            && (|b| == 9 ==> b[..2] == [true, false] && ValueOf(b[2..]) == d % 0x80)
            && (|b| == 12 ==> b[..3] == [true, true, false] && ValueOf(b[3..]) == d % 0x200)
            && (|b| == 16 ==> b[..4] == [true, true, true, false] && ValueOf(b[4..]) == d % 0x1000)
            && (|b| == 36 ==> b[..4] == [true, true, true, true] && ValueOf(b[4..]) == d % 0x1_0000_0000)
  {
    hide Field, ValueOf, Masked, Pow2;
    PrefixCodes();
    MaskedValue(d, 7);
    MaskedValue(d, 9);
    MaskedValue(d, 12);
    MaskedValue(d, 32);
    Pow2Small();
    Pow2Widths();
  }

  lemma MaskedValue(d: Long, bits: nat)
    requires 0 < bits <= 32
    ensures ValueOf(Field(Masked(d, bits), bits)) == d % Pow2(bits)
  {
    hide ValueOf, Field;
    ValueOfField(Masked(d, bits), bits);
    LowOfSmall(Masked(d, bits), bits);
  }

  /** A signed field that is all there: its bits are taken and the number fits. */
  lemma ReadSignedCost(b: Bits, bits: nat)
    requires 0 < bits <= 32 && bits <= |b|
    ensures |ReadSigned(b, bits).1| == |b| - bits
    ensures -Pow2(bits - 1) <= ReadSigned(b, bits).0 < Pow2(bits - 1)
  {
    hide ReadValue, Pow2;
    ReadBound(b, bits);
    var val := ReadValue(b, bits);
    DivUnique(val, Pow2(bits), 0, val);
    SignExtendIsWrap(val, bits);
  }

  /** Whatever the decoder reads as a delta of deltas fits the size class it took. */
  lemma ReadDeltaCost(b: Bits)
    requires |b| >= 36
    ensures var (d, rest) := ReadDelta(b);
            var n := |b| - |rest|;
            && n in {1, 9, 12, 16, 36}
            && (n == 1 ==> d == 0)
            && (n == 9 ==> -64 <= d < 64)
            && (n == 12 ==> -256 <= d < 256)
            && (n == 16 ==> -2048 <= d < 2048)
  {
    hide ReadValue, ReadSigned, Pow2;
    Pow2Small();
    Pow2Widths();
    ReadSignedCost(b[2..], 7);
    ReadSignedCost(b[3..], 9);
    ReadSignedCost(b[4..], 12);
    ReadSignedCost(b[4..], 32);
  }

  /** The encoder's size classes are the best the decoder allows: no shorter bit string is
      read as the same delta of deltas whatever follows it. */
  lemma DeltaBitsAreShortest(d: Long, code: Bits)
    requires forall rest :: ReadDelta(code + rest) == (d, rest)
    ensures |DeltaBits(d)| <= |code|
  {
    hide ReadDelta;
    var rest := Field(0, 36);
    ReadDeltaCost(code + rest);
    DeltaCost(d);
  }

  ghost predicate SamePhase(e: TsState, d: TsState) {
    e.isFirst == d.isFirst && e.isSecond == d.isSecond
  }

  /** What the decoder makes of one timestamp, whatever the two states hold: the
      delta wrapped to 14 bits, or the delta of deltas wrapped to 32. */
  ghost function Received(e: TsState, d: TsState, timestamp: Word): TsState {
    if e.isFirst then d.(prevTimestamp := timestamp, isFirst := false, isSecond := true)
    else if e.isSecond then Advance(d, WrapSigned(Delta(e, timestamp), 14))
    else Advance(d, Signed64(d.prevDelta + WrapSigned(Signed64(Delta(e, timestamp) - e.prevDelta), 32)))
  }

  /** One write then one read: the decoder takes exactly the bits written. */
  lemma StepRoundTrip(e: TsState, d: TsState, timestamp: Word, rest: Bits)
    requires SamePhase(e, d)
    ensures Decoded(d, EncodedBits(e, timestamp) + rest) == (Received(e, d, timestamp), rest)
    ensures SamePhase(Encoded(e, timestamp), Received(e, d, timestamp))
  {
    hide DeltaBits, ReadDelta, ReadSigned, Field, ReadWord, WrapSigned, Signed64, Unsigned64, Masked;
    if e.isFirst {
      ReadBackWord(timestamp, rest);
    } else if e.isSecond {
      ReadBackSigned(Delta(e, timestamp), 14, rest);
    } else {
      DeltaRoundTrip(Signed64(Delta(e, timestamp) - e.prevDelta), rest);
    }
  }

  // ---------------------------------------------------------------------------
  // A whole list of timestamps
  // ---------------------------------------------------------------------------

  /** The encoder's state after a list of timestamps. */
  ghost function EncodedAll(ts: seq<Word>): TsState {
    if ts == [] then INIT else Encoded(EncodedAll(ts[..|ts| - 1]), ts[|ts| - 1])
  }

  /** The decoder's state after reading back the bits of a list of timestamps. */
  ghost function ReceivedAll(ts: seq<Word>): TsState {
    if ts == [] then INIT
    else
      var before := ts[..|ts| - 1];
      Received(EncodedAll(before), ReceivedAll(before), ts[|ts| - 1])
  }

  ghost function Gap(ts: seq<Word>, i: nat): Long
    requires 1 <= i < |ts|
  {
    Signed64(ts[i] as int - ts[i - 1] as int)
  }

  ghost function Change(ts: seq<Word>, i: nat): Long
    requires 2 <= i < |ts|
  {
    Signed64(Gap(ts, i) - Gap(ts, i - 1))
  }

  /** The inner running sum: the first gap wrapped to 14 bits plus every change of
      gap wrapped to 32 bits. */
  ghost function Rate(ts: seq<Word>, i: nat): int
    requires 1 <= i < |ts|
  {
    if i == 1 then WrapSigned(Gap(ts, 1), 14) else Rate(ts, i - 1) + WrapSigned(Change(ts, i), 32)
  }

  /** The outer running sum. */
  ghost function Track(ts: seq<Word>, i: nat): int
    requires i < |ts|
  {
    if i == 0 then ts[0] else Track(ts, i - 1) + Rate(ts, i)
  }

  /** What a decoder returns for the `i`-th timestamp. */
  ghost function DecodedTimestamp(ts: seq<Word>, i: nat): Word
    requires i < |ts|
  {
    ReceivedAll(ts[..i + 1]).prevTimestamp
  }

  /** Every number the coder cuts down fits the width it is cut to. */
  ghost predicate InRange(ts: seq<Word>) {
    && (|ts| >= 2 ==> -8192 <= Gap(ts, 1) < 8192)
    && forall i :: 2 <= i < |ts| ==> -0x8000_0000 <= Change(ts, i) < 0x8000_0000
  }

  lemma {:induction false} EncodedAllShape(ts: seq<Word>)
    requires ts != []
    ensures var n := |ts|;
            EncodedAll(ts) == TsState(ts[n - 1], if n == 1 then 0 else Gap(ts, n - 1), false, n == 1)
  {
    var n := |ts|;
    if n > 1 {
      var before := ts[..n - 1];
      EncodedAllShape(before);
      assert ts[n - 2] == before[n - 2];
    }
  }

  /** The sums only look at the timestamps up to their index. */
  lemma {:induction false} SumsOfPrefix(ts: seq<Word>, n: nat, i: nat)
    requires i < n <= |ts|
    ensures Track(ts[..n], i) == Track(ts, i)
    ensures i >= 1 ==> Rate(ts[..n], i) == Rate(ts, i)
  {
    hide Signed64, WrapSigned;
    if i > 0 {
      SumsOfPrefix(ts, n, i - 1);
      assert Gap(ts[..n], i) == Gap(ts, i);
    }
  }

  /** With no assumption on the range, a decoder returns the double running sum of
      the wrapped numbers, modulo 2^64. */
  lemma {:induction false} ExactTimestamps(ts: seq<Word>)
    requires ts != []
    ensures var n := |ts|;
            ReceivedAll(ts) == TsState(Unsigned64(Track(ts, n - 1)),
                                       if n == 1 then 0 else Signed64(Rate(ts, n - 1)), false, n == 1)
  {
    hide Signed64, Unsigned64, WrapSigned;
    var n := |ts|;
    if n == 1 {
      UnsignedWord(ts[0]);
    } else {
      var before := ts[..n - 1];
      ExactTimestamps(before);
      EncodedAllShape(before);
      SumsOfPrefix(ts, n - 1, n - 2);
      var t := Track(ts, n - 2);
      if n == 2 {
        var r := WrapSigned(Gap(ts, 1), 14);
        assert ReceivedAll(ts) == Advance(ReceivedAll(before), r);
        Pow2Widths();
        SignedLong(r);
        UnsignedSum(t, r);
      } else {
        var r := Rate(ts, n - 2);
        var c := WrapSigned(Change(ts, n - 1), 32);
        assert Gap(before, n - 2) == Gap(ts, n - 2);
        assert ReceivedAll(ts) == Advance(ReceivedAll(before), Signed64(Signed64(r) + c));
        SignedSum(r, c);
        UnsignedSignedSum(t, r + c);
      }
    }
  }

  /** The decoder returns the timestamps that were written exactly when every
      number the coder cuts down fits its width. */
  lemma DecodingIsIdentityIff(ts: seq<Word>)
    ensures (forall i :: 0 <= i < |ts| ==> DecodedTimestamp(ts, i) == ts[i]) <==> InRange(ts)
  {
    hide Signed64, Unsigned64, WrapSigned;
    forall i | 0 <= i < |ts|
      ensures DecodedTimestamp(ts, i) == Unsigned64(Track(ts, i))
    {
      ExactTimestamps(ts[..i + 1]);
      SumsOfPrefix(ts, i + 1, i);
    }
    if InRange(ts) {
      forall i | 0 <= i < |ts|
        ensures DecodedTimestamp(ts, i) == ts[i]
      {
        InRangeTracks(ts, i);
      }
    } else if forall i :: 0 <= i < |ts| ==> DecodedTimestamp(ts, i) == ts[i] {
      forall i | 0 <= i < |ts|
        ensures Unsigned64(Track(ts, i)) == ts[i]
      {
        assert DecodedTimestamp(ts, i) == ts[i];
      }
      TrackingIsInRange(ts);
    }
  }

  /** Two timestamps 8192 seconds apart: the gap comes back negative. */
  lemma SecondGapIsCut()
    ensures DecodedTimestamp([0, 8192], 1) == TWO_64 - 8192
  {
    var ts: seq<Word> := [0, 8192];
    assert Gap(ts, 1) == 8192;
    WrapWitnesses();
    hide WrapSigned;
    assert Track(ts, 1) == Track(ts, 0) + Rate(ts, 1) == -8192;
    assert ts[..2] == ts;
    hide Track, Rate;
    ExactTimestamps(ts);
  }

  /** A gap that grows by 2^31: the change comes back negative. */
  lemma LaterChangeIsCut()
    ensures DecodedTimestamp([0, 0, 0x8000_0000], 2) == TWO_64 - 0x8000_0000
  {
    hide Track;
    var ts: seq<Word> := [0, 0, 0x8000_0000];
    ChangedTrack();
    assert ts[..3] == ts;
    ExactTimestamps(ts);
  }

  lemma ChangedTrack()
    ensures Track([0, 0, 0x8000_0000], 2) == -0x8000_0000
  {
    hide WrapSigned;
    var ts: seq<Word> := [0, 0, 0x8000_0000];
    WrapWitnesses();
    assert Gap(ts, 1) == 0 && Change(ts, 2) == 0x8000_0000;
    assert Rate(ts, 1) == 0 && Rate(ts, 2) == -0x8000_0000;
    assert Track(ts, 0) == Track(ts, 1) == 0;
  }

  lemma WrapWitnesses()
    ensures WrapSigned(0, 14) == 0 && WrapSigned(8192, 14) == -8192
    ensures WrapSigned(0x8000_0000, 32) == -0x8000_0000
  {
    Pow2Widths();
  }

  lemma {:induction false} InRangeTracks(ts: seq<Word>, i: nat)
    requires InRange(ts) && i < |ts|
    ensures Unsigned64(Track(ts, i)) == ts[i]
    ensures i >= 1 ==> Signed64(Rate(ts, i)) == Gap(ts, i)
  {
    hide Signed64, Unsigned64, WrapSigned;
    if i == 0 {
      UnsignedWord(ts[0]);
    } else {
      InRangeTracks(ts, i - 1);
      Pow2Widths();
      var gap := Gap(ts, i);
      if i == 1 {
        WrapSignedIdentity(gap, 14);
        SignedLong(gap);
      } else {
        WrapSignedIdentity(Change(ts, i), 32);
        SignedSum(Rate(ts, i - 1), Change(ts, i));
        SignedSplit(gap, Gap(ts, i - 1));
      }
      TrackForward(Track(ts, i - 1), Rate(ts, i), ts[i - 1], ts[i]);
    }
  }

  lemma TrackingIsInRange(ts: seq<Word>)
    requires forall i :: 0 <= i < |ts| ==> Unsigned64(Track(ts, i)) == ts[i]
    ensures InRange(ts)
  {
    hide Signed64, Unsigned64, WrapSigned, Track, Rate;
    if |ts| >= 2 {
      TrackStep(ts, 1);
      FirstGapInRange(ts);
    }
    forall i | 2 <= i < |ts|
      ensures -0x8000_0000 <= Change(ts, i) < 0x8000_0000
    {
      TrackStep(ts, i - 1);
      TrackStep(ts, i);
      ChangeInRange(ts, i);
    }
  }

  lemma FirstGapInRange(ts: seq<Word>)
    requires |ts| >= 2 && Signed64(Rate(ts, 1)) == Gap(ts, 1)
    ensures -8192 <= Gap(ts, 1) < 8192
  {
    hide Signed64, WrapSigned;
    Pow2Widths();
    SignedLong(WrapSigned(Gap(ts, 1), 14));
    WrapSignedIdentity(Gap(ts, 1), 14);
  }

  lemma ChangeInRange(ts: seq<Word>, i: nat)
    requires 2 <= i < |ts|
    requires Signed64(Rate(ts, i - 1)) == Gap(ts, i - 1) && Signed64(Rate(ts, i)) == Gap(ts, i)
    ensures -0x8000_0000 <= Change(ts, i) < 0x8000_0000
  {
    hide Signed64, WrapSigned;
    Pow2Widths();
    var c := WrapSigned(Change(ts, i), 32);
    assert Rate(ts, i) == Rate(ts, i - 1) + c;
    hide Rate;
    SignedCancel(Rate(ts, i - 1), c);
    SignedLong(c);
    WrapSignedIdentity(Change(ts, i), 32);
  }

  lemma TrackStep(ts: seq<Word>, i: nat)
    requires 1 <= i < |ts|
    requires Unsigned64(Track(ts, i - 1)) == ts[i - 1] && Unsigned64(Track(ts, i)) == ts[i]
    ensures Signed64(Rate(ts, i)) == Gap(ts, i)
  {
    hide Signed64, Unsigned64, WrapSigned, Rate;
    assert Track(ts, i) == Track(ts, i - 1) + Rate(ts, i);
    TrackBackward(Track(ts, i - 1), Rate(ts, i));
  }

  // ---------------------------------------------------------------------------
  // Arithmetic modulo 2^64
  // ---------------------------------------------------------------------------

  lemma SignedLong(x: Long)
    ensures Signed64(x) == x
  {
  }

  /** Signed and unsigned wrap-around differ from their argument by a multiple of 2^64. */
  lemma WrapWitness(x: int) returns (k: int, j: int)
    ensures Unsigned64(x) == x + k * TWO_64 && Signed64(x) == x + j * TWO_64
  {
    k := -(x / TWO_64);
    j := if Signed64(x) < 0 then k - 1 else k;
  }

  lemma SameUnsigned(x: int, y: int, k: int)
    requires x == y + k * TWO_64
    ensures Unsigned64(x) == Unsigned64(y) && Signed64(x) == Signed64(y)
  {
    DivUnique(x, TWO_64, y / TWO_64 + k, y % TWO_64);
  }

  lemma SignedSum(x: int, y: int)
    ensures Signed64(Signed64(x) + y) == Signed64(x + y)
  {
    hide Signed64, Unsigned64;
    var k, j := WrapWitness(x);
    SameUnsigned(Signed64(x) + y, x + y, j);
  }

  lemma UnsignedSum(x: int, y: int)
    ensures Unsigned64(Unsigned64(x) + y) == Unsigned64(x + y)
  {
    hide Signed64, Unsigned64;
    var k, j := WrapWitness(x);
    SameUnsigned(Unsigned64(x) + y, x + y, k);
  }

  lemma UnsignedSignedSum(x: int, y: int)
    ensures Unsigned64(Unsigned64(x) + Signed64(y)) == Unsigned64(x + y)
  {
    hide Signed64, Unsigned64;
    var k, _ := WrapWitness(x);
    var _, j := WrapWitness(y);
    SameUnsigned(Unsigned64(x) + Signed64(y), x + y, k + j);
  }

  /** A long is the sum of another and their wrapped difference. */
  lemma SignedSplit(x: Long, y: Long)
    ensures Signed64(y + Signed64(x - y)) == x
  {
    hide Signed64, Unsigned64;
    var _, j := WrapWitness(x - y);
    SameUnsigned(y + Signed64(x - y), x, j);
    SignedLong(x);
  }

  lemma SignedCancel(r: int, c: Long)
    ensures Signed64(Signed64(r + c) - Signed64(r)) == Signed64(c)
  {
    hide Signed64, Unsigned64;
    var _, j := WrapWitness(r + c);
    var _, k := WrapWitness(r);
    SameUnsigned(Signed64(r + c) - Signed64(r), c, j - k);
  }

  lemma TrackForward(t: int, r: int, from: Word, to: Word)
    requires Unsigned64(t) == from && Signed64(r) == Signed64(to as int - from as int)
    ensures Unsigned64(t + r) == to
  {
    hide Signed64, Unsigned64;
    var k, _ := WrapWitness(t);
    var _, j := WrapWitness(r);
    var _, i := WrapWitness(to as int - from as int);
    SameUnsigned(t + r, to, i - j - k);
    UnsignedWord(to);
  }

  lemma TrackBackward(t: int, r: int)
    ensures Signed64(Unsigned64(t + r) as int - Unsigned64(t) as int) == Signed64(r)
  {
    hide Signed64, Unsigned64;
    var k, _ := WrapWitness(t + r);
    var j, _ := WrapWitness(t);
    SameUnsigned(Unsigned64(t + r) as int - Unsigned64(t) as int, r, k - j);
  }

  // ---------------------------------------------------------------------------
  // The coder objects
  // ---------------------------------------------------------------------------

  class TimestampEncoder {
    const bw: BitWriter
    var prevTimestamp: Word
    var prevDelta: Long
    var isFirst: bool
    var isSecond: bool

    ghost function State(): TsState
      reads this
    {
      TsState(prevTimestamp, prevDelta, isFirst, isSecond)
    }

    constructor (bw: BitWriter)
      ensures this.bw == bw && State() == INIT
    {
      this.bw := bw;
      prevTimestamp := 0;
      prevDelta := 0;
      isFirst := true;
      isSecond := false;
    }

    /** Append one timestamp to the shared bit stream. */
    method Write(timestamp: Word)
      requires bw.Valid()
      modifies this, bw.Repr()
      ensures bw.Valid()
      ensures bw.buffer.data == old(bw.buffer.data) || fresh(bw.buffer.data)
      ensures State() == Encoded(old(State()), timestamp)
      ensures bw.Written() == old(bw.Written()) + EncodedBits(old(State()), timestamp)
    {
      hide DeltaBits, Signed64, Field, Masked, TopBits, BytesBits;
      if isFirst {
        bw.Write(timestamp, 64);
        prevTimestamp := timestamp;
        isFirst := false;
        isSecond := true;
        return;
      }
      var delta := Signed64(timestamp - prevTimestamp);
      if isSecond {
        bw.Write(Masked(delta, 14), 14);
        prevTimestamp := timestamp;
        prevDelta := delta;
        isSecond := false;
        return;
      }
      var d := Signed64(delta - prevDelta);
      WriteDelta(d);
      prevTimestamp := timestamp;
      prevDelta := delta;
    }

    method WriteDelta(d: Long)
      requires bw.Valid()
      modifies bw.Repr()
      ensures bw.Valid()
      ensures bw.buffer.data == old(bw.buffer.data) || fresh(bw.buffer.data)
      ensures bw.Written() == old(bw.Written()) + DeltaBits(d)
    {
      if d == 0 {
        bw.Write(0, 1);
      } else if d >= -64 && d <= 63 {
        WritePair(0x02, 2, Masked(d, 7), 7);
      } else if d >= -256 && d <= 255 {
        WritePair(0x06, 3, Masked(d, 9), 9);
      } else if d >= -2048 && d <= 2047 {
        WritePair(0x0E, 4, Masked(d, 12), 12);
      } else {
        WritePair(0x0F, 4, Masked(d, 32), 32);
      }
    }

    /** A prefix code followed by a field. */
    method WritePair(prefix: Word, prefixBits: nat, value: Word, bits: nat)
      requires bw.Valid() && prefixBits <= 64 && bits <= 64
      modifies bw.Repr()
      ensures bw.Valid()
      ensures bw.buffer.data == old(bw.buffer.data) || fresh(bw.buffer.data)
      ensures bw.Written() == old(bw.Written()) + (Field(prefix, prefixBits) + Field(value, bits))
    {
      hide Field, BytesBits, TopBits, BitWriter.Written;
      Associate(bw.Written(), Field(prefix, prefixBits), Field(value, bits));
      bw.Write(prefix, prefixBits);
      bw.Write(value, bits);
    }
  }

  class TimestampDecoder {
    const br: BitReader
    var prevTimestamp: Word
    var prevDelta: Long
    var isFirst: bool
    var isSecond: bool

    ghost function State(): TsState
      reads this
    {
      TsState(prevTimestamp, prevDelta, isFirst, isSecond)
    }

    constructor (br: BitReader)
      ensures this.br == br && State() == INIT
    {
      this.br := br;
      prevTimestamp := 0;
      prevDelta := 0;
      isFirst := true;
      isSecond := false;
    }

    /** Take the next timestamp off the shared bit stream. */
    method Read() returns (timestamp: Word)
      requires br.Valid()
      modifies this, br
      ensures br.Valid()
      ensures (State(), br.Rest()) == Decoded(old(State()), old(br.Rest()))
      ensures timestamp == State().prevTimestamp
    {
      hide ReadDelta, ReadSigned, Signed64, Unsigned64, ReadValue, ReadRest, BytesBits, SignExtend, BitReader.Rest;
      if isFirst {
        timestamp := br.Read(64);
        assert timestamp == ReadWord(old(br.Rest()));
        prevTimestamp := timestamp;
        isFirst := false;
        isSecond := true;
        return;
      }
      if isSecond {
        var delta := ReadField(14);
        timestamp := Move(delta);
        return;
      }
      var d := ReadDeltaField();
      timestamp := Move(Signed64(prevDelta + d));
    }

    /** Step from the previous timestamp by `delta`. */
    method Move(delta: Long) returns (timestamp: Word)
      modifies `prevTimestamp, `prevDelta, `isSecond
      ensures State() == Advance(old(State()), delta).(isFirst := isFirst)
      ensures timestamp == prevTimestamp
    {
      timestamp := Unsigned64(prevTimestamp + delta);
      prevTimestamp := timestamp;
      prevDelta := delta;
      isSecond := false;
    }

    method ReadField(bits: nat) returns (d: Long)
      requires br.Valid() && 0 < bits <= 32
      modifies br
      ensures br.Valid()
      ensures (d, br.Rest()) == ReadSigned(old(br.Rest()), bits)
    {
      ReadBound(br.Rest(), bits);
      var field := br.Read(bits);
      d := SignExtend(field, bits);
    }

    /** The prefix code, bit by bit, then the field it announces. A zero delta of
        deltas leaves the previous delta in force. */
    method ReadDeltaField() returns (d: Long)
      requires br.Valid()
      modifies br
      ensures br.Valid()
      ensures (d, br.Rest()) == ReadDelta(old(br.Rest()))
    {
      var bit0 := br.Read(1);
      if bit0 == 0 {
        return 0;
      }
      var bit1 := br.Read(1);
      if bit1 == 0 {
        d := ReadField(7);
      } else {
        var bit2 := br.Read(1);
        if bit2 == 0 {
          d := ReadField(9);
        } else {
          var bit3 := br.Read(1);
          if bit3 == 0 {
            d := ReadField(12);
          } else {
            d := ReadField(32);
          }
        }
      }
    }
  }
}
