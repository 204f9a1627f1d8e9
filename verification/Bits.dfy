/** Bit strings, most significant bit first: the abstract view of what the bit
    writer has written and of what the bit reader has still to read. */
module Bits {
  import opened Words

  type Bits = seq<bool>

  /** The `width` low bits of `value`. */
  function Field(value: nat, width: nat): (b: Bits)
    ensures |b| == width
  {
    if width == 0 then [] else Field(value / 2, width - 1) + [value % 2 == 1]
  }

  /** The number a bit string spells. */
  function ValueOf(b: Bits): nat {
    if b == [] then 0 else 2 * ValueOf(b[..|b| - 1]) + (if b[|b| - 1] then 1 else 0)
  }

  lemma {:induction false} ValueOfBound(b: Bits)
    ensures ValueOf(b) < Pow2(|b|)
  {
    if b != [] {
      ValueOfBound(b[..|b| - 1]);
    }
  }

  lemma {:induction false} ValueOfField(value: nat, width: nat)
    ensures ValueOf(Field(value, width)) == Low(value, width)
  {
    if width > 0 {
      var b := Field(value, width);
      assert b[..width - 1] == Field(value / 2, width - 1);
      ValueOfField(value / 2, width - 1);
    }
  }

  lemma {:induction false} ValueOfConcat(a: Bits, b: Bits)
    ensures ValueOf(a + b) == Shl(ValueOf(a), |b|) + ValueOf(b)
  {
    if b == [] {
      assert a + b == a;
    } else {
      var b' := b[..|b| - 1];
      assert (a + b)[..|a + b| - 1] == a + b';
      ValueOfConcat(a, b');
    }
  }

  /** A field splits into its high part and its low part. */
  lemma {:induction false} FieldSplit(value: nat, high: nat, low: nat)
    ensures Field(value, high + low) == Field(Shr(value, low), high) + Field(value, low)
  {
    if low == 0 {
      assert Field(value, 0) == [];
    } else {
      FieldSplit(value / 2, high, low - 1);
      var last := [value % 2 == 1];
      var h := Shr(value, low);
      calc {
        Field(value, high + low);
        Field(value / 2, high + (low - 1)) + last;
        (Field(h, high) + Field(value / 2, low - 1)) + last;
        Field(h, high) + (Field(value / 2, low - 1) + last);
        Field(h, high) + Field(value, low);
      }
    }
  }

  /** Only the low bits of a number matter to a field. */
  lemma {:induction false} FieldShifted(high: nat, value: nat, width: nat)
    requires value < Pow2(width)
    ensures Field(Shl(high, width) + value, width) == Field(value, width)
  {
    if width > 0 {
      assert (Shl(high, width) + value) / 2 == Shl(high, width - 1) + value / 2;
      FieldShifted(high, value / 2, width - 1);
    }
  }

  lemma {:induction false} FieldLow(value: nat, width: nat)
    ensures Field(Low(value, width), width) == Field(value, width)
  {
    ShiftSplit(value, width);
    FieldShifted(Shr(value, width), Low(value, width), width);
  }

  // ---------------------------------------------------------------------------
  // Reading: a read past the end delivers the bits that are left
  // ---------------------------------------------------------------------------

  function Min(a: int, b: int): int {
    if a < b then a else b
  }

  /** The number read from the front of `b` by asking for `n` bits. */
  function ReadValue(b: Bits, n: nat): nat {
    ValueOf(b[..Min(n, |b|)])
  }

  /** What is left of `b` after asking for `n` bits. */
  function ReadRest(b: Bits, n: nat): Bits {
    b[Min(n, |b|)..]
  }

  lemma ReadValueBound(b: Bits, n: nat)
    ensures ReadValue(b, n) < Pow2(n)
  {
    var got := b[..Min(n, |b|)];
    ValueOfBound(got);
    Pow2Monotone(|got|, n);
  }

  /** Reading a field back gives the low bits of its value, and the tail. */
  lemma ReadField(value: nat, width: nat, rest: Bits)
    ensures ReadValue(Field(value, width) + rest, width) == Low(value, width)
    ensures ReadRest(Field(value, width) + rest, width) == rest
  {
    var b := Field(value, width) + rest;
    assert b[..width] == Field(value, width);
    assert b[width..] == rest;
    ValueOfField(value, width);
  }

  /** Past the end a read delivers the bits that are left, as if no more had been asked
      for. */
  lemma ReadPastEnd(value: nat, width: nat, more: nat)
    ensures ReadValue(Field(value, width), width + more) == Low(value, width)
    ensures ReadRest(Field(value, width), width + more) == []
  {
    var b := Field(value, width);
    assert b[..width] == b;
    ValueOfField(value, width);
  }

  lemma FitsWord(b: Bits)
    requires |b| <= 64
    ensures ValueOf(b) < TWO_64
  {
    ValueOfBound(b);
    Pow2Monotone(|b|, 64);
    assert Pow2(64) == TWO_64 by { Pow2Widths(); }
  }

  /** A whole word off the front of `b`. */
  function ReadWord(b: Bits): Word {
    FitsWord(b[..Min(64, |b|)]);
    ReadValue(b, 64)
  }

  lemma ReadBackWord(w: Word, rest: Bits)
    ensures ReadWord(Field(w, 64) + rest) == w && ReadRest(Field(w, 64) + rest, 64) == rest
  {
    ReadField(w, 64, rest);
    assert Pow2(64) == TWO_64 by { Pow2Widths(); }
    LowOfSmall(w, 64);
  }

  lemma ReadBit(bit: bool, rest: Bits)
    ensures ReadValue([bit] + rest, 1) == (if bit then 1 else 0)
    ensures ReadRest([bit] + rest, 1) == rest
  {
    var b := [bit] + rest;
    assert b[..1] == [bit];
    assert ValueOf([bit]) == 2 * ValueOf([bit][..0]) + (if bit then 1 else 0);
    assert b[1..] == rest;
  }

  /** The control codes of both coders, bit by bit. */
  lemma PrefixCodes()
    ensures Field(0, 1) == [false] && Field(0x02, 2) == [true, false] && Field(0x03, 2) == [true, true]
    ensures Field(0x06, 3) == [true, true, false]
    ensures Field(0x0E, 4) == [true, true, true, false] && Field(0x0F, 4) == [true, true, true, true]
  {
    assert Field(1, 1) == [true];
    assert Field(3, 2) == [true, true];
    assert Field(7, 3) == [true, true, true];
  }

  lemma Associate(a: Bits, b: Bits, c: Bits)
    ensures (a + b) + c == a + (b + c)
  {
  }

  /** One call of the bit writer: the low `width` bits of `value`. */
  datatype FieldWrite = FieldWrite(value: Word, width: nat)

  function WriteAll(writes: seq<FieldWrite>): Bits {
    if writes == [] then [] else Field(writes[0].value, writes[0].width) + WriteAll(writes[1..])
  }

  /** Read fields of the given widths one after the other. */
  function ReadAllFields(b: Bits, widths: seq<nat>): (seq<nat>, Bits) {
    if widths == [] then ([], b)
    else
      var (values, rest) := ReadAllFields(ReadRest(b, widths[0]), widths[1..]);
      ([ReadValue(b, widths[0])] + values, rest)
  }

  function Widths(writes: seq<FieldWrite>): seq<nat> {
    seq(|writes|, i requires 0 <= i < |writes| => writes[i].width)
  }

  /** Whatever was written, reading the same widths gives each value modulo its
      width and leaves what follows the fields untouched. */
  lemma {:induction false} FieldsRoundTrip(writes: seq<FieldWrite>, tail: Bits)
    ensures var (values, rest) := ReadAllFields(WriteAll(writes) + tail, Widths(writes));
            && rest == tail
            && |values| == |writes|
            && forall i :: 0 <= i < |writes| ==> values[i] == writes[i].value % Pow2(writes[i].width)
  {
    hide Field, ReadValue, ReadRest, Low, Pow2;
    if writes != [] {
      var w := writes[0];
      var more := WriteAll(writes[1..]) + tail;
      assert WriteAll(writes) + tail == Field(w.value, w.width) + more;
      ReadField(w.value, w.width, more);
      LowIsRemainder(w.value, w.width);
      FieldsRoundTrip(writes[1..], tail);
      assert Widths(writes)[1..] == Widths(writes[1..]);
      var (values, rest) := ReadAllFields(more, Widths(writes[1..]));
      assert ReadAllFields(WriteAll(writes) + tail, Widths(writes)) == ([w.value % Pow2(w.width)] + values, rest);
    }
  }

  // ---------------------------------------------------------------------------
  // Bytes
  // ---------------------------------------------------------------------------

  function BytesBits(s: seq<Byte>): (b: Bits)
    ensures |b| == 8 * |s|
  {
    if s == [] then [] else BytesBits(s[..|s| - 1]) + Field(s[|s| - 1], 8)
  }

  lemma BytesBitsAppend(s: seq<Byte>, x: Byte)
    ensures BytesBits(s + [x]) == BytesBits(s) + Field(x, 8)
  {
    assert (s + [x])[..|s|] == s;
  }

  lemma {:induction false} BytesBitsAt(s: seq<Byte>, i: nat)
    requires i < |s|
    ensures BytesBits(s)[8 * i..8 * i + 8] == Field(s[i], 8)
  {
    if i < |s| - 1 {
      BytesBitsAt(s[..|s| - 1], i);
      assert BytesBits(s)[8 * i..8 * i + 8] == BytesBits(s[..|s| - 1])[8 * i..8 * i + 8];
    }
  }

  /** The first bit of a byte is its highest. */
  lemma HighBitFirst(s: seq<Byte>, i: nat)
    requires i < |s|
    ensures BytesBits(s)[8 * i] == (s[i] >= 128)
  {
    hide Field, BytesBits;
    BytesBitsAt(s, i);
    assert BytesBits(s)[8 * i..8 * i + 8][0] == BytesBits(s)[8 * i];
    FieldSplit(s[i], 1, 7);
    TopOfByte(s[i]);
  }

  lemma TopOfByte(x: Byte)
    ensures Field(Shr(x, 7), 1) == [x >= 128]
  {
    Pow2Small();
    TopBit(x, 8);
  }

  lemma FieldInjective(x: nat, y: nat, width: nat)
    requires x < Pow2(width) && y < Pow2(width)
    requires Field(x, width) == Field(y, width)
    ensures x == y
  {
    ValueOfField(x, width);
    ValueOfField(y, width);
    LowOfSmall(x, width);
    LowOfSmall(y, width);
  }

  /** Byte strings are determined by their bits. */
  lemma BytesBitsInjective(s: seq<Byte>, t: seq<Byte>)
    requires BytesBits(s) == BytesBits(t)
    ensures s == t
  {
    assert 8 * |s| == 8 * |t|;
    Pow2Small();
    forall i | 0 <= i < |s|
      ensures s[i] == t[i]
    {
      BytesBitsAt(s, i);
      BytesBitsAt(t, i);
      FieldInjective(s[i], t[i], 8);
    }
  }

  lemma {:induction false} FieldOfValue(b: Bits)
    ensures Field(ValueOf(b), |b|) == b
  {
    if b != [] {
      var b' := b[..|b| - 1];
      FieldOfValue(b');
      assert b == b' + [b[|b| - 1]];
    }
  }

  /** Whole bytes out of a bit string. */
  function PackWhole(b: Bits): seq<Byte>
    requires |b| % 8 == 0
  {
    if b == [] then []
    else
      var last := b[|b| - 8..];
      ValueOfBound(last);
      Pow2Small();
      PackWhole(b[..|b| - 8]) + [ValueOf(last)]
  }

  /** The number of zero bits that complete `n` bits to whole bytes. */
  function PadWidth(n: nat): (p: nat)
    ensures p < 8 && (n + p) % 8 == 0
  {
    (8 - n % 8) % 8
  }

  /** The bytes of a closed bit writer. */
  function Pack(b: Bits): seq<Byte> {
    PackWhole(b + Field(0, PadWidth(|b|)))
  }

  lemma {:induction false} BytesBitsPackWhole(b: Bits)
    requires |b| % 8 == 0
    ensures BytesBits(PackWhole(b)) == b
  {
    hide PackWhole, Field, ValueOf, BytesBits, Pow2;
    PackWholeStep(b);
    if b != [] {
      var front, last := b[..|b| - 8], b[|b| - 8..];
      BytesBitsPackWhole(front);
      FieldOfValue(last);
      BytesBitsAppend(PackWhole(front), ValueOf(last));
      assert b == front + last;
    } else {
      assert BytesBits([]) == [] by { NoBytes(); }
    }
  }

  lemma PackWholeStep(b: Bits)
    requires |b| % 8 == 0
    ensures b == [] ==> PackWhole(b) == []
    ensures b != [] ==>
              && ValueOf(b[|b| - 8..]) < 256
              && PackWhole(b) == PackWhole(b[..|b| - 8]) + [ValueOf(b[|b| - 8..])]
  {
    hide ValueOf;
    if b != [] {
      ValueOfBound(b[|b| - 8..]);
      Pow2Small();
    }
  }

  lemma NoBytes()
    ensures BytesBits([]) == []
  {
  }

  /** Packing keeps the bits, adds fewer than eight zeros, and takes as many bytes
      as the number of bits divided by eight, rounded up. */
  lemma PackedBits(b: Bits)
    ensures BytesBits(Pack(b)) == b + Field(0, PadWidth(|b|))
    ensures |Pack(b)| == (|b| + 7) / 8
  {
    BytesBitsPackWhole(b + Field(0, PadWidth(|b|)));
  }

  /** From any fill level: whatever is written behind `before`, closing the writer
      and reading the same widths from there gives each value modulo its width, and
      only the zero padding is left. */
  lemma ClosedRoundTrip(before: Bits, writes: seq<FieldWrite>)
    ensures var bits := before + WriteAll(writes);
            && |Pack(bits)| == (|bits| + 7) / 8
            && |before| <= |BytesBits(Pack(bits))|
            && var (values, rest) := ReadAllFields(BytesBits(Pack(bits))[|before|..], Widths(writes));
               && rest == Field(0, PadWidth(|bits|)) && |rest| < 8
               && |values| == |writes|
               && forall i :: 0 <= i < |writes| ==> values[i] == writes[i].value % Pow2(writes[i].width)
  {
    hide Pack, BytesBits, Field, WriteAll, ReadAllFields, Pow2;
    var bits := before + WriteAll(writes);
    var pad := Field(0, PadWidth(|bits|));
    PackedBits(bits);
    FieldsRoundTrip(writes, pad);
    assert (bits + pad)[|before|..] == WriteAll(writes) + pad;
  }

  /** `take` bits of a byte after its first `from` bits. */
  lemma ByteSlice(x: Byte, from: nat, take: nat)
    requires from + take <= 8
    ensures Field(x, 8)[from..from + take] == Field(Shr(x, 8 - from - take), take)
  {
    var low := 8 - from - take;
    FieldSplit(x, from + take, low);
    FieldSplit(Shr(x, low), from, take);
    assert Field(x, 8)[..from + take] == Field(Shr(x, low), from + take);
  }
}
