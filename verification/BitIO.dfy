/** The growing byte buffer, the bit writer and the bit reader (src/bit_io.c). */
module BitIO {
  import opened Words
  import opened Bits

  class ByteBuffer {
    var data: array<Byte>
    var size: nat
    var capacity: nat

    ghost predicate Valid()
      reads this
    {
      && data.Length == capacity
      && size <= capacity
      && 0 < capacity
    }

    ghost function Contents(): seq<Byte>
      reads this, data
      requires Valid()
    {
      data[..size]
    }

    constructor ()
      ensures Valid() && fresh(data) && capacity == 64
      ensures Contents() == []
    {
      capacity := 64;
      size := 0;
      data := new Byte[64](_ => 0);
    }

    /** The buffer a chunk's payload is read into. */
    constructor FromPayload(payload: seq<Byte>)
      ensures Valid() && fresh(data)
      ensures Contents() == payload
    {
      capacity := |payload| + 1;
      size := |payload|;
      data := new Byte[|payload| + 1](i => if 0 <= i < |payload| then payload[i] else 0);
      new;
      assert data[..size] == payload;
    }

    /** Append one byte, doubling the storage when it is full. */
    method Append(byte: Byte)
      requires Valid()
      modifies this, data
      ensures Valid()
      ensures data == old(data) || fresh(data)
      ensures Contents() == old(Contents()) + [byte]
      ensures capacity == if old(size == capacity) then 2 * old(capacity) else old(capacity)
    {
      if size >= capacity {
        var larger := new Byte[2 * capacity](_ => 0);
        forall i | 0 <= i < size {
          larger[i] := data[i];
        }
        assert larger[..size] == data[..size];
        capacity := 2 * capacity;
        data := larger;
      }
      data[size] := byte;
      size := size + 1;
      assert data[..size - 1] == old(data[..size]);
      assert data[..size] == data[..size - 1] + [byte];
    }
  }

  // ---------------------------------------------------------------------------
  // Writing
  // ---------------------------------------------------------------------------

  /** The `filled` bits already placed at the top of an unfinished byte. */
  ghost function TopBits(byte: Byte, filled: nat): Bits
    requires filled <= 8
  {
    Field(byte, 8)[..filled]
  }

  /** The bits below the filled ones are still zero. */
  ghost predicate LowBitsClear(byte: Byte, filled: nat)
    requires filled <= 8
  {
    Low(byte, 8 - filled) == 0
  }

  /** Packing `take` bits below the filled ones extends the byte's bits by them. */
  lemma PackBits(byte: Byte, filled: nat, chunk: nat, take: nat)
    requires filled + take <= 8 && LowBitsClear(byte, filled)
    requires chunk < Pow2(take)
    ensures var packed := Or(byte, Shl(chunk, 8 - filled - take));
            packed < 256 && LowBitsClear(packed, filled + take) &&
            TopBits(packed, filled + take) == TopBits(byte, filled) + Field(chunk, take)
  {
    var low := 8 - filled - take;
    var h := Shr(byte, 8 - filled);
    var top := Shl(h, take) + chunk;
    PackValue(byte, filled, chunk, take);
    hide Or, Shl, Shr, Low, Field, Pow2, TopBits, LowBitsClear;
    PackedTop(top, low, filled + take);
    TopField(byte, filled);
    FieldOfSum(h, filled, chunk, take);
  }

  /** A byte that holds `top` above `low` clear bits. */
  lemma PackedTop(top: nat, low: nat, filled: nat)
    requires filled + low == 8 && Shl(top, low) < 256
    ensures LowBitsClear(Shl(top, low), filled) && TopBits(Shl(top, low), filled) == Field(top, filled)
  {
    hide Shl, Shr, Low, Field, Pow2, TopBits;
    Pow2IsPositive(low);
    ShiftedSum(top, 0, low);
    TopField(Shl(top, low), filled);
  }

  lemma FieldOfSum(h: nat, filled: nat, chunk: nat, take: nat)
    requires chunk < Pow2(take)
    ensures Field(Shl(h, take) + chunk, filled + take) == Field(h, filled) + Field(chunk, take)
  {
    hide Shl, Shr, Low, Field, Pow2;
    FieldSplit(Shl(h, take) + chunk, filled, take);
    ShiftedSum(h, chunk, take);
    FieldShifted(h, chunk, take);
  }

  lemma TopField(byte: Byte, filled: nat)
    requires filled <= 8
    ensures TopBits(byte, filled) == Field(Shr(byte, 8 - filled), filled)
  {
    hide Field, Shr;
    ByteSlice(byte, 0, filled);
  }

  lemma Pow2IsPositive(n: nat)
    ensures 0 < Pow2(n)
  {
  }

  /** What one turn of the writer's loop does to the bits written. */
  lemma WritePart(bytes: seq<Byte>, byte: Byte, filled: nat, value: Word, n: nat, take: nat)
    requires filled + take <= 8 && take <= n && LowBitsClear(byte, filled)
    ensures var packed := Or(byte, Shl(Low(Shr(value, n - take), take), 8 - filled - take));
            && packed < 256
            && LowBitsClear(packed, filled + take)
            && BytesBits(bytes) + TopBits(packed, filled + take) + Field(value, n - take)
               == BytesBits(bytes) + TopBits(byte, filled) + Field(value, n)
  {
    hide BytesBits, Field, TopBits, Or, Shl, Low, Shr, LowBitsClear, Pow2;
    var chunk := Low(Shr(value, n - take), take);
    PackBits(byte, filled, chunk, take);
    FieldSplit(value, take, n - take);
    FieldLow(Shr(value, n - take), take);
  }

  lemma WholeByte(byte: nat)
    ensures byte < 256 ==> TopBits(byte, 8) == Field(byte, 8)
  {
    assert Field(byte, 8)[..8] == Field(byte, 8);
  }

  /** The packed byte, as a number. */
  lemma PackValue(byte: Byte, filled: nat, chunk: nat, take: nat)
    requires filled + take <= 8 && LowBitsClear(byte, filled)
    requires chunk < Pow2(take)
    ensures var low := 8 - filled - take;
            var top := Shl(Shr(byte, 8 - filled), take) + chunk;
            Or(byte, Shl(chunk, low)) == Shl(top, low) < 256
  {
    hide Or, Shl, Shr, Low, Pow2, LowBitsClear;
    var low := 8 - filled - take;
    var h := Shr(byte, 8 - filled);
    HighPart(byte, filled);
    OrShifted(h, chunk, take, low);
    TopBound(byte, filled);
    PackedBound(h, filled, chunk, take);
  }

  lemma HighPart(byte: Byte, filled: nat)
    requires filled <= 8 && LowBitsClear(byte, filled)
    ensures byte == Shl(Shr(byte, 8 - filled), 8 - filled)
  {
    hide Shl, Shr, Low;
    ShiftSplit(byte, 8 - filled);
  }

  lemma TopBound(byte: Byte, filled: nat)
    requires filled <= 8
    ensures Shr(byte, 8 - filled) < Pow2(filled)
  {
    hide Shr, Pow2;
    Pow2Small();
    ShrBound(byte, filled, 8 - filled);
  }

  lemma PackedBound(h: nat, filled: nat, chunk: nat, take: nat)
    requires filled + take <= 8 && h < Pow2(filled) && chunk < Pow2(take)
    ensures Shl(Shl(h, take) + chunk, 8 - filled - take) < 256
  {
    hide Shl, Pow2;
    Pow2Small();
    SumBound(h, filled, chunk, take);
    ShlBound(Shl(h, take) + chunk, filled + take, 8 - filled - take);
  }

  lemma OrShifted(h: nat, chunk: nat, take: nat, low: nat)
    requires chunk < Pow2(take)
    ensures Or(Shl(h, take + low), Shl(chunk, low)) == Shl(Shl(h, take) + chunk, low)
  {
    ShlBound(chunk, take, low);
    OrDisjoint(h, Shl(chunk, low), take + low);
    ShlShl(h, take, low);
    ShlSum(Shl(h, take), chunk, low);
  }

  lemma {:induction false} SumBound(h: nat, a: nat, x: nat, k: nat)
    requires h < Pow2(a) && x < Pow2(k)
    ensures Shl(h, k) + x < Pow2(a + k)
  {
    if k > 0 {
      SumBound(h, a, x / 2, k - 1);
    }
  }

  /** How many zero bits complete an unfinished byte. */
  function Padding(filled: nat): nat
    requires filled < 8
  {
    if filled == 0 then 0 else 8 - filled
  }

  class BitWriter {
    const buffer: ByteBuffer
    var currentByte: Byte
    var filledBits: nat

    ghost function Repr(): set<object>
      reads this, buffer
    {
      {this, buffer, buffer.data}
    }

    ghost predicate Valid()
      reads this, buffer
    {
      && buffer.Valid()
      && filledBits < 8
      && LowBitsClear(currentByte, filledBits)
    }

    /** Every bit written so far, in order. */
    ghost function Written(): Bits
      reads this, buffer, buffer.data
      requires Valid()
    {
      BytesBits(buffer.Contents()) + TopBits(currentByte, filledBits)
    }

    constructor ()
      ensures Valid() && fresh(Repr())
      ensures Written() == []
    {
      buffer := new ByteBuffer();
      currentByte := 0;
      filledBits := 0;
    }

    /** Write the `bits` low bits of `value`, most significant first. */
    method Write(value: Word, bits: nat)
      requires Valid() && bits <= 64
      modifies Repr()
      ensures Valid()
      ensures buffer.data == old(buffer.data) || fresh(buffer.data)
      ensures Written() == old(Written()) + Field(value, bits)
    {
      var n := bits;
      while n > 0
        invariant 0 <= n <= bits
        invariant Valid()
        invariant buffer.data == old(buffer.data) || fresh(buffer.data)
        invariant Written() + Field(value, n) == old(Written()) + Field(value, bits)
      {
        n := WriteSome(value, n);
      }
      assert Written() + [] == Written();
    }

    /** One turn of the loop: as many bits as the current byte has room for. */
    method WriteSome(value: Word, n: nat) returns (left: nat)
      requires Valid() && n > 0
      modifies Repr()
      ensures Valid() && left < n
      ensures buffer.data == old(buffer.data) || fresh(buffer.data)
      ensures Written() + Field(value, left) == old(Written()) + Field(value, n)
    {
      hide Low, Shl, Shr, Or, Field, TopBits, BytesBits;
      var freeInByte := 8 - filledBits;
      var take := if n < freeInByte then n else freeInByte;
      var shift := n - take;
      var chunk := Low(Shr(value, shift), take);

      WritePart(buffer.Contents(), currentByte, filledBits, value, n, take);
      WholeByte(Or(currentByte, Shl(chunk, freeInByte - take)));
      currentByte := Or(currentByte, Shl(chunk, freeInByte - take));
      filledBits := filledBits + take;
      left := n - take;

      if filledBits == 8 {
        Flush();
      }
    }

    /** Hand the current byte over to the buffer. */
    method Flush()
      requires buffer.Valid() && filledBits <= 8
      modifies Repr()
      ensures Valid() && filledBits == 0
      ensures buffer.data == old(buffer.data) || fresh(buffer.data)
      ensures Written() == BytesBits(buffer.Contents())
      ensures Written() == old(BytesBits(buffer.Contents())) + Field(old(currentByte), 8)
    {
      BytesBitsAppend(buffer.Contents(), currentByte);
      buffer.Append(currentByte);
      currentByte := 0;
      filledBits := 0;
      LowOfSmall(0, 8);
    }

    /** Pad the last byte with zero bits. */
    method Close()
      requires Valid()
      modifies Repr()
      ensures Valid() && filledBits == 0
      ensures buffer.data == old(buffer.data) || fresh(buffer.data)
      ensures Written() == BytesBits(buffer.Contents())
      ensures Written() == old(Written()) + Field(0, Padding(old(filledBits)))
    {
      hide BytesBits, TopBits, Field, LowBitsClear;
      ghost var before := BytesBits(buffer.Contents());
      if filledBits > 0 {
        PadByte(currentByte, filledBits);
        Flush();
        assert before + Field(old(currentByte), 8) == old(Written()) + Field(0, Padding(old(filledBits)));
      } else {
        NoTopBits(currentByte);
        assert before + [] == before;
      }
    }
  }

  lemma NoTopBits(byte: Byte)
    ensures TopBits(byte, 0) == [] && Field(0, Padding(0)) == []
  {
  }

  lemma PadByte(byte: Byte, filled: nat)
    requires filled <= 8 && LowBitsClear(byte, filled)
    ensures Field(byte, 8) == TopBits(byte, filled) + Field(0, 8 - filled)
  {
    FieldSplit(byte, filled, 8 - filled);
    FieldLow(byte, 8 - filled);
  }

  // ---------------------------------------------------------------------------
  // Reading
  // ---------------------------------------------------------------------------

  class BitReader {
    const buffer: ByteBuffer
    var byteOffset: nat
    var bitsConsumed: nat

    ghost predicate Valid()
      reads this, buffer, buffer.data
    {
      && buffer.Valid()
      && bitsConsumed < 8
      && byteOffset <= buffer.size
      && (byteOffset == buffer.size ==> bitsConsumed == 0)
    }

    /** The bits not read yet. */
    ghost function Rest(): Bits
      reads this, buffer, buffer.data
      requires Valid()
    {
      BytesBits(buffer.Contents())[8 * byteOffset + bitsConsumed..]
    }

    constructor (buffer: ByteBuffer)
      requires buffer.Valid()
      ensures this.buffer == buffer && Valid()
      ensures Rest() == BytesBits(buffer.Contents())
    {
      this.buffer := buffer;
      byteOffset := 0;
      bitsConsumed := 0;
    }

    /** Read `bits` bits; past the end of the buffer, the bits that are left. */
    method Read(bits: nat) returns (result: Word)
      requires Valid() && bits <= 64
      modifies this
      ensures Valid()
      ensures result == ReadValue(old(Rest()), bits)
      ensures Rest() == ReadRest(old(Rest()), bits)
      ensures result < Pow2(bits)
    {
      hide ReadValue, ReadRest, BytesBits, Pow2;
      result := 0;
      var n := bits;
      ghost var all := Rest();
      ghost var got: Bits := [];
      assert ValueOf(got) == 0;
      hide ValueOf;
      while n > 0
        invariant 0 <= n <= bits
        invariant Valid()
        invariant |got| == bits - n
        invariant all == got + Rest()
        invariant result == ValueOf(got)
      {
        if byteOffset >= buffer.size {
          break;
        }
        result, n, got := ReadSome(result, n, got);
      }
      ReadAll(all, got, Rest(), bits);
    }

    /** One turn of the loop: as many bits as the current byte still holds. */
    method ReadSome(result: Word, n: nat, ghost got: Bits) returns (result': Word, left: nat, ghost got': Bits)
      requires Valid() && n > 0 && byteOffset < buffer.size
      requires |got| + n <= 64 && result == ValueOf(got)
      modifies this
      ensures Valid()
      ensures left < n && |got'| == |got| + n - left
      ensures got' + Rest() == got + old(Rest())
      ensures result' == ValueOf(got')
    {
      hide BytesBits, ValueOf, Field, Or, Shl, Shr, Low, Pow2;
      var available := 8 - bitsConsumed;
      var take := if n < available then n else available;
      var current := buffer.data[byteOffset];
      var chunk := Low(Shr(current, available - take), take);

      ghost var next := Field(chunk, take);
      got' := got + next;
      NextBits(buffer.Contents(), byteOffset, bitsConsumed, take);
      ExtendValue(got, chunk, take);
      result' := Or(Unsigned64(Shl(result, take)), chunk);

      bitsConsumed := bitsConsumed + take;
      left := n - take;
      if bitsConsumed == 8 {
        bitsConsumed := 0;
        byteOffset := byteOffset + 1;
      }
      assert got + (next + Rest()) == got' + Rest();
    }
  }

  lemma ReadAll(all: Bits, got: Bits, rest: Bits, bits: nat)
    requires all == got + rest && |got| <= bits && (rest == [] || |got| == bits)
    ensures ReadValue(all, bits) == ValueOf(got) < Pow2(bits)
    ensures ReadRest(all, bits) == rest
  {
    assert all[..|got|] == got;
    ValueOfBound(got);
    Pow2Monotone(|got|, bits);
  }

  /** The next bits of a byte string, taken from the byte they start in. */
  lemma NextBits(s: seq<Byte>, byteOffset: nat, consumed: nat, take: nat)
    requires byteOffset < |s| && consumed + take <= 8
    ensures var pos := 8 * byteOffset + consumed;
            var chunk := Low(Shr(s[byteOffset], 8 - consumed - take), take);
            BytesBits(s)[pos..] == Field(chunk, take) + BytesBits(s)[pos + take..]
  {
    hide BytesBits, Field, Shr, Low;
    var pos := 8 * byteOffset + consumed;
    BytesBitsAt(s, byteOffset);
    ByteSlice(s[byteOffset], consumed, take);
    FieldLow(Shr(s[byteOffset], 8 - consumed - take), take);
    var b := BytesBits(s);
    assert b[pos..pos + take] == b[8 * byteOffset..8 * byteOffset + 8][consumed..consumed + take];
    assert b[pos..] == b[pos..pos + take] + b[pos + take..];
  }

  lemma ExtendValue(got: Bits, chunk: nat, take: nat)
    requires |got| + take <= 64 && chunk < Pow2(take)
    ensures Or(Unsigned64(Shl(ValueOf(got), take)), chunk) == ValueOf(got + Field(chunk, take)) < TWO_64
  {
    var next := Field(chunk, take);
    ValueOfField(chunk, take);
    LowOfSmall(chunk, take);
    ValueOfConcat(got, next);
    FitsWord(got + next);
    OrInWord(ValueOf(got), chunk, take);
  }

  lemma OrInWord(high: nat, chunk: nat, take: nat)
    requires chunk < Pow2(take) && Shl(high, take) + chunk < TWO_64
    ensures Or(Unsigned64(Shl(high, take)), chunk) == Shl(high, take) + chunk
  {
    hide Shl, Or, Unsigned64;
    OrDisjoint(high, chunk, take);
    UnsignedWord(Shl(high, take));
  }
}
