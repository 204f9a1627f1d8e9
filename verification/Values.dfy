/** The XOR value coder (src/value.c). A double is its 64-bit word. */
module Values {
  import opened Words
  import opened Bits
  import opened BitIO

  /** The fields an encoder and its decoder share. */
  datatype ValState = ValState(prevBits: Word, leading: nat, trailing: nat, isFirst: bool)

  const INIT := ValState(0, 0, 0, true)

  /** `valbits & 0xFFFFFFFFFFFFFFF0`: the word with its low four bits cleared. */
  function Mask(value: Word): Word {
    value - value % 16
  }

  /** A window never claims the whole word, and its leading count fits five bits. */
  ghost predicate WellFormed(s: ValState) {
    && s.leading <= 31
    && s.leading + s.trailing <= 63
  }

  /** What `valencoderwrite` keeps between calls: masked bits and a well-formed window. */
  ghost predicate Valid(s: ValState) {
    && WellFormed(s)
    && Mask(s.prevBits) == s.prevBits
  }

  // ---------------------------------------------------------------------------
  // One value on bit strings
  // ---------------------------------------------------------------------------

  function XorWord(a: Word, b: Word): Word {
    Pow2Widths();
    XorBound(a, b, 64);
    Xor(a, b)
  }

  /** Leading zeros, clamped to what five bits can say. */
  function Leading(x: Word): nat
    requires x > 0
  {
    if Clz(x) > 31 then 31 else Clz(x)
  }

  /** The previous window covers every one bit of `x`. */
  predicate Reuses(s: ValState, x: Word)
    requires x > 0
  {
    Leading(x) >= s.leading && Ctz(x) >= s.trailing
  }

  function EncodedBits(s: ValState, value: Word): Bits
    requires WellFormed(s)
  {
    var v := Mask(value);
    var x := XorWord(v, s.prevBits);
    if s.isFirst then Field(v, 64)
    else if x == 0 then Field(0, 1)
    else if Reuses(s, x) then Field(0x02, 2) + Field(Shr(x, s.trailing), 64 - s.leading - s.trailing)
    else
      WindowFits(x);
      var n := 64 - Leading(x) - Ctz(x);
      Field(0x03, 2) + Field(Leading(x), 5) + Field(n % 64, 6) + Field(Shr(x, Ctz(x)), n)
  }

  function Encoded(s: ValState, value: Word): (r: ValState)
    requires WellFormed(s)
    ensures WellFormed(r)
  {
    var v := Mask(value);
    var x := XorWord(v, s.prevBits);
    if s.isFirst then s.(prevBits := v, isFirst := false)
    else if x == 0 || Reuses(s, x) then s.(prevBits := v)
    else
      WindowFits(x);
      ValState(v, Leading(x), Ctz(x), false)
  }

  /** Leading and trailing zeros of a nonzero word leave at least one bit. */
  lemma WindowFits(x: Word)
    requires x > 0
    ensures Leading(x) <= 31 && Leading(x) + Ctz(x) <= 63
    ensures x < Pow2(64 - Leading(x))
    ensures Low(x, Ctz(x)) == 0
  {
    CtzIsClear(x);
    BitLengthBounds(x);
    Pow2Monotone(64 - Clz(x), 64 - Leading(x));
  }

  /** What the decoder reads after the two control bits of a new window. */
  datatype Window = Window(leading: nat, length: nat, rest: Bits)

  function ReadWindow(b: Bits): Window {
    var rest := ReadRest(b, 5);
    var n := ReadValue(rest, 6);
    Window(ReadValue(b, 5), if n == 0 then 64 else n, ReadRest(rest, 6))
  }

  lemma ReadWindowBound(b: Bits)
    ensures ReadWindow(b).leading <= 31 && 0 < ReadWindow(b).length <= 64
  {
    Pow2Small();
    ReadValueBound(b, 5);
    ReadValueBound(ReadRest(b, 5), 6);
  }

  predicate NewWindow(s: ValState, b: Bits) {
    !s.isFirst && ReadValue(b, 1) != 0 && ReadValue(ReadRest(b, 1), 1) != 0
  }

  /** A new window that the source can shift by: the trailing count is not negative. */
  predicate Readable(s: ValState, b: Bits) {
    NewWindow(s, b) ==>
      var w := ReadWindow(ReadRest(ReadRest(b, 1), 1));
      w.leading + w.length <= 64
  }

  /** `meaningful << trailing`, truncated to a word. */
  function ShiftUp(meaningful: nat, trailing: nat): Word {
    Unsigned64(Shl(meaningful, trailing))
  }

  function Decoded(s: ValState, b: Bits): (r: (ValState, Bits))
    requires WellFormed(s) && Readable(s, b)
    ensures WellFormed(r.0)
  {
    if s.isFirst then (s.(prevBits := Mask(ReadWord(b)), isFirst := false), ReadRest(b, 64))
    else
      var b1 := ReadRest(b, 1);
      var b2 := ReadRest(b1, 1);
      if ReadValue(b, 1) == 0 then (s, b1)
      else if ReadValue(b1, 1) == 0 then
        var n := 64 - s.leading - s.trailing;
        (s.(prevBits := XorWord(s.prevBits, ShiftUp(ReadValue(b2, n), s.trailing))), ReadRest(b2, n))
      else
        var w := ReadWindow(b2);
        ReadWindowBound(b2);
        var t := 64 - w.leading - w.length;
        (ValState(XorWord(s.prevBits, ShiftUp(ReadValue(w.rest, w.length), t)), w.leading, t, false),
         ReadRest(w.rest, w.length))
  }

  // ---------------------------------------------------------------------------
  // Reading back one value
  // ---------------------------------------------------------------------------

  lemma MaskedLow(v: Word)
    requires Mask(v) == v
    ensures Low(v, 4) == 0
  {
    LowIsRemainder(v, 4);
    Pow2Small();
  }

  /** The bits of `x` inside a window that covers it are enough to rebuild it. */
  lemma WindowRoundTrip(x: Word, leading: nat, trailing: nat, rest: Bits)
    requires leading + trailing <= 63 && x < Pow2(64 - leading) && Low(x, trailing) == 0
    ensures var n := 64 - leading - trailing;
            var b := Field(Shr(x, trailing), n) + rest;
            ShiftUp(ReadValue(b, n), trailing) == x && ReadRest(b, n) == rest
  {
    var n := 64 - leading - trailing;
    ReadField(Shr(x, trailing), n, rest);
    ShrBound(x, n, trailing);
    LowOfSmall(Shr(x, trailing), n);
    ShiftSplit(x, trailing);
  }

  /** A window that the previous one covers can be read with the previous one. */
  lemma ReusedWindow(s: ValState, x: Word, rest: Bits)
    requires WellFormed(s) && x > 0 && Reuses(s, x)
    ensures var n := 64 - s.leading - s.trailing;
            var b := Field(Shr(x, s.trailing), n) + rest;
            ShiftUp(ReadValue(b, n), s.trailing) == x && ReadRest(b, n) == rest
  {
    hide Field, ReadValue, ReadRest, ShiftUp, Shr, Low, Ctz, Leading, Pow2;
    WindowFits(x);
    Pow2Monotone(64 - Leading(x), 64 - s.leading);
    LowShorter(x, Ctz(x), s.trailing);
    WindowRoundTrip(x, s.leading, s.trailing, rest);
  }

  /** Masked words differ only above their low four bits, so a new window is at
      most 60 bits long: its length fits six bits and is never zero there, and
      the decoder's zero-means-64 escape is never needed. */
  lemma NewWindowLength(v: Word, w: Word)
    requires Mask(v) == v && Mask(w) == w && v != w
    ensures XorWord(v, w) > 0
    ensures var x := XorWord(v, w); 1 <= 64 - Leading(x) - Ctz(x) <= 60
  {
    XorZero(v, w);
    MaskedLow(v);
    MaskedLow(w);
    XorTrailing(v, w, 4);
    CtzAtLeast(Xor(v, w), 4);
    WindowFits(XorWord(v, w));
  }

  /** The header of a new window, read back; a length of 64 is written as zero. */
  lemma ReadHeader(leading: nat, n: nat, body: Bits)
    requires leading <= 31 && 0 < n <= 64
    ensures ReadWindow(Field(leading, 5) + (Field(n % 64, 6) + body)) == Window(leading, n, body)
  {
    hide Field, ReadValue, ReadRest, Low, Pow2;
    Pow2Small();
    var tail := Field(n % 64, 6) + body;
    ReadField(leading, 5, tail);
    LowOfSmall(leading, 5);
    ReadField(n % 64, 6, body);
    LowOfSmall(n % 64, 6);
  }

  /** The first value a decoder returns has its low four bits cleared, whatever it reads. */
  lemma FirstIsMasked(s: ValState, b: Bits)
    requires WellFormed(s) && s.isFirst && Readable(s, b)
    ensures Decoded(s, b).0.prevBits % 16 == 0
  {
    hide ReadWord;
  }

  /** From any valid state the encoder and the decoder share: one write then one
      read gives the masked value, takes exactly the bits written, and leaves both
      in the same valid state. */
  lemma StepRoundTrip(s: ValState, value: Word, rest: Bits)
    requires Valid(s)
    ensures Readable(s, EncodedBits(s, value) + rest)
    ensures Decoded(s, EncodedBits(s, value) + rest) == (Encoded(s, value), rest)
    ensures Valid(Encoded(s, value)) && Encoded(s, value).prevBits == Mask(value)
  {
    hide Field, ReadValue, ReadRest, ReadWord, ReadWindow, ShiftUp, Leading, Ctz, Shr, Xor;
    var v := Mask(value);
    assert Mask(v) == v;
    hide Mask;
    if s.isFirst {
      FirstRoundTrip(s, v, rest);
    } else if v == s.prevBits {
      UnchangedRoundTrip(s, rest);
      XorZero(v, s.prevBits);
    } else {
      hide Readable, Decoded;
      NewWindowLength(v, s.prevBits);
      var x := XorWord(v, s.prevBits);
      XorInvolution(v, s.prevBits);
      assert XorWord(s.prevBits, x) == v;
      WindowFits(x);
      if Reuses(s, x) {
        ReuseRoundTrip(s, x, rest);
      } else {
        ReplaceRoundTrip(s, x, rest);
      }
    }
  }

  lemma FirstRoundTrip(s: ValState, v: Word, rest: Bits)
    requires s.isFirst && Mask(v) == v && WellFormed(s)
    ensures var b := Field(v, 64) + rest;
            Readable(s, b) && Decoded(s, b) == (s.(prevBits := v, isFirst := false), rest)
  {
    hide Field, ReadWord, ReadValue, ReadRest, Mask;
    ReadBackWord(v, rest);
  }

  lemma UnchangedRoundTrip(s: ValState, rest: Bits)
    requires WellFormed(s) && !s.isFirst
    ensures var b := Field(0, 1) + rest;
            Readable(s, b) && Decoded(s, b) == (s, rest)
  {
    PrefixCodes();
    ReadBit(false, rest);
  }

  lemma ReuseRoundTrip(s: ValState, x: Word, rest: Bits)
    requires WellFormed(s) && !s.isFirst && x > 0 && Reuses(s, x)
    ensures var b := Field(0x02, 2) + Field(Shr(x, s.trailing), 64 - s.leading - s.trailing) + rest;
            Readable(s, b) && Decoded(s, b) == (s.(prevBits := XorWord(s.prevBits, x)), rest)
  {
    hide Field, ReadWindow, ShiftUp, Leading, ReadValue, ReadRest;
    var body := Field(Shr(x, s.trailing), 64 - s.leading - s.trailing) + rest;
    ReadControl(false, body);
    assert Field(0x02, 2) + body == Field(0x02, 2) + Field(Shr(x, s.trailing), 64 - s.leading - s.trailing) + rest;
    ReusedWindow(s, x, rest);
  }

  lemma ReplaceRoundTrip(s: ValState, x: Word, rest: Bits)
    requires WellFormed(s) && !s.isFirst && x > 0 && 0 < 64 - Leading(x) - Ctz(x) <= 63
    ensures var n := 64 - Leading(x) - Ctz(x);
            var b := Field(0x03, 2) + Field(Leading(x), 5) + Field(n % 64, 6) + Field(Shr(x, Ctz(x)), n) + rest;
            && Readable(s, b)
            && Decoded(s, b) == (ValState(XorWord(s.prevBits, x), Leading(x), Ctz(x), false), rest)
  {
    hide Field, ReadWindow, ShiftUp, Leading, ReadValue, ReadRest;
    var n := 64 - Leading(x) - Ctz(x);
    var body := Field(Shr(x, Ctz(x)), n) + rest;
    var window := Field(Leading(x), 5) + (Field(n % 64, 6) + body);
    ReadControl(true, window);
    assert Field(0x03, 2) + window
        == Field(0x03, 2) + Field(Leading(x), 5) + Field(n % 64, 6) + Field(Shr(x, Ctz(x)), n) + rest;
    WindowFits(x);
    ReadHeader(Leading(x), n, body);
    WindowRoundTrip(x, Leading(x), Ctz(x), rest);
  }

  lemma ReadControl(second: bool, rest: Bits)
    ensures var b := Field(if second then 0x03 else 0x02, 2) + rest;
            && ReadValue(b, 1) == 1
            && ReadValue(ReadRest(b, 1), 1) == (if second then 1 else 0)
            && ReadRest(ReadRest(b, 1), 1) == rest
  {
    hide Field, ReadValue, ReadRest;
    PrefixCodes();
    var b1 := [second] + rest;
    assert [true, second] + rest == [true] + b1;
    ReadBit(true, b1);
    ReadBit(second, rest);
  }

  /** A window's leading count is the greatest that five bits can say. */
  lemma LeadingIsGreatest(x: Word)
    requires x > 0
    ensures Leading(x) <= 31 && x < Pow2(64 - Leading(x))
    ensures Leading(x) < 31 ==> Pow2(63 - Leading(x)) <= x
  {
    WindowFits(x);
    BitLengthBounds(x);
  }

  /** Its trailing count is the greatest number of low bits that are all zero. */
  lemma {:induction false} CtzIsGreatest(x: nat)
    requires x > 0
    ensures Low(x, Ctz(x)) == 0 && Low(x, Ctz(x) + 1) != 0
  {
    if x % 2 == 0 {
      CtzIsGreatest(x / 2);
    }
  }

  /** Every one bit of `x` lies inside the window. */
  predicate Covers(leading: nat, trailing: nat, x: nat)
    requires leading <= 64
  {
    x < Pow2(64 - leading) && Low(x, trailing) == 0
  }

  /** The reuse test is right: it succeeds exactly when the window covers the word. */
  lemma ReusesIff(s: ValState, x: Word)
    requires WellFormed(s) && x > 0
    ensures Reuses(s, x) <==> Covers(s.leading, s.trailing, x)
  {
    hide Leading, Ctz, Low, Pow2;
    LeadingIsGreatest(x);
    CtzIsGreatest(x);
    if Reuses(s, x) {
      Pow2Monotone(64 - Leading(x), 64 - s.leading);
      LowShorter(x, Ctz(x), s.trailing);
    } else if Covers(s.leading, s.trailing, x) {
      CtzAtLeast(x, s.trailing);
      Pow2Monotone(64 - s.leading, 63 - Leading(x));
    }
  }

  /** What a value costs, from any well-formed window: 64 bits for the first, one for an
      unchanged value, the window and two for a change the window covers, and otherwise
      the new window and thirteen. */
  lemma ValueCost(s: ValState, value: Word)
    requires WellFormed(s)
    ensures s.isFirst ==> |EncodedBits(s, value)| == 64
    ensures !s.isFirst ==>
              var x := XorWord(Mask(value), s.prevBits);
              && (|EncodedBits(s, value)| == 1 <==> Mask(value) == s.prevBits)
              && (x != 0 ==>
                    |EncodedBits(s, value)| ==
                      if Covers(s.leading, s.trailing, x) then 2 + (64 - s.leading - s.trailing)
                      else 13 + (64 - Leading(x) - Ctz(x)))
  {
    hide Leading, Ctz, Reuses, Covers, Mask, Shr;
    var x := XorWord(Mask(value), s.prevBits);
    XorZero(Mask(value), s.prevBits);
    if x > 0 {
      ReusesIff(s, x);
      WindowFits(x);
    }
  }

  /** From the initial window every run keeps it: a value costs 1 or 66 bits, and
      the new-window branch is never taken. */
  lemma FullWindowStays(s: ValState, value: Word)
    requires s.leading == 0 && s.trailing == 0
    ensures Encoded(s, value).leading == 0 && Encoded(s, value).trailing == 0
    ensures |EncodedBits(s, value)| == (if s.isFirst then 64 else if Mask(value) == s.prevBits then 1 else 66)
  {
    XorZero(Mask(value), s.prevBits);
  }

  // ---------------------------------------------------------------------------
  // The coder objects
  // ---------------------------------------------------------------------------

  class ValueEncoder {
    const bw: BitWriter
    var prevBits: Word
    var prevLeading: nat
    var prevTrailing: nat
    var isFirst: bool

    ghost function State(): ValState
      reads this
    {
      ValState(prevBits, prevLeading, prevTrailing, isFirst)
    }

    constructor (bw: BitWriter)
      ensures this.bw == bw && State() == INIT
    {
      this.bw := bw;
      prevBits := 0;
      prevLeading := 0;
      prevTrailing := 0;
      isFirst := true;
    }

    /** Append one value to the shared bit stream. */
    method Write(value: Word)
      requires bw.Valid() && WellFormed(State())
      modifies this, bw.Repr()
      ensures bw.Valid() && WellFormed(State())
      ensures bw.buffer.data == old(bw.buffer.data) || fresh(bw.buffer.data)
      ensures State() == Encoded(old(State()), value)
      ensures bw.Written() == old(bw.Written()) + EncodedBits(old(State()), value)
    {
      hide Field, Leading, TopBits, BytesBits, Mask, BitWriter.Written;
      var v := Mask(value);
      if isFirst {
        bw.Write(v, 64);
        prevBits := v;
        isFirst := false;
        return;
      }
      var x := XorWord(v, prevBits);
      if x == 0 {
        bw.Write(0, 1);
      } else {
        WriteChange(x);
      }
      prevBits := v;
    }

    /** A changed value: its meaningful bits in the old window, or in a new one. */
    method WriteChange(x: Word)
      requires bw.Valid() && WellFormed(State()) && x > 0
      modifies `prevLeading, `prevTrailing, bw.Repr()
      ensures bw.Valid()
      ensures bw.buffer.data == old(bw.buffer.data) || fresh(bw.buffer.data)
      ensures 64 - Leading(x) - Ctz(x) > 0
      ensures var s := old(State());
              var n := 64 - Leading(x) - Ctz(x);
              && State() == (if Reuses(s, x) then s else s.(leading := Leading(x), trailing := Ctz(x)))
              && bw.Written() == old(bw.Written()) +
                 (if Reuses(s, x) then Field(0x02, 2) + Field(Shr(x, s.trailing), 64 - s.leading - s.trailing)
                  else Field(0x03, 2) + Field(Leading(x), 5) + Field(n % 64, 6) + Field(Shr(x, Ctz(x)), n))
      ensures WellFormed(State())
    {
      hide Field, Shr, Ctz, TopBits, BytesBits, BitWriter.Written;
      WindowFits(x);
      var leading := Leading(x);
      var trailing := Ctz(x);
      if leading >= prevLeading && trailing >= prevTrailing {
        bw.Write(0x02, 2);
        ShrInWord(x, prevTrailing);
        bw.Write(Shr(x, prevTrailing), 64 - prevLeading - prevTrailing);
      } else {
        WriteWindow(x, leading, trailing);
        prevLeading := leading;
        prevTrailing := trailing;
      }
    }

    method WriteWindow(x: Word, leading: nat, trailing: nat)
      requires bw.Valid() && leading <= 31 && leading + trailing <= 63
      modifies bw.Repr()
      ensures bw.Valid()
      ensures bw.buffer.data == old(bw.buffer.data) || fresh(bw.buffer.data)
      ensures var n := 64 - leading - trailing;
              bw.Written() == old(bw.Written()) +
                (Field(0x03, 2) + Field(leading, 5) + Field(n % 64, 6) + Field(Shr(x, trailing), n))
    {
      hide Field, Shr, TopBits, BytesBits, BitWriter.Written;
      var n := 64 - leading - trailing;
      WindowBits(bw.Written(), leading, n, Shr(x, trailing));
      bw.Write(0x03, 2);
      bw.Write(leading, 5);
      bw.Write(n % 64, 6);
      ShrInWord(x, trailing);
      bw.Write(Shr(x, trailing), n);
    }
  }

  lemma WindowBits(written: Bits, leading: nat, n: nat, body: nat)
    ensures written + Field(0x03, 2) + Field(leading, 5) + Field(n % 64, 6) + Field(body, n)
            == written + (Field(0x03, 2) + Field(leading, 5) + Field(n % 64, 6) + Field(body, n))
  {
    hide Field;
    Associate(written, Field(0x03, 2), Field(leading, 5));
    Associate(written, Field(0x03, 2) + Field(leading, 5), Field(n % 64, 6));
    Associate(written, Field(0x03, 2) + Field(leading, 5) + Field(n % 64, 6), Field(body, n));
  }

  lemma {:induction false} ShrInWord(x: nat, k: nat)
    ensures Shr(x, k) <= x
  {
    if k > 0 {
      ShrInWord(x / 2, k - 1);
    }
  }

  class ValueDecoder {
    const br: BitReader
    var prevBits: Word
    var prevLeading: nat
    var prevTrailing: nat
    var isFirst: bool

    ghost function State(): ValState
      reads this
    {
      ValState(prevBits, prevLeading, prevTrailing, isFirst)
    }

    constructor (br: BitReader)
      ensures this.br == br && State() == INIT
    {
      this.br := br;
      prevBits := 0;
      prevLeading := 0;
      prevTrailing := 0;
      isFirst := true;
    }

    /** Take the next value off the shared bit stream. */
    method Read() returns (value: Word)
      requires br.Valid() && WellFormed(State()) && Readable(State(), br.Rest())
      modifies this, br
      ensures br.Valid() && WellFormed(State())
      ensures (State(), br.Rest()) == Decoded(old(State()), old(br.Rest()))
      ensures value == State().prevBits
    {
      hide Mask, BytesBits, Xor, ShiftUp, ReadValue, ReadRest, ReadWindow, BitReader.Rest;
      if isFirst {
        value := br.Read(64);
        assert value == ReadWord(old(br.Rest()));
        value := Mask(value);
        prevBits := value;
        isFirst := false;
        return;
      }
      var x := 0;
      var bit0 := br.Read(1);
      if bit0 != 0 {
        var bit1 := br.Read(1);
        if bit1 == 0 {
          var meaningful := br.Read(64 - prevLeading - prevTrailing);
          x := ShiftUp(meaningful, prevTrailing);
        } else {
          x := ReadChange();
        }
      }
      XorWithZero(prevBits);
      assert XorWord(prevBits, 0) == prevBits;
      value := XorWord(prevBits, x);
      prevBits := value;
    }

    /** A new window and the bits in it. */
    method ReadChange() returns (x: Word)
      requires br.Valid()
      requires ReadWindow(br.Rest()).leading + ReadWindow(br.Rest()).length <= 64
      modifies `prevLeading, `prevTrailing, br
      ensures br.Valid()
      ensures var w := ReadWindow(old(br.Rest()));
              && prevLeading == w.leading && prevTrailing == 64 - w.leading - w.length
              && x == ShiftUp(ReadValue(w.rest, w.length), prevTrailing)
              && br.Rest() == ReadRest(w.rest, w.length)
      ensures WellFormed(State())
    {
      hide BytesBits, ReadValue, ReadRest, ShiftUp, BitReader.Rest;
      var leading := br.Read(5);
      var n := br.Read(6);
      if n == 0 {
        n := 64;
      }
      Pow2Small();
      var trailing := 64 - leading - n;
      var meaningful := br.Read(n);
      x := ShiftUp(meaningful, trailing);
      prevLeading := leading;
      prevTrailing := trailing;
    }
  }

  lemma {:induction false} XorWithZero(a: nat)
    ensures Xor(a, 0) == a
  {
    if a > 0 {
      XorWithZero(a / 2);
    }
  }
}
