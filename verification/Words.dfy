/** Machine words as natural numbers: powers of two, shifts, wrap-around, the
    bitwise operators the coders use, and the two bit counts of the compiler
    builtins. Shifts and masks go one bit at a time, so that nothing below
    multiplies or divides by anything but two. */
module Words {

  const TWO_64: int := 0x1_0000_0000_0000_0000
  const TWO_63: int := 0x8000_0000_0000_0000

  /** An unsigned 64-bit word. */
  type Word = w: int | 0 <= w < TWO_64

  /** An unsigned 8-bit byte. */
  type Byte = b: int | 0 <= b < 256

  /** A signed 64-bit integer (the source's `long` and `int64_t`). */
  type Long = x: int | -TWO_63 <= x < TWO_63

  function Pow2(n: nat): (p: int)
    ensures 1 <= p
  {
    if n == 0 then 1 else 2 * Pow2(n - 1)
  }

  lemma {:induction false} Pow2Add(a: nat, b: nat)
    ensures Pow2(a + b) == Pow2(a) * Pow2(b)
  {
    if a > 0 {
      Pow2Add(a - 1, b);
      calc {
        Pow2(a + b);
        2 * Pow2(a - 1 + b);
        2 * (Pow2(a - 1) * Pow2(b));
        (2 * Pow2(a - 1)) * Pow2(b);
      }
    }
  }

  lemma {:induction false} Pow2Monotone(a: nat, b: nat)
    requires a <= b
    ensures Pow2(a) <= Pow2(b)
    decreases b - a
  {
    if a < b {
      Pow2Monotone(a + 1, b);
    }
  }

  lemma Pow2Small()
    ensures Pow2(0) == 1 && Pow2(1) == 2 && Pow2(2) == 4 && Pow2(3) == 8 && Pow2(4) == 16
    ensures Pow2(5) == 32 && Pow2(6) == 64 && Pow2(7) == 128 && Pow2(8) == 256 && Pow2(9) == 512
  {
    assert Pow2(3) == 8;
    assert Pow2(6) == 64;
  }

  /** The powers that appear as field widths in the coders. */
  lemma Pow2Widths()
    ensures Pow2(11) == 0x800 && Pow2(12) == 0x1000 && Pow2(13) == 0x2000 && Pow2(14) == 0x4000
    ensures Pow2(31) == 0x8000_0000 && Pow2(32) == 0x1_0000_0000
    ensures Pow2(63) == TWO_63 && Pow2(64) == TWO_64
  {
    Pow2Small();
    assert Pow2(10) == 0x400;
    assert Pow2(13) == 0x2000;
    Pow2Add(13, 13);
    assert Pow2(26) == 0x400_0000;
    assert Pow2(29) == 0x2000_0000;
    assert Pow2(31) == 0x8000_0000;
    Pow2Add(31, 32);
  }

  // ---------------------------------------------------------------------------
  // Shifts and masks
  // ---------------------------------------------------------------------------

  /** `x << k`, before any truncation to a machine width. */
  function Shl(x: nat, k: nat): nat {
    if k == 0 then x else 2 * Shl(x, k - 1)
  }

  /** `x >> k` */
  function Shr(x: nat, k: nat): nat {
    if k == 0 then x else Shr(x / 2, k - 1)
  }

  /** `x & ((1 << k) - 1)`: the low `k` bits. */
  function Low(x: nat, k: nat): (r: nat)
    ensures r < Pow2(k)
  {
    if k == 0 then 0 else 2 * Low(x / 2, k - 1) + x % 2
  }

  lemma {:induction false} ShlShl(x: nat, a: nat, b: nat)
    ensures Shl(Shl(x, a), b) == Shl(x, a + b)
  {
    if b > 0 {
      ShlShl(x, a, b - 1);
    }
  }

  lemma {:induction false} ShlSum(x: nat, y: nat, k: nat)
    ensures Shl(x + y, k) == Shl(x, k) + Shl(y, k)
  {
    if k > 0 {
      ShlSum(x, y, k - 1);
    }
  }

  lemma {:induction false} ShlBound(x: nat, a: nat, k: nat)
    requires x < Pow2(a)
    ensures Shl(x, k) < Pow2(a + k)
  {
    if k > 0 {
      ShlBound(x, a, k - 1);
    }
  }

  lemma {:induction false} ShrBound(x: nat, a: nat, k: nat)
    requires x < Pow2(a + k)
    ensures Shr(x, k) < Pow2(a)
  {
    if k > 0 {
      ShrBound(x / 2, a, k - 1);
    }
  }

  /** Bits shifted up by `k` and bits below `k` do not meet. */
  lemma {:induction false} ShiftedSum(h: nat, x: nat, k: nat)
    requires x < Pow2(k)
    ensures Shr(Shl(h, k) + x, k) == h
    ensures Low(Shl(h, k) + x, k) == x
  {
    if k > 0 {
      assert (Shl(h, k) + x) / 2 == Shl(h, k - 1) + x / 2;
      assert (Shl(h, k) + x) % 2 == x % 2;
      ShiftedSum(h, x / 2, k - 1);
    }
  }

  /** A number is its high part shifted up plus its low part. */
  lemma {:induction false} ShiftSplit(x: nat, k: nat)
    ensures Shl(Shr(x, k), k) + Low(x, k) == x
  {
    if k > 0 {
      ShiftSplit(x / 2, k - 1);
    }
  }

  lemma {:induction false} LowOfSmall(x: nat, k: nat)
    requires x < Pow2(k)
    ensures Low(x, k) == x && Shr(x, k) == 0
  {
    if k > 0 {
      LowOfSmall(x / 2, k - 1);
    }
  }

  lemma {:induction false} ShlIsProduct(x: nat, k: nat)
    ensures Shl(x, k) == x * Pow2(k)
  {
    if k > 0 {
      ShlIsProduct(x, k - 1);
      assert x * Pow2(k) == 2 * (x * Pow2(k - 1));
    }
  }

  lemma DivUnique(x: int, d: int, q: int, r: int)
    requires d > 0 && 0 <= r < d && x == q * d + r
    ensures x / d == q && x % d == r
  {
    var q' := x / d;
    assert x == q' * d + x % d;
    if q' < q {
      MulAtLeast(q - q', d);
    } else if q' > q {
      MulAtLeast(q' - q, d);
    }
  }

  lemma MulAtLeast(k: int, d: int)
    requires k >= 1 && d > 0
    ensures k * d >= d
  {
  }

  /** The mask is the remainder modulo the power. */
  lemma LowIsRemainder(x: nat, k: nat)
    ensures Low(x, k) == x % Pow2(k)
  {
    ShiftSplit(x, k);
    ShlIsProduct(Shr(x, k), k);
    DivUnique(x, Pow2(k), Shr(x, k), Low(x, k));
  }

  // ---------------------------------------------------------------------------
  // Two's complement
  // ---------------------------------------------------------------------------

  /** Conversion of an unbounded result to `uint64_t`. */
  function Unsigned64(x: int): Word {
    x % TWO_64
  }

  /** Conversion of an unbounded result to `int64_t`. */
  function Signed64(x: int): Long {
    var m := x % TWO_64;
    if m >= TWO_63 then m - TWO_64 else m
  }

  lemma UnsignedWord(w: Word)
    ensures Unsigned64(w) == w
  {
  }

  /** The two's complement number in the low `bits` bits of `x`. */
  function WrapSigned(x: int, bits: nat): (r: int)
    requires bits > 0
    ensures -Pow2(bits - 1) <= r < Pow2(bits - 1)
  {
    var m := x % Pow2(bits);
    if m >= Pow2(bits - 1) then m - Pow2(bits) else m
  }

  /** Wrapping changes nothing exactly when the number is in range. */
  lemma WrapSignedIdentity(x: int, bits: nat)
    requires bits > 0
    ensures WrapSigned(x, bits) == x <==> -Pow2(bits - 1) <= x < Pow2(bits - 1)
  {
    var p := Pow2(bits);
    if -Pow2(bits - 1) <= x < 0 {
      DivUnique(x, p, -1, x + p);
    } else if 0 <= x < Pow2(bits - 1) {
      DivUnique(x, p, 0, x);
    }
  }

  /** Sign extension of a field of `bits` bits to 64 bits. */
  function SignExtend(val: nat, bits: nat): int
    requires 0 < bits && val < Pow2(bits)
  {
    if Shr(val, bits - 1) % 2 == 1 then val - Pow2(bits) else val
  }

  lemma {:induction false} TopBit(m: nat, bits: nat)
    requires 0 < bits && m < Pow2(bits)
    ensures Shr(m, bits - 1) % 2 == (if m >= Pow2(bits - 1) then 1 else 0)
  {
    if bits > 1 {
      TopBit(m / 2, bits - 1);
    }
  }

  lemma SignExtendIsWrap(x: int, bits: nat)
    requires 0 < bits
    ensures SignExtend(x % Pow2(bits), bits) == WrapSigned(x, bits)
  {
    TopBit(x % Pow2(bits), bits);
  }

  // ---------------------------------------------------------------------------
  // Bitwise operators
  // ---------------------------------------------------------------------------

  function Or(a: nat, b: nat): nat
    decreases a + b
  {
    if a == 0 && b == 0 then 0 else 2 * Or(a / 2, b / 2) + (if a % 2 + b % 2 > 0 then 1 else 0)
  }

  function Xor(a: nat, b: nat): nat
    decreases a + b
  {
    if a == 0 && b == 0 then 0 else 2 * Xor(a / 2, b / 2) + (if a % 2 == b % 2 then 0 else 1)
  }

  /** Or with bits that are all free is addition. */
  lemma {:induction false} OrDisjoint(h: nat, x: nat, k: nat)
    requires x < Pow2(k)
    ensures Or(Shl(h, k), x) == Shl(h, k) + x
  {
    hide Or;
    if k == 0 {
      OrZero(h);
    } else {
      OrDisjoint(h, x / 2, k - 1);
      OrEven(Shl(h, k - 1), x);
    }
  }

  lemma OrEven(a: nat, b: nat)
    ensures Or(2 * a, b) == 2 * Or(a, b / 2) + b % 2
  {
    var even := 2 * a;
    assert even / 2 == a && even % 2 == 0;
    if even == 0 && b == 0 {
      assert Or(0, 0) == 0;
    }
  }

  lemma {:induction false} OrZero(h: nat)
    ensures Or(h, 0) == h
  {
    if h > 0 {
      OrZero(h / 2);
    }
  }

  lemma {:induction false} XorHalves(a: nat, b: nat)
    ensures Xor(a, b) / 2 == Xor(a / 2, b / 2)
    ensures Xor(a, b) % 2 == (if a % 2 == b % 2 then 0 else 1)
  {
    if a == 0 && b == 0 {
      assert Xor(0, 0) == 0;
    } else {
      var h, r := Xor(a / 2, b / 2), if a % 2 == b % 2 then 0 else 1;
      assert Xor(a, b) == 2 * h + r;
    }
  }

  /** Exclusive or with the same word twice gives the first word back. */
  lemma {:induction false} XorInvolution(a: nat, b: nat)
    ensures Xor(b, Xor(a, b)) == a
    decreases a + b
  {
    if a != 0 || b != 0 {
      var x := Xor(a, b);
      XorHalves(a, b);
      XorHalves(b, x);
      XorInvolution(a / 2, b / 2);
      var y := Xor(b, x);
      assert y / 2 == a / 2 && y % 2 == a % 2;
    }
  }

  lemma {:induction false} XorBound(a: nat, b: nat, n: nat)
    requires a < Pow2(n) && b < Pow2(n)
    ensures Xor(a, b) < Pow2(n)
  {
    if n > 0 && (a != 0 || b != 0) {
      XorBound(a / 2, b / 2, n - 1);
    }
  }

  lemma {:induction false} XorZero(a: nat, b: nat)
    ensures Xor(a, b) == 0 <==> a == b
    decreases a + b
  {
    if a != 0 || b != 0 {
      XorZero(a / 2, b / 2);
    }
  }

  /** Common trailing zeros survive an exclusive or. */
  lemma {:induction false} XorTrailing(a: nat, b: nat, k: nat)
    requires Low(a, k) == 0 && Low(b, k) == 0
    ensures Low(Xor(a, b), k) == 0
  {
    if k > 0 {
      XorHalves(a, b);
      XorTrailing(a / 2, b / 2, k - 1);
    }
  }

  // ---------------------------------------------------------------------------
  // Counting zeros
  // ---------------------------------------------------------------------------

  function BitLength(x: nat): nat {
    if x == 0 then 0 else 1 + BitLength(x / 2)
  }

  lemma {:induction false} BitLengthBounds(x: nat)
    ensures x < Pow2(BitLength(x))
    ensures x > 0 ==> BitLength(x) > 0 && Pow2(BitLength(x) - 1) <= x
  {
    if x > 0 {
      BitLengthBounds(x / 2);
    }
  }

  lemma {:induction false} BitLengthAtMost(x: nat, n: nat)
    requires x < Pow2(n)
    ensures BitLength(x) <= n
  {
    if x > 0 {
      BitLengthAtMost(x / 2, n - 1);
    }
  }

  /** Leading zeros of a nonzero word. */
  function Clz(x: Word): (n: nat)
    requires x > 0
    ensures n <= 63
  {
    Pow2Widths();
    BitLengthAtMost(x, 64);
    64 - BitLength(x)
  }

  /** Trailing zeros of a nonzero word. */
  function Ctz(x: nat): nat
    requires x > 0
  {
    if x % 2 == 1 then 0 else 1 + Ctz(x / 2)
  }

  lemma {:induction false} CtzIsClear(x: nat)
    requires x > 0
    ensures Low(x, Ctz(x)) == 0
    ensures Ctz(x) < BitLength(x)
  {
    if x % 2 == 0 {
      CtzIsClear(x / 2);
    }
  }

  lemma {:induction false} CtzAtLeast(x: nat, k: nat)
    requires x > 0 && Low(x, k) == 0
    ensures Ctz(x) >= k
  {
    if k > 0 {
      CtzAtLeast(x / 2, k - 1);
    }
  }

  lemma {:induction false} LowShorter(x: nat, k: nat, m: nat)
    requires m <= k && Low(x, k) == 0
    ensures Low(x, m) == 0
  {
    if m > 0 {
      LowShorter(x / 2, k - 1, m - 1);
    }
  }
}
