/** Doubles as the codec keeps them: the binary64 layout of section 3.4 of IEEE
    754-2019, and what clearing the low four bits of the word does to the number. */
module Doubles {
  import opened Words
  import opened Aggregate
  import opened Heads
  import opened Store
  import opened Values

  const FRACTIONS: int := 0x10_0000_0000_0000
  const INFINITY: int := 0x7FF0_0000_0000_0000

  predicate Negative(w: Word) {
    w >= TWO_63
  }

  /** The word without its sign bit. */
  function Magnitude(w: Word): (m: nat)
    ensures m < TWO_63
  {
    if w >= TWO_63 then w - TWO_63 else w
  }

  function Exponent(w: Word): nat {
    Magnitude(w) / FRACTIONS
  }

  function Fraction(w: Word): nat {
    Magnitude(w) % FRACTIONS
  }

  predicate IsNaN(w: Word) {
    Magnitude(w) > INFINITY
  }

  predicate Finite(w: Word) {
    Magnitude(w) < INFINITY
  }

  /** The absolute value in units of the smallest subnormal number, 2^-1074. The same
      rule puts the infinities above every finite number. */
  function Units(m: nat): nat {
    var e, f := m / FRACTIONS, m % FRACTIONS;
    if e == 0 then f else Shl(FRACTIONS + f, e - 1)
  }

  function SignedUnits(w: Word): int {
    if Negative(w) then 0 - Units(Magnitude(w)) else Units(Magnitude(w))
  }

  /** The real number a finite word stands for. */
  function RealOf(w: Word): real {
    SignedUnits(w) as real / Pow2(1074) as real
  }

  /** Clearing the low four bits keeps the sign and the exponent, is idempotent, and
      keeps numbers numbers and finite numbers finite. */
  lemma MaskKeepsShape(w: Word)
    ensures Negative(Mask(w)) == Negative(w) && Exponent(Mask(w)) == Exponent(w)
    ensures Fraction(Mask(w)) == Fraction(w) - Fraction(w) % 16
    ensures Mask(Mask(w)) == Mask(w)
    ensures !IsNaN(w) ==> !IsNaN(Mask(w))
    ensures Finite(w) ==> Finite(Mask(w))
    ensures Magnitude(Mask(w)) == Magnitude(w) - Magnitude(w) % 16
  {
    hide Mask, Magnitude;
    MaskKeepsSign(w);
    CutKeepsExponent(Magnitude(w));
  }

  lemma MaskKeepsSign(w: Word)
    ensures Negative(Mask(w)) == Negative(w)
    ensures Magnitude(Mask(w)) == Magnitude(w) - Magnitude(w) % 16
    ensures Mask(Mask(w)) == Mask(w)
  {
    assert w % 16 == Magnitude(w) % 16;
  }

  lemma CutKeepsExponent(m: nat)
    ensures (m - m % 16) / FRACTIONS == m / FRACTIONS
    ensures (m - m % 16) % FRACTIONS == m % FRACTIONS - m % FRACTIONS % 16
  {
    var e, f := m / FRACTIONS, m % FRACTIONS;
    FractionLow(m);
    DivUnique(m - m % 16, FRACTIONS, e, f - f % 16);
  }

  lemma FractionLow(m: nat)
    ensures m % 16 == m % FRACTIONS % 16
  {
    var e, f := m / FRACTIONS, m % FRACTIONS;
    assert m == (e * (FRACTIONS / 16) + f / 16) * 16 + f % 16;
    DivUnique(m, 16, e * (FRACTIONS / 16) + f / 16, f % 16);
  }

  lemma {:induction false} ShlStrict(x: nat, y: nat, k: nat)
    requires x < y
    ensures Shl(x, k) < Shl(y, k)
  {
    if k > 0 {
      ShlStrict(x, y, k - 1);
    }
  }

  lemma {:induction false} ShlMore(x: nat, a: nat, b: nat)
    requires a <= b
    ensures Shl(x, a) <= Shl(x, b)
    decreases b - a
  {
    if a < b {
      ShlMore(x, a, b - 1);
    }
  }

  /** A larger magnitude is a larger number, across binades too. */
  lemma UnitsStrict(m: nat, n: nat)
    requires m < n
    ensures Units(m) < Units(n)
  {
    var e, f, e', f' := m / FRACTIONS, m % FRACTIONS, n / FRACTIONS, n % FRACTIONS;
    if e == e' {
      if e > 0 {
        ShlStrict(FRACTIONS + f, FRACTIONS + f', e - 1);
      }
    } else if e == 0 {
      ShlMore(FRACTIONS + f', 0, e' - 1);
    } else {
      ShlStrict(FRACTIONS + f, 2 * FRACTIONS, e - 1);
      ShlDouble(FRACTIONS, e - 1);
      ShlMore(FRACTIONS, e, e' - 1);
      ShlNotLess(FRACTIONS, FRACTIONS + f', e' - 1);
    }
  }

  lemma {:induction false} ShlDouble(x: nat, k: nat)
    ensures Shl(2 * x, k) == Shl(x, k + 1)
  {
    if k > 0 {
      ShlDouble(x, k - 1);
    }
  }

  lemma ShlNotLess(x: nat, y: nat, k: nat)
    requires x <= y
    ensures Shl(x, k) <= Shl(y, k)
  {
    if x < y {
      ShlStrict(x, y, k);
    }
  }

  lemma UnitsMonotone(m: nat, n: nat)
    ensures m <= n <==> Units(m) <= Units(n)
  {
    if m < n {
      UnitsStrict(m, n);
    } else if n < m {
      UnitsStrict(n, m);
    }
  }

  /** Clearing the low bits keeps the order of numbers, infinities included. */
  lemma MaskIsMonotone(v: Word, w: Word)
    requires !IsNaN(v) && !IsNaN(w) && SignedUnits(v) <= SignedUnits(w)
    ensures SignedUnits(Mask(v)) <= SignedUnits(Mask(w))
  {
    hide Units, Mask, Magnitude;
    MaskKeepsSign(v);
    MaskKeepsSign(w);
    var m, n := Magnitude(v), Magnitude(w);
    if Negative(v) && Negative(w) {
      CutIsMonotone(n, m);
    } else if !Negative(v) && !Negative(w) {
      CutIsMonotone(m, n);
    } else if Negative(w) {
      CutOfZero(m);
      CutOfZero(n);
    }
  }

  lemma CutIsMonotone(m: nat, n: nat)
    requires Units(m) <= Units(n)
    ensures Units(m - m % 16) <= Units(n - n % 16)
  {
    hide Units;
    UnitsMonotone(m, n);
    UnitsMonotone(m - m % 16, n - n % 16);
  }

  lemma CutOfZero(m: nat)
    requires Units(m) == 0
    ensures Units(m - m % 16) == 0
  {
    hide Units;
    ZeroUnits();
    UnitsMonotone(m, 0);
  }

  lemma ZeroUnits()
    ensures Units(0) == 0
  {
  }

  /** A value is cut toward zero, and a normal number by less than the 2^48-th part
      of itself. */
  lemma MaskErrorBound(w: Word)
    requires Finite(w)
    ensures Units(Magnitude(Mask(w))) <= Units(Magnitude(w))
    ensures Exponent(w) >= 1 ==>
              (Units(Magnitude(w)) - Units(Magnitude(Mask(w)))) * 0x1_0000_0000_0000 < Units(Magnitude(w))
  {
    MaskKeepsShape(w);
    UnitsMonotone(Magnitude(Mask(w)), Magnitude(w));
    var e, f := Exponent(w), Fraction(w);
    if e >= 1 {
      var kept, lost := FRACTIONS + f - f % 16, f % 16;
      ShlSum(kept, lost, e - 1);
      ErrorPart(lost, FRACTIONS + f, e - 1);
    }
  }

  lemma {:induction false} ErrorPart(lost: nat, whole: nat, k: nat)
    requires lost < 16 && whole >= FRACTIONS
    ensures Shl(lost, k) * 0x1_0000_0000_0000 < Shl(whole, k)
  {
    if k > 0 {
      ErrorPart(lost, whole, k - 1);
    }
  }

  /** The classes of words by their fields. */
  lemma ClassesByFields(w: Word)
    ensures Finite(w) <==> Exponent(w) < 2047
    ensures IsNaN(w) <==> Exponent(w) == 2047 && Fraction(w) != 0
  {
    var m := Magnitude(w);
    assert INFINITY == 2047 * FRACTIONS;
    assert m == Exponent(w) * FRACTIONS + Fraction(w);
  }

  /** A normal magnitude by its fields. */
  lemma UnitsOfNormal(e: nat, f: nat)
    requires e >= 1 && f < FRACTIONS
    ensures Units(e * FRACTIONS + f) == (FRACTIONS + f) * Pow2(e - 1)
  {
    DivUnique(e * FRACTIONS + f, FRACTIONS, e, f);
    ShlIsProduct(FRACTIONS + f, e - 1);
  }

  lemma Power52()
    ensures Pow2(52) == FRACTIONS
  {
    hide Pow2;
    Pow2Widths();
    Pow2Add(13, 13);
    Pow2Add(26, 26);
  }

  /** The scale of the numbers: the word of 1.0 is one. */
  lemma OneIsOne()
    ensures RealOf(0x3FF0_0000_0000_0000) == 1.0
  {
    hide Pow2, Units;
    UnitsOfOne();
    SelfQuotient(Units(1023 * FRACTIONS), Pow2(1074));
  }

  lemma UnitsOfOne()
    ensures Units(1023 * FRACTIONS) == Pow2(1074)
  {
    hide Pow2, Units;
    UnitsOfNormal(1023, 0);
    Power52();
    Pow2Add(52, 1022);
  }

  lemma SelfQuotient(n: int, d: int)
    requires n == d > 0
    ensures n as real / d as real == 1.0
  {
  }

  /** The next exponent doubles a normal number. */
  lemma ExponentDoubles(w: Word)
    requires 1 <= Exponent(w) < 2046
    ensures w + FRACTIONS < TWO_64 && RealOf(w + FRACTIONS) == 2.0 * RealOf(w)
  {
    hide Pow2;
    var m := Magnitude(w);
    assert m == Exponent(w) * FRACTIONS + Fraction(w);
    DivUnique(m + FRACTIONS, FRACTIONS, Exponent(w) + 1, Fraction(w));
    assert Units(m + FRACTIONS) == 2 * Units(m);
    DoubledQuotient(SignedUnits(w), Pow2(1074));
  }

  lemma DoubledQuotient(n: int, d: int)
    requires d > 0
    ensures (2 * n) as real / d as real == 2.0 * (n as real / d as real)
  {
  }

  /** Within a binade numbers grow evenly with the fraction: a normal number is the power
      of two of its exponent times one and the fraction over 2^52. */
  lemma FractionIsLinear(w: Word)
    requires 1 <= Exponent(w) < 2047
    ensures RealOf(w) * FRACTIONS as real == RealOf(w - Fraction(w)) * (FRACTIONS + Fraction(w)) as real
  {
    hide Pow2, Units;
    var e, f := Exponent(w), Fraction(w);
    var p := Pow2(e - 1);
    assert Magnitude(w) == e * FRACTIONS + f && Magnitude(w - f) == e * FRACTIONS;
    UnitsOfNormal(e, f);
    UnitsOfNormal(e, 0);
    assert Negative(w - f) == Negative(w);
    Rearranged(FRACTIONS + f, FRACTIONS, p);
    ScaledQuotients(SignedUnits(w), SignedUnits(w - f), Pow2(1074), FRACTIONS, FRACTIONS + f);
  }

  lemma Rearranged(a: int, b: int, p: int)
    ensures a * p * b == b * p * a && (0 - a * p) * b == (0 - b * p) * a
  {
  }

  lemma ScaledQuotients(x: int, y: int, d: int, a: int, b: int)
    requires d > 0 && x * a == y * b
    ensures x as real / d as real * a as real == y as real / d as real * b as real
  {
    assert (x * a) as real == x as real * a as real && (y * b) as real == y as real * b as real;
  }

  /** The sign bit negates. */
  lemma SignNegates(w: Word)
    requires !Negative(w)
    ensures RealOf(w + TWO_63) == 0.0 - RealOf(w)
  {
    NegatedQuotient(Units(Magnitude(w)), Pow2(1074));
  }

  /** The real numbers of words are ordered like their units. */
  lemma RealOrder(v: Word, w: Word)
    ensures SignedUnits(v) <= SignedUnits(w) <==> RealOf(v) <= RealOf(w)
  {
    DivideOrder(SignedUnits(v), SignedUnits(w), Pow2(1074));
  }

  lemma DivideOrder(x: int, y: int, d: int)
    requires d > 0
    ensures x <= y <==> x as real / d as real <= y as real / d as real
  {
    var p, q := x as real / d as real, y as real / d as real;
    assert p * d as real == x as real && q * d as real == y as real;
    if p <= q {
      assert p * d as real <= q * d as real;
    } else {
      assert q * d as real < p * d as real;
    }
  }

  // ---------------------------------------------------------------------------
  // Extremes of a decoded chunk
  // ---------------------------------------------------------------------------

  /** Points as the aggregation reads them. */
  function ReadingsOf(points: seq<Point>): (r: seq<Reading>)
    ensures |r| == |points|
  {
    seq(|points|, i requires 0 <= i < |points| => Reading(points[i].ts, RealOf(points[i].value)))
  }

  ghost predicate AllNumbers(points: seq<Point>) {
    forall i :: 0 <= i < |points| ==> !IsNaN(points[i].value)
  }

  /** No value of `points` is below that of point `i`. */
  ghost predicate IsLeast(points: seq<Point>, i: nat)
    requires i < |points|
  {
    forall j :: 0 <= j < |points| ==> SignedUnits(points[i].value) <= SignedUnits(points[j].value)
  }

  /** No value of `points` is above that of point `i`. */
  ghost predicate IsGreatest(points: seq<Point>, i: nat)
    requires i < |points|
  {
    forall j :: 0 <= j < |points| ==> SignedUnits(points[j].value) <= SignedUnits(points[i].value)
  }

  /** A least value among numbers, infinities included, is still one after
      quantisation, and it is what the aggregation finds before and after. */
  lemma DecodedLeast(points: seq<Point>, i: nat)
    requires i < |points| && AllNumbers(points) && IsLeast(points, i)
    ensures IsLeast(Quant(points), i)
    ensures Least(ReadingsOf(points)) == RealOf(points[i].value)
    ensures Least(ReadingsOf(Quant(points))) == RealOf(Mask(points[i].value))
  {
    hide Mask, SignedUnits, RealOf, Least, IsNaN;
    forall j | 0 <= j < |points|
      ensures SignedUnits(Mask(points[i].value)) <= SignedUnits(Mask(points[j].value))
    {
      MaskIsMonotone(points[i].value, points[j].value);
    }
    LeastReading(points, i);
    LeastReading(Quant(points), i);
  }

  lemma LeastReading(points: seq<Point>, i: nat)
    requires i < |points| && IsLeast(points, i)
    ensures Least(ReadingsOf(points)) == RealOf(points[i].value)
  {
    hide SignedUnits, RealOf, Least;
    var readings := ReadingsOf(points);
    LeastSpec(readings);
    var p :| p in readings && p.val == Least(readings);
    var j :| 0 <= j < |readings| && readings[j] == p;
    assert readings[i] in readings;
    RealOrder(points[i].value, points[j].value);
  }

  /** A greatest value among numbers likewise. */
  lemma DecodedGreatest(points: seq<Point>, i: nat)
    requires i < |points| && AllNumbers(points) && IsGreatest(points, i)
    ensures IsGreatest(Quant(points), i)
    ensures Greatest(ReadingsOf(points)) == RealOf(points[i].value)
    ensures Greatest(ReadingsOf(Quant(points))) == RealOf(Mask(points[i].value))
  {
    hide Mask, SignedUnits, RealOf, Greatest, IsNaN;
    forall j | 0 <= j < |points|
      ensures SignedUnits(Mask(points[j].value)) <= SignedUnits(Mask(points[i].value))
    {
      MaskIsMonotone(points[j].value, points[i].value);
    }
    GreatestReading(points, i);
    GreatestReading(Quant(points), i);
  }

  lemma GreatestReading(points: seq<Point>, i: nat)
    requires i < |points| && IsGreatest(points, i)
    ensures Greatest(ReadingsOf(points)) == RealOf(points[i].value)
  {
    hide SignedUnits, RealOf, Greatest;
    var readings := ReadingsOf(points);
    GreatestSpec(readings);
    var p :| p in readings && p.val == Greatest(readings);
    var j :| 0 <= j < |readings| && readings[j] == p;
    assert readings[i] in readings;
    RealOrder(points[j].value, points[i].value);
  }

  // ---------------------------------------------------------------------------
  // Rounding an average to a double
  // ---------------------------------------------------------------------------

  /** What is known of rounding a real to a double: it gives a number, keeps the
      order, and leaves doubles as they are, but for the sign of a zero. */
  ghost predicate Rounds(round: real -> Word) {
    && (forall x :: !IsNaN(round(x)))
    && (forall x, y :: x <= y ==> SignedUnits(round(x)) <= SignedUnits(round(y)))
    && forall w: Word :: Finite(w) ==> SignedUnits(round(RealOf(w))) == SignedUnits(w)
  }

  /** The real number of a magnitude. */
  ghost function RealOfMagnitude(m: nat): real {
    Units(m) as real / Pow2(1074) as real
  }

  /** The greatest magnitude up to `m` that does not exceed `x`. */
  ghost function Down(x: real, m: nat): nat {
    if m == 0 || RealOfMagnitude(m) <= x then m else Down(x, m - 1)
  }

  lemma {:induction false} DownIsGreatest(x: real, m: nat)
    requires x >= 0.0
    ensures Down(x, m) <= m && RealOfMagnitude(Down(x, m)) <= x
    ensures forall k :: Down(x, m) < k <= m ==> x < RealOfMagnitude(k)
  {
    hide RealOfMagnitude;
    if m == 0 {
      ZeroMagnitude();
    } else if RealOfMagnitude(m) > x {
      DownIsGreatest(x, m - 1);
    }
  }

  lemma ZeroMagnitude()
    ensures RealOfMagnitude(0) == 0.0
  {
    ZeroUnits();
  }

  /** Rounding toward zero. */
  ghost function Truncate(x: real): Word {
    if x >= 0.0 then ClampedDown(x) else TWO_63 + ClampedDown(0.0 - x)
  }

  ghost function ClampedDown(x: real): (m: nat)
    requires x >= 0.0
    ensures m <= INFINITY
  {
    DownIsGreatest(x, INFINITY);
    Down(x, INFINITY)
  }

  lemma ClampedDownIsMonotone(x: real, y: real)
    requires 0.0 <= x <= y
    ensures Units(ClampedDown(x)) <= Units(ClampedDown(y))
  {
    hide Down, RealOfMagnitude, Units;
    DownIsGreatest(x, INFINITY);
    DownIsGreatest(y, INFINITY);
    UnitsMonotone(ClampedDown(x), ClampedDown(y));
  }

  lemma ClampedDownKeeps(m: nat)
    requires m < INFINITY
    ensures RealOfMagnitude(m) >= 0.0 && ClampedDown(RealOfMagnitude(m)) == m
  {
    hide Units, Down;
    var x, d := RealOfMagnitude(m), Pow2(1074);
    DivideOrder(0, Units(m), d);
    DownIsGreatest(x, INFINITY);
    var r := ClampedDown(x);
    DivideOrder(Units(m), Units(r), d);
    DivideOrder(Units(r), Units(m), d);
    UnitsMonotone(m, r);
    UnitsMonotone(r, m);
  }

  /** Rounding toward zero is one way of rounding, so there is one. */
  lemma TruncationRounds()
    ensures Rounds(x => Truncate(x))
  {
    hide Units, RealOfMagnitude, ClampedDown;
    forall x, y | x <= y
      ensures SignedUnits(Truncate(x)) <= SignedUnits(Truncate(y))
    {
      if x >= 0.0 {
        ClampedDownIsMonotone(x, y);
      } else if y < 0.0 {
        ClampedDownIsMonotone(0.0 - y, 0.0 - x);
      }
    }
    forall w: Word | Finite(w)
      ensures SignedUnits(Truncate(RealOf(w))) == SignedUnits(w)
    {
      TruncationKeeps(w);
    }
  }

  lemma TruncationKeeps(w: Word)
    requires Finite(w)
    ensures SignedUnits(Truncate(RealOf(w))) == SignedUnits(w)
  {
    hide Units, ClampedDown, Pow2;
    var m := Magnitude(w);
    var x := RealOfMagnitude(m);
    ClampedDownKeeps(m);
    NegatedQuotient(Units(m), Pow2(1074));
    assert RealOf(w) == if Negative(w) then 0.0 - x else x;
  }

  lemma NegatedQuotient(n: int, d: int)
    requires d > 0
    ensures (0 - n) as real / d as real == 0.0 - n as real / d as real
  {
  }

  /** A real as a chunk keeps it: rounded, then cut by the codec. */
  function Kept(round: real -> Word, x: real): real {
    RealOf(Mask(round(x)))
  }

  /** Rounding and the codec together keep the order. */
  lemma KeptIsMonotone(round: real -> Word, x: real, y: real)
    requires Rounds(round) && x <= y
    ensures Kept(round, x) <= Kept(round, y)
  {
    hide Mask, SignedUnits, RealOf, IsNaN;
    MaskIsMonotone(round(x), round(y));
    RealOrder(Mask(round(x)), Mask(round(y)));
  }

  /** They leave every value that comes out of a chunk as it is. */
  lemma KeptDecoded(round: real -> Word, w: Word)
    requires Rounds(round) && Finite(w) && Mask(w) == w
    ensures Kept(round, RealOf(w)) == RealOf(w)
  {
    FiniteIsNumber(w);
    hide Mask, SignedUnits, RealOf, IsNaN, Finite;
    var r := round(RealOf(w));
    MaskIsMonotone(r, w);
    MaskIsMonotone(w, r);
    RealOrder(Mask(r), w);
    RealOrder(w, Mask(r));
  }

  lemma FiniteIsNumber(w: Word)
    requires Finite(w)
    ensures !IsNaN(w)
  {
  }
}
