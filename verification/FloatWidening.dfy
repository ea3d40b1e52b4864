/** The printer's widening of the two sixteen-bit formats, in the arithmetic it is written in,
and the reader's narrowing that undoes it. */
module FloatWidening {
  import opened Wrappers
  import opened Powers
  import opened Shifts
  import opened FloatNarrowing

  // ------------------------------------------------------------------ real values

  /** Two to any power, negative ones included. */
  function TwoTo(e: int): (r: real)
    ensures r > 0.0
    decreases if e < 0 then -e else e
  {
    if e == 0 then 1.0 else if e > 0 then 2.0 * TwoTo(e - 1) else TwoTo(e + 1) / 2.0
  }

  lemma TwoToNext(e: int)
    ensures TwoTo(e + 1) == 2.0 * TwoTo(e)
  {
  }

  lemma {:induction false} TwoToAdds(e: int, k: nat)
    ensures TwoTo(e + k) == TwoTo(e) * (Pow2(k) as real)
  {
    if k > 0 {
      TwoToAdds(e, k - 1);
      TwoToNext(e + (k - 1));
      TwiceAsReal(TwoTo(e), Pow2(k - 1));
    }
  }

  lemma TwiceAsReal(x: real, n: nat)
    ensures 2.0 * (x * (n as real)) == x * ((2 * n) as real)
  {
    assert (2 * n) as real == 2.0 * (n as real);
  }

  function SignOf(x: Fields): real {
    if x.sign == 0 then 1.0 else -1.0
  }

  /** The exponent of the last place of a number's significand. */
  function Place(f: Format, x: Fields): int
    requires f.exponentBits > 0
  {
    Places(x) + 1 - f.Bias() - f.mantissaBits
  }

  function Scaled(significand: nat, place: int): real {
    (significand as real) * TwoTo(place)
  }

  /** The number a finite pattern stands for (section 3.4 of IEEE 754-2008). */
  function Value(f: Format, x: Fields): real
    requires f.exponentBits > 0
  {
    SignOf(x) * Scaled(Significand(f, x), Place(f, x))
  }

  lemma {:induction false} ShlScales(n: nat, k: nat)
    ensures Shl(n, k) == n * Pow2(k)
  {
    if k > 0 {
      ShlScales(n, k - 1);
    }
  }

  /** Shifting a significand left is moving its last place down. */
  lemma ScaledDown(n: nat, k: nat, place: int)
    ensures Scaled(n, place + k) == Scaled(Shl(n, k), place)
  {
    TwoToAdds(place, k);
    ShlScales(n, k);
    ScaledAsReal(n, Pow2(k), TwoTo(place));
  }

  lemma ScaledAsReal(n: nat, k: nat, unit: real)
    ensures (n as real) * (unit * (k as real)) == ((n * k) as real) * unit
  {
    assert (n * k) as real == (n as real) * (k as real);
  }

  lemma ScaledOnce(m: nat, n: nat, place: int)
    requires Scaled(m, place) == Scaled(n, place)
    ensures m == n
  {
    assert ((m as real) - (n as real)) * TwoTo(place) == 0.0;
  }

  /** `low` is the place of the smallest binary64's only digit. */
  lemma ValueInUnits(f: Format, x: Fields, low: int)
    requires IsBinary(f) && low + 1074 == 0
    ensures Value(f, x) == SignOf(x) * Scaled(Magnitude(f, x), low)
  {
    ScaledDown(Significand(f, x), LastPlace(f) + Places(x), low);
  }

  lemma SignedOnce(sign: real, a: real, b: real)
    requires sign == 1.0 || sign == -1.0
    ensures sign * a == sign * b <==> a == b
  {
  }

  /** Patterns of one sign are of the same number exactly when they have the same value. */
  lemma SameNumberIsSameValue(f: Format, x: Fields, g: Format, y: Fields)
    requires IsBinary(f) && IsBinary(g) && x.sign == y.sign
    ensures SameNumber(f, x, g, y) <==> Value(f, x) == Value(g, y)
  {
    var low: int :| low + 1074 == 0;
    var m, n := Magnitude(f, x), Magnitude(g, y);
    ValueInUnits(f, x, low);
    ValueInUnits(g, y, low);
    SignedOnce(SignOf(x), Scaled(m, low), Scaled(n, low));
    if Scaled(m, low) == Scaled(n, low) {
      ScaledOnce(m, n, low);
    }
  }

  // ---------------------------------------------------------------------- binary16

  /** The place of the last digit of a binary16 subnormal. */
  const HalfPlace: int := -24

  /** What the printer works out for a finite binary16. Every step is exact in binary64, so
  the arithmetic is that of the reals. */
  function HalfToDouble(x: Fields): real {
    if x.exponent == 0 then SignOf(x) * (x.mantissa as real) * TwoTo(HalfPlace)
    else SignOf(x) * (1.0 + (x.mantissa as real) / 1024.0) * TwoTo(x.exponent - 15)
  }

  lemma HalfFacts()
    ensures IsSmaller(Half) && Half.Bias() == 15 && Half.MaxExponent() == 31 && IsBinary(Half)
  {
    assert Pow2(4) == 16 && Pow2(5) == 32;
  }

  lemma HalfNormal(sign: real, mantissa: nat, place: int)
    ensures sign * (1.0 + (mantissa as real) / 1024.0) * TwoTo(place + 10) == sign * Scaled(1024 + mantissa, place)
  {
    assert Pow2(10) == 1024;
    TwoToAdds(place, 10);
    ThousandTimes(sign, mantissa as real, TwoTo(place));
  }

  lemma ThousandTimes(sign: real, m: real, t: real)
    ensures sign * (1.0 + m / 1024.0) * (t * 1024.0) == sign * ((1024.0 + m) * t)
  {
    var x := 1.0 + m / 1024.0;
    assert x * 1024.0 == 1024.0 + m;
    assert sign * x * (t * 1024.0) == sign * ((x * 1024.0) * t);
  }

  lemma HalfSubnormal(sign: real, mantissa: nat, place: int)
    ensures sign * (mantissa as real) * TwoTo(place) == sign * Scaled(mantissa, place)
  {
  }

  lemma HalfPlaces(x: Fields)
    ensures Half.exponentBits > 0
    ensures x.exponent == 0 ==> Place(Half, x) == HalfPlace && Significand(Half, x) == x.mantissa
    ensures x.exponent > 0 ==> Place(Half, x) + 10 == x.exponent - 15 && Significand(Half, x) == 1024 + x.mantissa
  {
    assert Pow2(4) == 16 && Pow2(10) == 1024;
  }

  /** It is the value of the pattern. */
  lemma HalfWidensExactly(x: Fields)
    requires IsFinite(Half, x)
    ensures Half.exponentBits > 0 && HalfToDouble(x) == Value(Half, x)
  {
    if x.exponent == 0 {
      SubnormalHalf(x);
    } else {
      NormalHalf(x);
    }
  }

  lemma SubnormalHalf(x: Fields)
    requires x.exponent == 0
    ensures Half.exponentBits > 0 && HalfToDouble(x) == Value(Half, x)
  {
    HalfPlaces(x);
    HalfSubnormal(SignOf(x), x.mantissa, Place(Half, x));
  }

  lemma NormalHalf(x: Fields)
    requires x.exponent > 0
    ensures Half.exponentBits > 0 && HalfToDouble(x) == Value(Half, x)
  {
    HalfPlaces(x);
    HalfNormal(SignOf(x), x.mantissa, Place(Half, x));
  }

  /** A double with a sign and a value is what the printer computes for a pattern exactly
  when the reader narrows it to that pattern. */
  lemma HalfReadsBack(raw: nat, p: nat)
    requires raw < Pow2(Double.Width()) && p < Pow2(Half.Width())
    requires IsFinite(Double, Split(Double, raw)) && IsFinite(Half, Split(Half, p))
    ensures IsSmaller(Half) && Double.exponentBits > 0
    ensures Split(Double, raw).sign == Split(Half, p).sign && Value(Double, Split(Double, raw)) == HalfToDouble(Split(Half, p))
       <==> Narrow(Half, raw) == Some(p)
  {
    var x, y := Split(Double, raw), Split(Half, p);
    HalfFacts();
    DoubleFacts();
    HalfWidensExactly(y);
    NarrowingIsExact(Half, raw, p);
    if x.sign == y.sign {
      SameNumberIsSameValue(Double, x, Half, y);
    }
  }

  /** And there is such a double for every finite pattern. */
  lemma HalfIsADouble(p: nat) returns (raw: nat)
    requires p < Pow2(Half.Width()) && IsFinite(Half, Split(Half, p))
    ensures raw < Pow2(Double.Width()) && IsFinite(Double, Split(Double, raw))
    ensures Split(Double, raw).sign == Split(Half, p).sign
    ensures Double.exponentBits > 0 && Value(Double, Split(Double, raw)) == HalfToDouble(Split(Half, p))
    ensures IsSmaller(Half) && Narrow(Half, raw) == Some(p)
  {
    HalfFacts();
    JoinSplit(Half, p);
    var x := Widen(Half, Split(Half, p));
    WideningIsExact(Half, Split(Half, p));
    SplitJoin(Double, x);
    raw := Join(Double, x);
    NarrowingUndoesWidening(Half, p);
    HalfReadsBack(raw, p);
  }

  // ---------------------------------------------------------------------- bfloat16

  lemma BFloatFacts()
    ensures IsSmaller(BFloat) && BFloat.Bias() == 127 && IsBinary(BFloat)
    ensures IsSmaller(Single) && Single.Bias() == 127 && IsBinary(Single)
    ensures BFloat.MaxExponent() == Single.MaxExponent() && LastPlace(BFloat) == LastPlace(Single) + 16
  {
    assert Pow2(7) == 128;
  }

  /** Noughts below a pattern lengthen its mantissa. */
  lemma JoinedLower(short: Format, long: Format, y: Fields, k: nat)
    requires long == Format(short.exponentBits, short.mantissaBits + k)
    ensures Shl(Join(short, y), k) == Join(long, Fields(y.sign, y.exponent, Shl(y.mantissa, k)))
  {
    var high := Shl(y.sign, short.exponentBits) + y.exponent;
    ShlAdds(Shl(high, short.mantissaBits), y.mantissa, k);
    ShlAgain(high, short.mantissaBits, k);
  }

  lemma SplitLower(short: Format, long: Format, p: nat, k: nat)
    requires long == Format(short.exponentBits, short.mantissaBits + k) && p < Pow2(short.Width())
    ensures var y := Split(short, p);
            && Shl(p, k) < Pow2(long.Width())
            && Split(long, Shl(p, k)) == Fields(y.sign, y.exponent, Shl(y.mantissa, k))
  {
    var y := Split(short, p);
    JoinSplit(short, p);
    ShlFits(y.mantissa, short.mantissaBits, k);
    JoinedLower(short, long, y, k);
    SplitJoin(long, Fields(y.sign, y.exponent, Shl(y.mantissa, k)));
  }

  /** Sixteen noughts below a bfloat make it the binary32 with the same sign and exponent. */
  lemma BFloatFields(p: nat)
    requires p < Pow2(BFloat.Width())
    ensures var y := Split(BFloat, p);
            && Shl(p, 16) < Pow2(Single.Width())
            && Split(Single, Shl(p, 16)) == Fields(y.sign, y.exponent, Shl(y.mantissa, 16))
  {
    SplitLower(BFloat, Single, p, 16);
  }

  lemma LowerPlaces(significand: nat, place: nat)
    ensures Shl(Shl(significand, 16), place) == Shl(significand, place + 16)
  {
    ShlAgain(significand, 16, place);
  }

  lemma LongerSignificand(y: Fields)
    ensures Significand(Single, Fields(y.sign, y.exponent, Shl(y.mantissa, 16))) == Shl(Significand(BFloat, y), 16)
  {
    ShlPow2(7, 16);
    ShlAdds(Pow2(7), y.mantissa, 16);
  }

  /** And of the same number. */
  lemma BFloatIsASingle(p: nat)
    requires p < Pow2(BFloat.Width())
    ensures IsBinary(BFloat) && IsBinary(Single)
    ensures SameNumber(Single, Split(Single, Shl(p, 16)), BFloat, Split(BFloat, p))
  {
    BFloatFacts();
    BFloatFields(p);
    SameMagnitude(Split(BFloat, p));
  }

  lemma SameMagnitude(y: Fields)
    requires IsBinary(BFloat) && IsBinary(Single) && LastPlace(BFloat) == LastPlace(Single) + 16
    ensures Magnitude(Single, Fields(y.sign, y.exponent, Shl(y.mantissa, 16))) == Magnitude(BFloat, y)
  {
    LongerSignificand(y);
    LowerPlaces(Significand(BFloat, y), LastPlace(Single) + Places(y));
  }

  /** The double of the binary32 with a bfloat on top narrows to that bfloat, and no other
  double does. */
  lemma BFloatReadsBack(raw: nat, p: nat)
    requires raw < Pow2(Double.Width()) && p < Pow2(BFloat.Width())
    requires IsFinite(Double, Split(Double, raw)) && IsFinite(BFloat, Split(BFloat, p))
    ensures IsSmaller(BFloat) && IsBinary(Double) && IsBinary(Single)
    ensures SameNumber(Double, Split(Double, raw), Single, Split(Single, Shl(p, 16))) <==> Narrow(BFloat, raw) == Some(p)
  {
    BFloatFacts();
    BFloatIsASingle(p);
    BFloatFields(p);
    NarrowingIsExact(BFloat, raw, p);
  }
}
