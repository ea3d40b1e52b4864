/** Exact narrowing of binary64 patterns into smaller IEEE formats (section 3.4 of
IEEE 754-2008). */
module FloatNarrowing {
  import opened Wrappers
  import opened Powers
  import opened Shifts

  /** An interchange format, by the widths of its exponent and its trailing significand. */
  datatype Format = Format(exponentBits: nat, mantissaBits: nat) {
    function Bias(): nat
      requires exponentBits > 0
    {
      Pow2(exponentBits - 1) - 1
    }

    function MaxExponent(): nat {
      Pow2(exponentBits) - 1
    }

    function Width(): nat {
      1 + exponentBits + mantissaBits
    }
  }

  const DoubleBits: nat := 52
  const Double := Format(11, DoubleBits)
  const Single := Format(8, 23)
  const Half := Format(5, 10)
  const BFloat := Format(8, 7)

  predicate IsSmaller(f: Format) {
    2 <= f.exponentBits <= 10 && 1 <= f.mantissaBits <= 51
  }

  datatype Fields = Fields(sign: nat, exponent: nat, mantissa: nat)

  predicate FieldsFit(f: Format, x: Fields) {
    x.sign < 2 && x.exponent < Pow2(f.exponentBits) && x.mantissa < Pow2(f.mantissaBits)
  }

  function Join(f: Format, x: Fields): nat {
    Shl(Shl(x.sign, f.exponentBits) + x.exponent, f.mantissaBits) + x.mantissa
  }

  function Split(f: Format, raw: nat): Fields {
    var high := Shr(raw, f.mantissaBits);
    Fields(Shr(high, f.exponentBits), Low(high, f.exponentBits), Low(raw, f.mantissaBits))
  }

  lemma SplitParts(f: Format, raw: nat, high: nat, x: Fields)
    requires Shr(raw, f.mantissaBits) == high && Low(raw, f.mantissaBits) == x.mantissa
    requires Shr(high, f.exponentBits) == x.sign && Low(high, f.exponentBits) == x.exponent
    ensures Split(f, raw) == x
  {
  }

  lemma SplitJoin(f: Format, x: Fields)
    requires FieldsFit(f, x)
    ensures Join(f, x) < Pow2(f.Width()) && Split(f, Join(f, x)) == x
  {
    var high := Shl(x.sign, f.exponentBits) + x.exponent;
    HighAndLowUnique(high, x.mantissa, f.mantissaBits);
    HighAndLowUnique(x.sign, x.exponent, f.exponentBits);
    SplitParts(f, Join(f, x), high, x);
    FieldsJoinFits(f, x);
  }

  lemma FieldsJoinFits(f: Format, x: Fields)
    requires FieldsFit(f, x)
    ensures Join(f, x) < Pow2(f.Width())
  {
    JoinFits(x.sign, x.exponent, 1, f.exponentBits);
    JoinFits(Shl(x.sign, f.exponentBits) + x.exponent, x.mantissa, 1 + f.exponentBits, f.mantissaBits);
  }

  lemma JoinFits(high: nat, low: nat, j: nat, k: nat)
    requires high < Pow2(j) && low < Pow2(k)
    ensures Shl(high, k) + low < Pow2(j + k)
  {
    ShlAdds(high, 1, k);
    ShlOne(k);
    ShlPow2(j, k);
    ShlOrders(Pow2(j), high + 1, k);
  }

  lemma JoinSplit(f: Format, raw: nat)
    requires raw < Pow2(f.Width())
    ensures FieldsFit(f, Split(f, raw)) && Join(f, Split(f, raw)) == raw
  {
    var high := Shr(raw, f.mantissaBits);
    HighAndLow(raw, f.mantissaBits);
    HighAndLow(high, f.exponentBits);
    ShrFits(raw, 1 + f.exponentBits, f.mantissaBits);
    ShrFits(high, 1, f.exponentBits);
  }

  // ------------------------------------------------------------------------- values

  predicate IsFinite(f: Format, x: Fields) {
    x.exponent < f.MaxExponent()
  }

  /** The significand, with the leading one a normal number leaves out. */
  function Significand(f: Format, x: Fields): nat {
    if x.exponent == 0 then x.mantissa else Pow2(f.mantissaBits) + x.mantissa
  }

  /** The least exponent of the format's last place, in units of 2^-1074, which is the last
  place of the smallest binary64. */
  function LastPlace(f: Format): int
    requires f.exponentBits > 0
  {
    1075 - f.Bias() - f.mantissaBits
  }

  function Places(x: Fields): nat {
    if x.exponent == 0 then 0 else x.exponent - 1
  }

  predicate IsBinary(f: Format) {
    f.exponentBits > 0 && LastPlace(f) >= 0
  }

  /** The magnitude of a finite number, in units of 2^-1074. */
  function Magnitude(f: Format, x: Fields): nat
    requires IsBinary(f)
  {
    Shl(Significand(f, x), LastPlace(f) + Places(x))
  }

  /** Two finite patterns for the same number; the signs of zeros are told apart. */
  predicate SameNumber(f: Format, x: Fields, g: Format, y: Fields)
    requires IsBinary(f) && IsBinary(g)
  {
    x.sign == y.sign && Magnitude(f, x) == Magnitude(g, y)
  }

  lemma Biases(f: Format)
    requires IsSmaller(f)
    ensures f.Bias() <= 511 && LastPlace(f) >= 513 && f.MaxExponent() == 2 * f.Bias() + 1 && IsBinary(f)
  {
    Pow2Grows(f.exponentBits - 1, 9);
  }

  lemma BiasRange(f: Format)
    requires IsSmaller(f)
    ensures 1 <= f.Bias() <= 511 && f.MaxExponent() == 2 * f.Bias() + 1
  {
    Biases(f);
  }

  lemma DoubleFacts()
    ensures Double.Bias() == 1023 && LastPlace(Double) == 0 && Double.MaxExponent() == 2047
    ensures IsBinary(Double)
  {
    assert Pow2(10) == 1024;
    assert Pow2(11) == 2048;
  }

  // ---------------------------------------------------------------------- narrowing

  /** Shifting right by `places`, when nothing falls off. */
  function Shifted(n: nat, places: nat): Option<nat> {
    if Low(n, places) == 0 then Some(Shr(n, places)) else None
  }

  /** The fields of the narrow pattern, or None where narrowing would have to round. */
  function NarrowFields(f: Format, x: Fields): Option<Fields>
    requires IsSmaller(f)
  {
    var drop := 52 - f.mantissaBits;
    if x.exponent == 2047 then
      match Shifted(x.mantissa, drop) case Some(m) => Some(Fields(x.sign, f.MaxExponent(), m)) case None => None
    else if x.exponent == 0 then
      if x.mantissa == 0 then Some(Fields(x.sign, 0, 0)) else None
    else
      var unbiased, bias := x.exponent - 1023, f.Bias();
      if unbiased > bias then None
      else if unbiased >= 1 - bias then
        match Shifted(x.mantissa, drop) case Some(m) => Some(Fields(x.sign, unbiased + bias, m)) case None => None
      else
        var shift := (1 - bias) - unbiased;
        if shift > f.mantissaBits || drop + shift >= 64 then None
        else
          match Shifted(Pow2(DoubleBits) + x.mantissa, drop + shift) case Some(m) => Some(Fields(x.sign, 0, m)) case None => None
  }

  function Narrow(f: Format, raw: nat): Option<nat>
    requires IsSmaller(f)
  {
    match NarrowFields(f, Split(Double, raw)) case Some(x) => Some(Join(f, x)) case None => None
  }

  // ------------------------------------------------------------------------- proofs

  /** A number of `bits` significant bits at a place lies in one binade. */
  lemma InBinade(place: nat, bits: nat, significand: nat)
    requires Pow2(bits) <= significand < Pow2(bits + 1)
    ensures Pow2(place + bits) <= Shl(significand, place) < Pow2(place + bits + 1)
  {
    ShlFits(significand, bits, place);
    ShlFits(significand, bits + 1, place);
  }

  lemma BelowBinade(place: nat, bits: nat, significand: nat)
    requires 0 < significand < Pow2(bits)
    ensures Pow2(place) <= Shl(significand, place) < Pow2(place + bits)
  {
    ShlFits(significand, 0, place);
    ShlFits(significand, bits, place);
  }

  lemma BinadeUnique(i: nat, j: nat, v: nat)
    requires Pow2(i) <= v < Pow2(i + 1) && Pow2(j) <= v < Pow2(j + 1)
    ensures i == j
  {
    if i < j {
      Pow2Grows(i + 1, j);
    } else if j < i {
      Pow2Grows(j + 1, i);
    }
  }

  lemma BinadeOrder(i: nat, j: nat, v: nat)
    requires Pow2(i) <= v < Pow2(j)
    ensures i < j
  {
    if j <= i {
      Pow2Grows(j, i);
    }
  }

  /** Two numbers with a leading one are the same only in the same binade. */
  lemma SameBinade(place: nat, bits: nat, a: nat, other: nat, m: nat, b: nat)
    requires a < Pow2(bits) && b < Pow2(m) && Shl(Pow2(bits) + a, place) == Shl(Pow2(m) + b, other)
    ensures place + bits == other + m
  {
    InBinade(place, bits, Pow2(bits) + a);
    InBinade(other, m, Pow2(m) + b);
    BinadeUnique(place + bits, other + m, Shl(Pow2(m) + b, other));
  }

  /** A number without a leading one is in some lower binade, but above the last place. */
  lemma LowerBinade(place: nat, bits: nat, a: nat, last: nat, m: nat, b: nat)
    requires a < Pow2(bits) && b < Pow2(m) && Shl(Pow2(bits) + a, place) == Shl(b, last)
    ensures last <= place + bits < last + m
  {
    var v := Shl(b, last);
    InBinade(place, bits, Pow2(bits) + a);
    ShlOne(last);
    BelowBinade(last, m, b);
    BinadeOrder(place + bits, last + m, v);
    BinadeOrder(last, place + bits + 1, v);
  }

  lemma NormalIff(place: nat, d: nat, a: nat, other: nat, m: nat, b: nat)
    requires m <= d && a < Pow2(d) && b < Pow2(m)
    ensures Shl(Pow2(d) + a, place) == Shl(Pow2(m) + b, other) <==> place + d == other + m && a == Shl(b, d - m)
  {
    if Shl(Pow2(d) + a, place) == Shl(Pow2(m) + b, other) {
      SameBinade(place, d, a, other, m, b);
    }
    if place + d == other + m {
      SameNormal(place, d - m, m, a, b);
    }
  }

  lemma SubnormalIff(place: nat, d: nat, a: nat, last: nat, m: nat, b: nat)
    requires m <= d && a < Pow2(d) && b < Pow2(m)
    ensures Shl(Pow2(d) + a, place) == Shl(b, last)
       <==> d - m < last - place <= d && Pow2(d) + a == Shl(b, last - place)
  {
    if Shl(Pow2(d) + a, place) == Shl(b, last) {
      LowerBinade(place, d, a, last, m, b);
    }
    if last > place {
      ShlAgain(b, last - place, place);
      ShlOrders(Pow2(d) + a, Shl(b, last - place), place);
    }
  }

  lemma NormalDouble(x: Fields)
    requires x.exponent > 0
    ensures IsBinary(Double) && Magnitude(Double, x) == Shl(Pow2(DoubleBits) + x.mantissa, x.exponent - 1)
  {
    DoubleFacts();
  }

  /** A normal number of the narrow format is a normal double whose exponent differs by the
  biases and whose mantissa ends in noughts. */
  lemma NormalPair(f: Format, exponent: nat, mantissa: nat, y: Fields)
    requires IsSmaller(f) && mantissa < Pow2(DoubleBits) && FieldsFit(f, y) && exponent > 0 && y.exponent > 0
    ensures LastPlace(f) >= 0
    ensures Shl(Pow2(DoubleBits) + mantissa, exponent - 1) == Magnitude(f, y) <==>
              exponent == y.exponent + 1023 - f.Bias() && mantissa == Shl(y.mantissa, 52 - f.mantissaBits)
  {
    Biases(f);
    NormalIff(exponent - 1, DoubleBits, mantissa, LastPlace(f) + Places(y), f.mantissaBits, y.mantissa);
  }

  lemma SameNormal(place: nat, drop: nat, m: nat, a: nat, b: nat)
    ensures Shl(Pow2(m + drop) + a, place) == Shl(Pow2(m) + b, place + drop) <==> a == Shl(b, drop)
  {
    ShlAgain(Pow2(m) + b, drop, place);
    ShlOrders(Pow2(m + drop) + a, Shl(Pow2(m) + b, drop), place);
    ShlAdds(Pow2(m), b, drop);
    ShlPow2(m, drop);
  }

  /** A subnormal of the narrow format is a normal double whose leading one has been shifted
  into the mantissa. */
  lemma SubnormalPair(f: Format, exponent: nat, mantissa: nat, y: Fields)
    requires IsSmaller(f) && mantissa < Pow2(DoubleBits) && FieldsFit(f, y) && exponent > 0 && y.exponent == 0
    ensures LastPlace(f) >= 0
    ensures Shl(Pow2(DoubleBits) + mantissa, exponent - 1) == Magnitude(f, y) <==>
              var shift := 1024 - f.Bias() - exponent;
              1 <= shift <= f.mantissaBits && Pow2(DoubleBits) + mantissa == Shl(y.mantissa, 52 - f.mantissaBits + shift)
  {
    Biases(f);
    SubnormalIff(exponent - 1, DoubleBits, mantissa, LastPlace(f), f.mantissaBits, y.mantissa);
  }

  lemma AtLeastLastPlace(f: Format, y: Fields)
    requires IsBinary(f) && FieldsFit(f, y) && (y.exponent > 0 || y.mantissa > 0)
    ensures Magnitude(f, y) >= Pow2(LastPlace(f))
  {
    var c := LastPlace(f);
    if y.exponent > 0 {
      InBinade(c + y.exponent - 1, f.mantissaBits, Significand(f, y));
      Pow2Grows(c, c + y.exponent - 1 + f.mantissaBits);
    } else {
      BelowBinade(c, f.mantissaBits, y.mantissa);
    }
  }

  /** A subnormal double is below everything a narrow format has but zero. */
  lemma TinyPair(f: Format, x: Fields, y: Fields)
    requires IsSmaller(f) && FieldsFit(Double, x) && FieldsFit(f, y) && x.exponent == 0
    ensures IsBinary(Double) && LastPlace(f) >= 0
    ensures Magnitude(Double, x) == Magnitude(f, y) <==> x.mantissa == 0 && y.exponent == 0 && y.mantissa == 0
  {
    Biases(f);
    DoubleFacts();
    if y.exponent > 0 || y.mantissa > 0 {
      AtLeastLastPlace(f, y);
      Pow2Grows(DoubleBits, LastPlace(f));
    } else {
      ShlOne(LastPlace(f));
    }
  }

  /** Narrowing a finite double answers with exactly the fields that name the same number. */
  lemma NarrowFieldsExact(f: Format, x: Fields, y: Fields)
    requires IsSmaller(f) && FieldsFit(Double, x) && IsFinite(Double, x)
    ensures IsBinary(Double) && LastPlace(f) >= 0
    ensures NarrowFields(f, x) == Some(y) <==> FieldsFit(f, y) && IsFinite(f, y) && SameNumber(Double, x, f, y)
  {
    Biases(f);
    DoubleFacts();
    var drop := 52 - f.mantissaBits;
    if FieldsFit(f, y) && IsFinite(f, y) && SameNumber(Double, x, f, y) {
      NarrowFinds(f, x, y);
    } else if NarrowFields(f, x) == Some(y) {
      NarrowSound(f, x, y);
    }
  }

  lemma NarrowFinds(f: Format, x: Fields, y: Fields)
    requires IsSmaller(f) && FieldsFit(Double, x) && IsFinite(Double, x) && IsBinary(f) && IsBinary(Double)
    requires FieldsFit(f, y) && IsFinite(f, y) && SameNumber(Double, x, f, y)
    ensures NarrowFields(f, x) == Some(y)
  {
    DoubleFacts();
    if x.exponent == 0 {
      TinyPair(f, x, y);
    } else {
      NormalDouble(x);
      if y.exponent > 0 {
        FindsNormal(f, x, y);
      } else {
        FindsSubnormal(f, x, y);
      }
    }
  }

  lemma FindsNormal(f: Format, x: Fields, y: Fields)
    requires IsSmaller(f) && 0 < x.exponent < 2047 && x.mantissa < Pow2(DoubleBits) && x.sign == y.sign && IsBinary(f)
    requires FieldsFit(f, y) && IsFinite(f, y) && y.exponent > 0
    requires Shl(Pow2(DoubleBits) + x.mantissa, x.exponent - 1) == Magnitude(f, y)
    ensures NarrowFields(f, x) == Some(y)
  {
    BiasRange(f);
    NormalPair(f, x.exponent, x.mantissa, y);
    ShiftedBack(x.mantissa, 52 - f.mantissaBits, y.mantissa);
  }

  lemma FindsSubnormal(f: Format, x: Fields, y: Fields)
    requires IsSmaller(f) && 0 < x.exponent < 2047 && x.mantissa < Pow2(DoubleBits) && x.sign == y.sign && IsBinary(f)
    requires FieldsFit(f, y) && y.exponent == 0
    requires Shl(Pow2(DoubleBits) + x.mantissa, x.exponent - 1) == Magnitude(f, y)
    ensures NarrowFields(f, x) == Some(y)
  {
    SubnormalPair(f, x.exponent, x.mantissa, y);
    NarrowsToSubnormal(f, x, y.mantissa, 1024 - f.Bias() - x.exponent);
  }

  lemma NarrowsToSubnormal(f: Format, x: Fields, m: nat, shift: nat)
    requires IsSmaller(f) && 0 < x.exponent && x.exponent == 1024 - f.Bias() - shift
    requires 1 <= shift <= f.mantissaBits && Shl(m, 52 - f.mantissaBits + shift) == Pow2(DoubleBits) + x.mantissa
    ensures NarrowFields(f, x) == Some(Fields(x.sign, 0, m))
  {
    BiasRange(f);
    ShiftedBack(Pow2(DoubleBits) + x.mantissa, 52 - f.mantissaBits + shift, m);
  }

  lemma NarrowSound(f: Format, x: Fields, y: Fields)
    requires IsSmaller(f) && FieldsFit(Double, x) && IsFinite(Double, x) && IsBinary(f) && IsBinary(Double)
    requires NarrowFields(f, x) == Some(y)
    ensures FieldsFit(f, y) && IsFinite(f, y) && SameNumber(Double, x, f, y)
  {
    DoubleFacts();
    Biases(f);
    if x.exponent == 0 {
      TinyPair(f, x, y);
    } else {
      NormalDouble(x);
      if x.exponent - 1023 >= 1 - f.Bias() {
        NormalIsSound(f, x, y);
      } else {
        SubnormalIsSound(f, x, y);
      }
    }
  }

  lemma NormalIsSound(f: Format, x: Fields, y: Fields)
    requires IsSmaller(f) && x.mantissa < Pow2(DoubleBits) && 0 < x.exponent < 2047 && x.sign < 2 && IsBinary(f)
    requires NarrowFields(f, x) == Some(y) && x.exponent - 1023 >= 1 - f.Bias()
    ensures FieldsFit(f, y) && IsFinite(f, y) && x.sign == y.sign
    ensures Shl(Pow2(DoubleBits) + x.mantissa, x.exponent - 1) == Magnitude(f, y)
  {
    BiasRange(f);
    ShiftedBack(x.mantissa, 52 - f.mantissaBits, y.mantissa);
    ShlFits(y.mantissa, f.mantissaBits, 52 - f.mantissaBits);
    NormalPair(f, x.exponent, x.mantissa, y);
  }

  lemma SubnormalIsSound(f: Format, x: Fields, y: Fields)
    requires IsSmaller(f) && x.mantissa < Pow2(DoubleBits) && 0 < x.exponent < 2047 && x.sign < 2 && IsBinary(f)
    requires NarrowFields(f, x) == Some(y) && x.exponent - 1023 < 1 - f.Bias()
    ensures FieldsFit(f, y) && IsFinite(f, y) && x.sign == y.sign
    ensures Shl(Pow2(DoubleBits) + x.mantissa, x.exponent - 1) == Magnitude(f, y)
  {
    SubnormalNarrowed(f, x, y);
    ShiftedFits(x.mantissa, f.mantissaBits, 1024 - f.Bias() - x.exponent, y.mantissa);
    SubnormalPair(f, x.exponent, x.mantissa, y);
    BiasRange(f);
  }

  lemma SubnormalNarrowed(f: Format, x: Fields, y: Fields)
    requires IsSmaller(f) && x.mantissa < Pow2(DoubleBits) && 0 < x.exponent < 2047
    requires NarrowFields(f, x) == Some(y) && x.exponent - 1023 < 1 - f.Bias()
    ensures y.sign == x.sign && y.exponent == 0 && 1 <= 1024 - f.Bias() - x.exponent <= f.mantissaBits
    ensures Shl(y.mantissa, 52 - f.mantissaBits + 1024 - f.Bias() - x.exponent) == Pow2(DoubleBits) + x.mantissa
  {
    BiasRange(f);
    ShiftedBack(Pow2(DoubleBits) + x.mantissa, 52 - f.mantissaBits + 1024 - f.Bias() - x.exponent, y.mantissa);
  }

  lemma ShiftedFits(mantissa: nat, m: nat, shift: nat, n: nat)
    requires 1 <= shift <= m <= 51 && mantissa < Pow2(DoubleBits) && Shl(n, 52 - m + shift) == Pow2(DoubleBits) + mantissa
    ensures n < Pow2(m)
  {
    ShlFits(n, m - shift + 1, 52 - m + shift);
    Pow2Grows(m - shift + 1, m);
  }

  /** Narrowing a finite double gives a pattern exactly when the target has one for the same
  number, and gives that one. */
  lemma NarrowingIsExact(f: Format, raw: nat, p: nat)
    requires IsSmaller(f) && raw < Pow2(Double.Width()) && p < Pow2(f.Width()) && IsFinite(Double, Split(Double, raw))
    ensures IsBinary(Double) && LastPlace(f) >= 0
    ensures Narrow(f, raw) == Some(p) <==>
              IsFinite(f, Split(f, p)) && SameNumber(Double, Split(Double, raw), f, Split(f, p))
  {
    var x, y := Split(Double, raw), Split(f, p);
    JoinSplit(Double, raw);
    JoinSplit(f, p);
    NarrowFieldsExact(f, x, y);
    match NarrowFields(f, x)
    case Some(z) =>
      NarrowFieldsExact(f, x, z);
      SplitJoin(f, z);
    case None =>
  }

  /** An infinity narrows to the infinity of its sign. */
  lemma InfinityNarrowingIsExact(f: Format, raw: nat, p: nat)
    requires IsSmaller(f) && raw < Pow2(Double.Width()) && p < Pow2(f.Width())
    requires Split(Double, raw).exponent == 2047 && Split(Double, raw).mantissa == 0
    ensures Narrow(f, raw) == Some(p) <==> Split(f, p) == Fields(Split(Double, raw).sign, f.MaxExponent(), 0)
  {
    var x := Split(Double, raw);
    JoinSplit(Double, raw);
    JoinSplit(f, p);
    ShlOne(52 - f.mantissaBits);
    ShiftedBack(0, 52 - f.mantissaBits, 0);
    Pow2Strict(0, f.mantissaBits);
    SplitJoin(f, Fields(x.sign, f.MaxExponent(), 0));
  }

  // ------------------------------------------------------------------------ widening

  /** How many bits a positive number takes. */
  function BitLength(n: nat): (bits: nat)
    ensures n > 0 ==> bits > 0 && Pow2(bits - 1) <= n < Pow2(bits)
    ensures n == 0 ==> bits == 0
  {
    if n == 0 then 0 else if n == 1 then 1 else 1 + BitLength(n / 2)
  }

  /** The double that names the same number as a finite narrow pattern. */
  function Widen(f: Format, y: Fields): Fields
    requires IsSmaller(f) && FieldsFit(f, y)
  {
    if y.exponent > 0 then
      Fields(y.sign, Rebiased(f, y.exponent), Shl(y.mantissa, 52 - f.mantissaBits))
    else if y.mantissa == 0 then Fields(y.sign, 0, 0)
    else
      LeadingBit(f, y);
      Renormalized(f, y.sign, y.mantissa, BitLength(y.mantissa) - 1)
  }

  /** A subnormal's leading bit made the implicit one. */
  function Renormalized(f: Format, sign: nat, mantissa: nat, lead: nat): Fields
    requires IsSmaller(f) && lead < f.mantissaBits && Pow2(lead) <= mantissa
  {
    Fields(sign, Rebiased(f, lead + 1 - f.mantissaBits), Shl(mantissa - Pow2(lead), 52 - lead))
  }

  /** The double's exponent for the narrow format's. */
  function Rebiased(f: Format, exponent: int): nat
    requires IsSmaller(f) && exponent + f.mantissaBits > 0
  {
    Biases(f);
    exponent + 1023 - f.Bias()
  }

  lemma LeadingBit(f: Format, y: Fields)
    requires FieldsFit(f, y) && y.mantissa > 0
    ensures BitLength(y.mantissa) <= f.mantissaBits
  {
    BinadeOrder(BitLength(y.mantissa) - 1, f.mantissaBits, y.mantissa);
  }

  lemma WidenNormal(f: Format, y: Fields)
    requires IsSmaller(f) && FieldsFit(f, y) && IsFinite(f, y) && y.exponent > 0 && IsBinary(f) && IsBinary(Double)
    ensures var x := Widen(f, y); FieldsFit(Double, x) && IsFinite(Double, x) && SameNumber(Double, x, f, y)
  {
    Biases(f);
    DoubleFacts();
    ShlFits(y.mantissa, f.mantissaBits, 52 - f.mantissaBits);
    var x := Widen(f, y);
    NormalDouble(x);
    NormalPair(f, x.exponent, x.mantissa, y);
  }

  lemma WidenedSubnormal(lead: nat, mantissa: nat)
    requires lead <= 52 && Pow2(lead) <= mantissa < Pow2(lead + 1)
    ensures Shl(mantissa - Pow2(lead), 52 - lead) < Pow2(DoubleBits)
    ensures Pow2(DoubleBits) + Shl(mantissa - Pow2(lead), 52 - lead) == Shl(mantissa, 52 - lead)
  {
    ShlFits(mantissa - Pow2(lead), lead, 52 - lead);
    ShlAdds(Pow2(lead), mantissa - Pow2(lead), 52 - lead);
    ShlPow2(lead, 52 - lead);
  }

  lemma SubnormalWidens(f: Format, y: Fields, lead: nat)
    requires IsSmaller(f) && FieldsFit(f, y) && y.exponent == 0 && IsBinary(f)
    requires lead < f.mantissaBits && Pow2(lead) <= y.mantissa < Pow2(lead + 1)
    ensures var x := Renormalized(f, y.sign, y.mantissa, lead);
            && 0 < x.exponent < 2047 && x.mantissa < Pow2(DoubleBits) && x.sign == y.sign
            && Shl(Pow2(DoubleBits) + x.mantissa, x.exponent - 1) == Magnitude(f, y)
  {
    Biases(f);
    WidenedSubnormal(lead, y.mantissa);
    var x := Renormalized(f, y.sign, y.mantissa, lead);
    SubnormalPair(f, x.exponent, x.mantissa, y);
  }

  lemma WidenSubnormal(f: Format, y: Fields)
    requires IsSmaller(f) && FieldsFit(f, y) && y.exponent == 0 && y.mantissa > 0 && IsBinary(f) && IsBinary(Double)
    ensures var x := Widen(f, y); FieldsFit(Double, x) && IsFinite(Double, x) && SameNumber(Double, x, f, y)
  {
    LeadingBit(f, y);
    var lead := BitLength(y.mantissa) - 1;
    var x := Renormalized(f, y.sign, y.mantissa, lead);
    assert Widen(f, y) == x;
    SubnormalWidens(f, y, lead);
    IsNormalDouble(x, f, y);
  }

  lemma IsNormalDouble(x: Fields, f: Format, y: Fields)
    requires IsBinary(f) && IsBinary(Double) && 0 < x.exponent < 2047 && x.mantissa < Pow2(DoubleBits) && x.sign == y.sign < 2
    requires Shl(Pow2(DoubleBits) + x.mantissa, x.exponent - 1) == Magnitude(f, y)
    ensures FieldsFit(Double, x) && IsFinite(Double, x) && SameNumber(Double, x, f, y)
  {
    DoubleFacts();
    NormalDouble(x);
  }

  /** Every finite narrow pattern has a double for its number. */
  lemma WideningIsExact(f: Format, y: Fields)
    requires IsSmaller(f) && FieldsFit(f, y) && IsFinite(f, y)
    ensures IsBinary(Double) && LastPlace(f) >= 0
    ensures var x := Widen(f, y); FieldsFit(Double, x) && IsFinite(Double, x) && SameNumber(Double, x, f, y)
  {
    Biases(f);
    DoubleFacts();
    if y.exponent > 0 {
      WidenNormal(f, y);
    } else if y.mantissa > 0 {
      WidenSubnormal(f, y);
    } else {
      TinyPair(f, Widen(f, y), y);
    }
  }

  /** Narrowing undoes widening, for every finite pattern of the narrow format. */
  lemma NarrowingUndoesWidening(f: Format, p: nat)
    requires IsSmaller(f) && p < Pow2(f.Width()) && IsFinite(f, Split(f, p))
    ensures FieldsFit(f, Split(f, p)) && Narrow(f, Join(Double, Widen(f, Split(f, p)))) == Some(p)
  {
    var y := Split(f, p);
    JoinSplit(f, p);
    WideningIsExact(f, y);
    SplitJoin(Double, Widen(f, y));
    NarrowingIsExact(f, Join(Double, Widen(f, y)), p);
  }

  // ---------------------------------------------------------------------------- NaNs

  predicate IsNan(f: Format, x: Fields) {
    x.exponent == f.MaxExponent() && x.mantissa != 0
  }

  /** A NaN narrows to the top of its payload under its sign, unless a lower payload bit is set. */
  function NarrowNan(f: Format, raw: nat): Option<nat>
    requires f.mantissaBits <= 51
  {
    if Low(raw, 52 - f.mantissaBits) != 0 then None else Some(Join(f, NarrowedNan(f, Split(Double, raw))))
  }

  function NarrowedNan(f: Format, x: Fields): Fields
    requires f.mantissaBits <= 51
  {
    Fields(x.sign, f.MaxExponent(), Shr(x.mantissa, 52 - f.mantissaBits))
  }

  function WidenNan(f: Format, p: nat): nat
    requires f.mantissaBits <= 51
  {
    var y := Split(f, p);
    Join(Double, Fields(y.sign, 2047, Shl(y.mantissa, 52 - f.mantissaBits)))
  }

  lemma PayloadNarrows(f: Format, mantissa: nat)
    requires IsSmaller(f) && 0 < mantissa < Pow2(DoubleBits) && Low(mantissa, 52 - f.mantissaBits) == 0
    ensures var m := Shr(mantissa, 52 - f.mantissaBits);
            0 < m < Pow2(f.mantissaBits) && Shl(m, 52 - f.mantissaBits) == mantissa
  {
    var drop := 52 - f.mantissaBits;
    ShiftedBack(mantissa, drop, Shr(mantissa, drop));
    ShrFits(mantissa, f.mantissaBits, drop);
    ShlOne(drop);
  }

  lemma NanFieldsNarrow(f: Format, x: Fields)
    requires IsSmaller(f) && FieldsFit(Double, x) && IsNan(Double, x) && Low(x.mantissa, 52 - f.mantissaBits) == 0
    ensures var y := NarrowedNan(f, x);
            && FieldsFit(f, y) && IsNan(f, y)
            && x == Fields(y.sign, 2047, Shl(y.mantissa, 52 - f.mantissaBits))
  {
    DoubleFacts();
    PayloadNarrows(f, x.mantissa);
  }

  lemma NarrowsToWidened(f: Format, raw: nat)
    requires IsSmaller(f) && raw < Pow2(Double.Width()) && IsNan(Double, Split(Double, raw)) && NarrowNan(f, raw).Some?
    ensures var p := NarrowNan(f, raw).value; p < Pow2(f.Width()) && IsNan(f, Split(f, p)) && WidenNan(f, p) == raw
  {
    var x := Split(Double, raw);
    JoinSplit(Double, raw);
    LowMantissa(raw, 52 - f.mantissaBits);
    NarrowedWidens(f, x, NarrowedNan(f, x), raw);
  }

  lemma LowMantissa(raw: nat, drop: nat)
    requires drop <= DoubleBits
    ensures Low(Split(Double, raw).mantissa, drop) == Low(raw, drop)
  {
    LowOfLow(raw, DoubleBits, drop);
  }

  lemma NarrowedWidens(f: Format, x: Fields, y: Fields, raw: nat)
    requires IsSmaller(f) && FieldsFit(Double, x) && IsNan(Double, x) && Low(x.mantissa, 52 - f.mantissaBits) == 0
    requires y == NarrowedNan(f, x) && Join(Double, x) == raw
    ensures Join(f, y) < Pow2(f.Width()) && IsNan(f, Split(f, Join(f, y))) && WidenNan(f, Join(f, y)) == raw
  {
    NanFieldsNarrow(f, x);
    SplitJoin(f, y);
    WidensTo(f, Join(f, y), x, y, raw);
  }

  lemma WidensTo(f: Format, p: nat, x: Fields, y: Fields, raw: nat)
    requires f.mantissaBits <= 51 && Split(f, p) == y && Join(Double, x) == raw
    requires x == Fields(y.sign, 2047, Shl(y.mantissa, 52 - f.mantissaBits))
    ensures WidenNan(f, p) == raw
  {
  }

  /** The printer's widening of a NaN is undone by the reader's narrowing. */
  lemma NanRoundTrip(f: Format, p: nat)
    requires IsSmaller(f) && p < Pow2(f.Width()) && IsNan(f, Split(f, p))
    ensures WidenNan(f, p) < Pow2(Double.Width()) && IsNan(Double, Split(Double, WidenNan(f, p)))
    ensures NarrowNan(f, WidenNan(f, p)) == Some(p)
  {
    var drop, y := 52 - f.mantissaBits, Split(f, p);
    JoinSplit(f, p);
    ShlFits(y.mantissa, f.mantissaBits, drop);
    var x := Fields(y.sign, 2047, Shl(y.mantissa, drop));
    SplitJoin(Double, x);
    ShlOne(drop);
    ShlOrders(0, y.mantissa, drop);
    LowOfLow(WidenNan(f, p), DoubleBits, drop);
    ShiftedBack(x.mantissa, drop, y.mantissa);
  }

  /** A NaN double narrows exactly to the NaN it is the widening of. */
  lemma NanNarrowingIsExact(f: Format, raw: nat, p: nat)
    requires IsSmaller(f) && raw < Pow2(Double.Width()) && IsNan(Double, Split(Double, raw)) && p < Pow2(f.Width())
    ensures NarrowNan(f, raw) == Some(p) <==> IsNan(f, Split(f, p)) && WidenNan(f, p) == raw
  {
    if NarrowNan(f, raw).Some? {
      NarrowsToWidened(f, raw);
    }
    if IsNan(f, Split(f, p)) && WidenNan(f, p) == raw {
      NanRoundTrip(f, p);
    }
  }
}
