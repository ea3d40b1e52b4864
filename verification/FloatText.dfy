/** The hexadecimal text of the formats that are always printed in it. */
module FloatText {
  import opened Wrappers
  import opened Powers
  import opened Shifts

  datatype Form = H | R | K | L | M

  const ShortBits: nat := 16
  const WordBits: nat := 64
  const ExtendedBits: nat := 80
  const PairBits: nat := 128
  const ShortDigits: nat := 4
  const WordDigits: nat := 16

  datatype TextError = Malformed

  function Width(form: Form): nat {
    match form case H => ShortBits case R => ShortBits case K => ExtendedBits case L => PairBits case M => PairBits
  }

  function Digit(d: nat): char
    requires d < 16
  {
    if d < 10 then '0' + d as char else 'A' + (d - 10) as char
  }

  function DigitValue(c: char): Option<nat> {
    if '0' <= c <= '9' then Some((c - '0') as nat)
    else if 'A' <= c <= 'F' then Some((c - 'A') as nat + 10)
    else if 'a' <= c <= 'f' then Some((c - 'a') as nat + 10)
    else None
  }

  /** Upper-case digits, padded with noughts to a count. */
  function HexPadded(n: nat, count: nat): (s: string)
    ensures |s| == count
  {
    if count == 0 then "" else HexPadded(n / 16, count - 1) + [Digit(n % 16)]
  }

  /** Digits from the first on, in sixty-four bits that wrap. */
  function HexValue(digits: string): Option<nat> {
    if digits == "" then Some(0)
    else
      var n := |digits| - 1;
      match HexValue(digits[..n]) {
        case Some(high) =>
          (match DigitValue(digits[n]) case Some(d) => Some((high * 16 + d) % Pow2(WordBits)) case None => None)
        case None => None
      }
  }

  function ParseHexU64(digits: string): Result<nat, TextError> {
    if digits == "" then Err(Malformed)
    else match HexValue(digits) case Some(n) => Ok(n) case None => Err(Malformed)
  }

  method ParseHexDigits(digits: string) returns (r: Result<nat, TextError>)
    ensures r == ParseHexU64(digits)
  {
    if digits == "" {
      return Err(Malformed);
    }
    var value := 0;
    for i := 0 to |digits|
      invariant HexValue(digits[..i]) == Some(value)
    {
      assert digits[..i + 1][..i] == digits[..i];
      match DigitValue(digits[i])
      case Some(d) => value := (value * 16 + d) % Pow2(WordBits);
      case None =>
        NoneStays(digits, i + 1);
        return Err(Malformed);
    }
    assert digits[..|digits|] == digits;
    r := Ok(value);
  }

  lemma {:induction false} NoneStays(digits: string, i: nat)
    requires i <= |digits| && HexValue(digits[..i]).None?
    ensures HexValue(digits).None?
    decreases |digits|
  {
    if i < |digits| {
      assert digits[..|digits| - 1][..i] == digits[..i];
      NoneStays(digits[..|digits| - 1], i);
    } else {
      assert digits[..i] == digits;
    }
  }

  /** The first sixteen digits and the rest; a shorter literal is all high word. */
  function SplitHexPair(digits: string): Result<(nat, nat), TextError> {
    if |digits| >= 16 then
      var low :- ParseHexU64(digits[..16]);
      var high := match ParseHexU64(digits[16..]) case Ok(n) => n case Err(_) => 0;
      Ok((low, high))
    else
      var high :- ParseHexU64(digits);
      Ok((0, high))
  }

  function TwoWords(width: nat, low: nat, high: nat): nat {
    Low(Shl(high, WordBits) + Low(low, WordBits), width)
  }

  function ParseHexLiteral(form: Form, digits: string): Result<nat, TextError> {
    match form
    case H => var n :- ParseHexU64(digits); Ok(Low(n, ShortBits))
    case R => var n :- ParseHexU64(digits); Ok(Low(n, ShortBits))
    case K =>
      var split := if |digits| < 4 then |digits| else 4;
      var high :- ParseHexU64(digits[..split]);
      var low :- ParseHexU64(digits[split..]);
      Ok(TwoWords(ExtendedBits, low, high))
    case L => var words :- SplitHexPair(digits); Ok(TwoWords(PairBits, words.0, words.1))
    case M => var words :- SplitHexPair(digits); Ok(TwoWords(PairBits, words.0, words.1))
  }

  /** The digits after the form letter: the eighty-bit form high word first, the wider two
  low word first. */
  function HexText(form: Form, bits: nat): string {
    match form
    case H => HexPadded(bits, ShortDigits)
    case R => HexPadded(bits, ShortDigits)
    case K => HexPadded(Low(Shr(bits, WordBits), ShortBits), ShortDigits) + HexPadded(Low(bits, WordBits), WordDigits)
    case L => HexPadded(Low(bits, WordBits), WordDigits) + HexPadded(Shr(bits, WordBits), WordDigits)
    case M => HexPadded(Low(bits, WordBits), WordDigits) + HexPadded(Shr(bits, WordBits), WordDigits)
  }

  lemma {:induction false} PaddedValue(n: nat, count: nat)
    requires count <= 16 && n < Pow2(4 * count)
    ensures HexValue(HexPadded(n, count)) == Some(n)
  {
    if count > 0 {
      Pow2Add(4, 4 * (count - 1));
      assert Pow2(4) == 16;
      PaddedValue(n / 16, count - 1);
      Pow2Grows(4 * count, WordBits);
      ModUnique(n, Pow2(WordBits), 0, n);
      LastDigit(HexPadded(n / 16, count - 1), n);
    }
  }

  lemma LastDigit(s: string, n: nat)
    requires HexValue(s) == Some(n / 16)
    ensures HexValue(s + [Digit(n % 16)]) == Some(n % Pow2(WordBits))
  {
    assert (s + [Digit(n % 16)])[..|s|] == s;
    assert DigitValue(Digit(n % 16)) == Some(n % 16);
  }

  lemma LowAll(n: nat, k: nat)
    requires n < Pow2(k)
    ensures Low(n, k) == n
  {
    ShlOne(k);
    HighAndLowUnique(0, n, k);
  }

  lemma WordsFit(bits: nat, width: nat)
    requires WordBits <= width && bits < Pow2(width)
    ensures Shr(bits, WordBits) < Pow2(width - WordBits) && Low(bits, WordBits) < Pow2(WordBits)
    ensures TwoWords(width, Low(bits, WordBits), Shr(bits, WordBits)) == bits
  {
    HighAndLow(bits, WordBits);
    ShrFits(bits, width - WordBits, WordBits);
    LowAll(Low(bits, WordBits), WordBits);
    LowAll(bits, width);
  }

  lemma ParsesPadded(n: nat, count: nat)
    requires 0 < count <= 16 && n < Pow2(4 * count)
    ensures ParseHexU64(HexPadded(n, count)) == Ok(n)
  {
    PaddedValue(n, count);
  }

  lemma ShortReadsBack(form: Form, bits: nat)
    requires bits < Pow2(ShortBits) && (form.H? || form.R?)
    ensures ParseHexLiteral(form, HexText(form, bits)) == Ok(bits)
  {
    ParsesPadded(bits, ShortDigits);
    LowAll(bits, ShortBits);
  }

  lemma PairParses(a: string, b: string, low: nat, high: nat)
    requires |a| == |b| == 16 && ParseHexU64(a) == Ok(low) && ParseHexU64(b) == Ok(high)
    ensures SplitHexPair(a + b) == Ok((low, high))
  {
    assert (a + b)[..16] == a && (a + b)[16..] == b;
  }

  lemma ExtendedReadsBack(bits: nat)
    requires bits < Pow2(ExtendedBits)
    ensures ParseHexLiteral(K, HexText(K, bits)) == Ok(bits)
  {
    var high, low, text := Shr(bits, WordBits), Low(bits, WordBits), HexText(K, bits);
    WordsFit(bits, ExtendedBits);
    LowAll(high, ShortBits);
    ParsesPadded(low, WordDigits);
    ParsesPadded(high, ShortDigits);
    assert text[..4] == HexPadded(high, ShortDigits) && text[4..] == HexPadded(low, WordDigits);
  }

  lemma PairReadsBack(form: Form, bits: nat)
    requires bits < Pow2(PairBits) && (form.L? || form.M?)
    ensures ParseHexLiteral(form, HexText(form, bits)) == Ok(bits)
  {
    var high, low := Shr(bits, WordBits), Low(bits, WordBits);
    WordsFit(bits, PairBits);
    ParsesPadded(low, WordDigits);
    ParsesPadded(high, WordDigits);
    PairParses(HexPadded(low, WordDigits), HexPadded(high, WordDigits), low, high);
  }

  /** Reading the text of any pattern, in any of the five forms, gives the pattern. */
  lemma HexTextReadsBack(form: Form, bits: nat)
    requires bits < Pow2(Width(form))
    ensures ParseHexLiteral(form, HexText(form, bits)) == Ok(bits)
  {
    match form
    case H => ShortReadsBack(form, bits);
    case R => ShortReadsBack(form, bits);
    case K => ExtendedReadsBack(bits);
    case L => PairReadsBack(form, bits);
    case M => PairReadsBack(form, bits);
  }
}
