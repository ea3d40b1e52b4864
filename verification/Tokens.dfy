/** The tokens of textual IR, as a function of the input and a place in it. */
module Tokens {
  import opened Wrappers

  type byte = x: int | 0 <= x < 256

  function Code(c: char): byte
    requires c as int < 256
  {
    c as int
  }

  datatype Token =
    | LocalName(name: seq<byte>)
    | LocalNumber(number: nat)
    | GlobalName(name: seq<byte>)
    | GlobalNumber(number: nat)
    | ComdatName(name: seq<byte>)
    | MetadataName(name: seq<byte>)
    | MetadataNumber(number: nat)
    | SummaryNumber(number: nat)
    | MetadataString(text: seq<byte>)
    | Exclaim
    | AttributeGroup(number: nat)
    | DebugRecord(name: seq<byte>)
    | Label(name: seq<byte>)
    | LabelNumber(number: nat)
    | Word(name: seq<byte>)
    | IntType(bits: nat)
    | IntegerLiteral(negative: bool, digits: seq<byte>)
    | FloatLiteral(negative: bool, digits: seq<byte>)
    | HexFloat(form: Option<byte>, digits: seq<byte>)
    | Quoted(text: seq<byte>)
    | ByteString(text: seq<byte>)
    | Punctuation(sign: byte)
    | Ellipsis
    | Eof

  datatype LexError =
    | UnterminatedComment | UnterminatedString | UnterminatedEscape | NotText | NulInName | NoName | NumberTooBig
    | NoHexDigits | NoSummaryNumber | NoGroupNumber | TypeTooWide | UnexpectedByte

  /** What was read and where it ends. */
  type Lexed<T> = Result<(T, nat), LexError>

  predicate Ends<T>(r: Lexed<T>, from: nat, to: nat) {
    r.Ok? ==> from <= r.value.1 <= to
  }

  // ------------------------------------------------------------------------- bytes

  predicate IsDigit(b: byte) {
    Code('0') <= b <= Code('9')
  }

  predicate IsLetter(b: byte) {
    Code('a') <= b <= Code('z') || Code('A') <= b <= Code('Z')
  }

  predicate IsNameStart(b: byte) {
    IsLetter(b) || b == Code('_') || b == Code('.') || b == Code('$')
  }

  predicate IsNameByte(b: byte) {
    IsNameStart(b) || IsDigit(b)
  }

  predicate IsLabelByte(b: byte) {
    IsNameByte(b) || b == Code('-')
  }

  function HexValue(b: byte): Option<nat> {
    if IsDigit(b) then Some(b - Code('0'))
    else if Code('a') <= b <= Code('f') then Some(b - Code('a') + 10)
    else if Code('A') <= b <= Code('F') then Some(b - Code('A') + 10)
    else None
  }

  predicate IsHexDigit(b: byte) {
    HexValue(b).Some?
  }

  predicate IsBlank(b: byte) {
    b == Code(' ') || b == Code('\t') || b == Code('\r') || b == Code('\n')
  }

  predicate NotNewline(b: byte) {
    b != Code('\n')
  }

  predicate IsPunctuation(b: byte) {
    b == Code(',') || b == Code('=') || b == Code('*') || b == Code('(') || b == Code(')') || b == Code('[')
    || b == Code(']') || b == Code('{') || b == Code('}') || b == Code('<') || b == Code('>') || b == Code('|')
    || b == Code(':')
  }

  /** Whether there is a byte at `i` and it satisfies the predicate. */
  predicate Has(s: seq<byte>, i: nat, p: byte -> bool) {
    i < |s| && p(s[i])
  }

  predicate HasByte(s: seq<byte>, i: nat, b: byte) {
    i < |s| && s[i] == b
  }

  /** Where the run of bytes that satisfy the predicate ends. */
  function RunEnd(p: byte -> bool, s: seq<byte>, at: nat): (end: nat)
    requires at <= |s|
    ensures at <= end <= |s|
    ensures forall i :: at <= i < end ==> p(s[i])
    ensures !Has(s, end, p)
    decreases |s| - at
  {
    if Has(s, at, p) then RunEnd(p, s, at + 1) else at
  }

  // ------------------------------------------------------------------------ trivia

  function CommentEnd(s: seq<byte>, at: nat): (end: Option<nat>)
    requires at <= |s|
    ensures end.Some? ==> at <= end.value <= |s|
    decreases |s| - at
  {
    if at == |s| then None
    else if s[at] == Code('*') && HasByte(s, at + 1, Code('/')) then Some(at + 2)
    else CommentEnd(s, at + 1)
  }

  predicate StartsComment(s: seq<byte>, at: nat) {
    HasByte(s, at, Code('/')) && HasByte(s, at + 1, Code('*'))
  }

  /** Where the blanks and comments end. */
  function TriviaEnd(s: seq<byte>, at: nat): (end: Result<nat, LexError>)
    requires at <= |s|
    ensures end.Ok? ==> at <= end.value <= |s|
    decreases |s| - at
  {
    if at == |s| then Ok(at)
    else if IsBlank(s[at]) then TriviaEnd(s, at + 1)
    else if StartsComment(s, at) then
      match CommentEnd(s, at + 2) case Some(end) => TriviaEnd(s, end) case None => Err(UnterminatedComment)
    else if s[at] == Code(';') then TriviaEnd(s, RunEnd(NotNewline, s, at))
    else Ok(at)
  }

  // ----------------------------------------------------------------------- strings

  function Prepend(out: seq<byte>, r: Lexed<seq<byte>>): Lexed<seq<byte>> {
    match r case Ok((rest, end)) => Ok((out + rest, end)) case Err(e) => Err(e)
  }

  function HexPair(high: byte, low: byte): byte
    requires IsHexDigit(high) && IsHexDigit(low)
  {
    HexValue(high).value * 16 + HexValue(low).value
  }

  /** A string after its opening quote. A backslash before anything else is literal. */
  function QuotedBody(s: seq<byte>, at: nat): (r: Lexed<seq<byte>>)
    requires at <= |s|
    ensures Ends(r, at + 1, |s|)
    decreases |s| - at
  {
    if at == |s| then Err(UnterminatedString)
    else if s[at] == Code('"') then Ok(([], at + 1))
    else if s[at] != Code('\\') then Prepend([s[at]], QuotedBody(s, at + 1))
    else if at + 1 == |s| then Err(UnterminatedEscape)
    else if s[at + 1] == Code('\\') then Prepend([Code('\\')], QuotedBody(s, at + 2))
    else if at + 2 == |s| then Err(UnterminatedEscape)
    else if IsHexDigit(s[at + 1]) && IsHexDigit(s[at + 2]) then
      Prepend([HexPair(s[at + 1], s[at + 2])], QuotedBody(s, at + 3))
    else Prepend([Code('\\')], QuotedBody(s, at + 1))
  }

  predicate IsEscapable(b: byte) {
    IsLabelByte(b) || b == Code('\\')
  }

  /** A metadata name with its two-digit escapes read, and where it ends. */
  function EscapedName(s: seq<byte>, at: nat): (r: (seq<byte>, nat))
    requires at <= |s|
    ensures at <= r.1 <= |s| && (Has(s, at, IsEscapable) ==> r.1 > at)
    decreases |s| - at
  {
    if !Has(s, at, IsEscapable) then ([], at)
    else if s[at] == Code('\\') && Has(s, at + 1, IsHexDigit) && Has(s, at + 2, IsHexDigit) then
      var (rest, end) := EscapedName(s, at + 3);
      ([HexPair(s[at + 1], s[at + 2])] + rest, end)
    else
      var (rest, end) := EscapedName(s, at + 1);
      ([s[at]] + rest, end)
  }

  // ------------------------------------------------------------------------ numbers

  function DigitValue(b: byte): nat {
    if IsDigit(b) then b - Code('0') else 0
  }

  /** The value of decimal digits. */
  function Decimal(digits: seq<byte>): nat {
    if digits == [] then 0 else Decimal(digits[..|digits| - 1]) * 10 + DigitValue(digits[|digits| - 1])
  }

  /** Digits as a number of thirty-two bits. */
  function Word32(digits: seq<byte>): Result<nat, LexError> {
    if Decimal(digits) < 0x1_0000_0000 then Ok(Decimal(digits)) else Err(NumberTooBig)
  }

  function Number(s: seq<byte>, at: nat): (r: Lexed<nat>)
    requires Has(s, at, IsDigit)
    ensures Ends(r, at + 1, |s|)
  {
    var end := RunEnd(IsDigit, s, at);
    match Word32(s[at..end]) case Ok(n) => Ok((n, end)) case Err(e) => Err(e)
  }

  predicate IsHexForm(b: byte) {
    b == Code('H') || b == Code('K') || b == Code('L') || b == Code('M') || b == Code('R')
  }

  predicate IsSign(b: byte) {
    b == Code('+') || b == Code('-')
  }

  predicate IsExponent(b: byte) {
    b == Code('e') || b == Code('E')
  }

  function FractionEnd(s: seq<byte>, at: nat): (end: nat)
    requires at <= |s|
    ensures at <= end <= |s|
  {
    if HasByte(s, at, Code('.')) then RunEnd(IsDigit, s, at + 1) else at
  }

  function ExponentEnd(s: seq<byte>, at: nat): (end: nat)
    requires at <= |s|
    ensures at <= end <= |s|
  {
    if !Has(s, at, IsExponent) then at
    else if Has(s, at + 1, IsDigit) then RunEnd(IsDigit, s, at + 1)
    else if Has(s, at + 1, IsSign) && Has(s, at + 2, IsDigit) then RunEnd(IsDigit, s, at + 2)
    else at
  }

  predicate StartsHex(s: seq<byte>, at: nat) {
    HasByte(s, at, Code('0')) && (HasByte(s, at + 1, Code('x')) || HasByte(s, at + 1, Code('X')))
  }

  /** A hexadecimal literal after its `0x`. */
  function HexLiteral(s: seq<byte>, at: nat): (r: Lexed<Token>)
    requires at <= |s|
    ensures Ends(r, at + 1, |s|) && (r.Ok? ==> r.value.0 != Eof)
  {
    var form := if Has(s, at, IsHexForm) then Some(s[at]) else None;
    var digits := if form.Some? then at + 1 else at;
    var end := RunEnd(IsHexDigit, s, digits);
    if end == digits then Err(NoHexDigits) else Ok((HexFloat(form, s[digits..end]), end))
  }

  /** Digits and what may follow them, the sign having been read. */
  function Unsigned(negative: bool, s: seq<byte>, at: nat): (r: Lexed<Token>)
    requires at <= |s|
    ensures Ends(r, at, |s|) && (r.Ok? ==> r.value.0 != Eof)
    ensures r.Ok? && Has(s, at, IsDigit) ==> r.value.1 > at
  {
    var whole := RunEnd(IsDigit, s, at);
    var end := ExponentEnd(s, FractionEnd(s, whole));
    if end > whole then Ok((FloatLiteral(negative, s[at..end]), end))
    else if !negative && HasByte(s, end, Code(':')) && end > at then
      match Word32(s[at..end]) case Ok(n) => Ok((LabelNumber(n), end + 1)) case Err(e) => Err(e)
    else Ok((IntegerLiteral(negative, s[at..end]), end))
  }

  function Numeric(s: seq<byte>, at: nat): (r: Lexed<Token>)
    requires Has(s, at, IsDigit) || Has(s, at, IsSign)
    ensures Ends(r, at + 1, |s|) && (r.Ok? ==> r.value.0 != Eof)
  {
    var start := if IsSign(s[at]) then at + 1 else at;
    if StartsHex(s, start) then HexLiteral(s, start + 2) else Unsigned(s[at] == Code('-'), s, start)
  }

  // ------------------------------------------------------------------- names and words

  /** A run of label bytes that a colon closes. */
  function LabelAhead(s: seq<byte>, at: nat): (r: Option<seq<byte>>)
    requires at <= |s|
    ensures r.Some? ==> |r.value| > 0 && at + |r.value| + 1 <= |s|
  {
    var end := RunEnd(IsLabelByte, s, at);
    if end > at && HasByte(s, end, Code(':')) then Some(s[at..end]) else None
  }

  predicate AllDigits(s: seq<byte>) {
    forall i :: 0 <= i < |s| ==> IsDigit(s[i])
  }

  /** A keyword, or an integer type of at most 2^23 bits. */
  function WordToken(word: seq<byte>): (r: Result<Token, LexError>)
    ensures r.Ok? ==> r.value != Eof
  {
    if HasByte(word, 0, Code('i')) && |word| > 1 && AllDigits(word[1..]) then
      if Decimal(word[1..]) <= 0x80_0000 then Ok(IntType(Decimal(word[1..]))) else Err(TypeTooWide)
    else Ok(Word(word))
  }

  /** A label up to its colon, or without one the word before the first hyphen. */
  function WordOrLabel(s: seq<byte>, at: nat): (r: Lexed<Token>)
    requires Has(s, at, IsNameStart)
    ensures Ends(r, at + 1, |s|) && (r.Ok? ==> r.value.0 != Eof)
  {
    var run, end := RunEnd(IsLabelByte, s, at), RunEnd(IsNameByte, s, at);
    if HasByte(s, run, Code(':')) then Ok((Label(s[at..run]), run + 1))
    else match WordToken(s[at..end]) case Ok(token) => Ok((token, end)) case Err(e) => Err(e)
  }

  datatype Sigil = Local | Global | Comdat

  function Named(sigil: Sigil, name: seq<byte>): Token {
    match sigil case Local => LocalName(name) case Global => GlobalName(name) case Comdat => ComdatName(name)
  }

  function Numbered(sigil: Sigil, number: nat): Token {
    match sigil case Local => LocalNumber(number) case Global => GlobalNumber(number) case Comdat => ComdatName([])
  }

  /** A name has to be valid UTF-8, which `isText` says of bytes, and hold no NUL. */
  function NameOf(isText: seq<byte> -> bool, name: seq<byte>): Result<seq<byte>, LexError> {
    if !isText(name) then Err(NotText) else if 0 in name then Err(NulInName) else Ok(name)
  }

  /** The token a sigil begins, by the byte after it: a digit, a quote or the start of a word. */
  function PrefixedName(isText: seq<byte> -> bool, sigil: Sigil, s: seq<byte>, at: nat): (r: Lexed<Token>)
    requires at <= |s|
    ensures Ends(r, at + 1, |s|) && (r.Ok? ==> r.value.0 != Eof)
  {
    if HasByte(s, at, Code('"')) then
      var (text, end) :- QuotedBody(s, at + 1);
      var name :- NameOf(isText, text);
      Ok((Named(sigil, name), end))
    else if Has(s, at, IsDigit) then
      var (value, end) :- Number(s, at);
      if HasByte(s, end, Code(':')) then Ok((LabelNumber(value), end + 1)) else Ok((Numbered(sigil, value), end))
    else if Has(s, at, IsLabelByte) then
      var end := RunEnd(IsLabelByte, s, at);
      Ok((Named(sigil, s[at..end]), end))
    else Err(NoName)
  }

  /** What follows an exclamation mark. */
  function AfterExclaim(s: seq<byte>, at: nat): (r: Lexed<Token>)
    requires at <= |s|
    ensures Ends(r, at, |s|) && (r.Ok? ==> r.value.0 != Eof)
  {
    if HasByte(s, at, Code('"')) then
      var (text, end) :- QuotedBody(s, at + 1);
      Ok((MetadataString(text), end))
    else if Has(s, at, IsDigit) then
      var (value, end) :- Number(s, at);
      Ok((MetadataNumber(value), end))
    else if Has(s, at, IsNameByte) || HasByte(s, at, Code('\\')) then
      var (name, end) := EscapedName(s, at);
      Ok((MetadataName(name), end))
    else Ok((Exclaim, at))
  }

  function AfterHash(s: seq<byte>, at: nat): (r: Lexed<Token>)
    requires at <= |s|
    ensures Ends(r, at, |s|) && (r.Ok? ==> r.value.0 != Eof)
  {
    if Has(s, at, IsDigit) then
      var (value, end) :- Number(s, at);
      Ok((AttributeGroup(value), end))
    else if Has(s, at, IsNameByte) then
      var end := RunEnd(IsLabelByte, s, at);
      Ok((DebugRecord(s[at..end]), end))
    else Err(NoGroupNumber)
  }

  function AfterCaret(s: seq<byte>, at: nat): (r: Lexed<Token>)
    requires at <= |s|
    ensures Ends(r, at, |s|) && (r.Ok? ==> r.value.0 != Eof)
  {
    if Has(s, at, IsDigit) then
      var (value, end) :- Number(s, at);
      Ok((SummaryNumber(value), end))
    else Err(NoSummaryNumber)
  }

  /** A quoted string after its opening quote, or a quoted label. */
  function QuotedOrLabel(isText: seq<byte> -> bool, s: seq<byte>, at: nat): (r: Lexed<Token>)
    requires at <= |s|
    ensures Ends(r, at, |s|) && (r.Ok? ==> r.value.0 != Eof)
  {
    var (text, end) :- QuotedBody(s, at);
    if !HasByte(s, end, Code(':')) then Ok((Quoted(text), end))
    else
      var name :- NameOf(isText, text);
      Ok((Label(name), end + 1))
  }

  /** A comdat's name, or a label that starts with a dollar: the colon tells them apart. */
  function ComdatOrLabel(isText: seq<byte> -> bool, s: seq<byte>, at: nat): (r: Lexed<Token>)
    requires at < |s|
    ensures Ends(r, at + 1, |s|) && (r.Ok? ==> r.value.0 != Eof)
  {
    match LabelAhead(s, at)
    case Some(name) => Ok((Label(name), at + |name| + 1))
    case None => PrefixedName(isText, Comdat, s, at + 1)
  }

  predicate StartsEllipsis(s: seq<byte>, at: nat) {
    HasByte(s, at, Code('.')) && HasByte(s, at + 1, Code('.')) && HasByte(s, at + 2, Code('.'))
  }

  /** The tokens a byte of their own announces. */
  predicate IsAnnouncer(b: byte) {
    b == Code('%') || b == Code('@') || b == Code('$') || b == Code('!') || b == Code('^') || b == Code('#')
    || b == Code('"')
  }

  function Announced(isText: seq<byte> -> bool, s: seq<byte>, at: nat): (r: Lexed<Token>)
    requires Has(s, at, IsAnnouncer)
    ensures Ends(r, at + 1, |s|) && (r.Ok? ==> r.value.0 != Eof)
  {
    var b := s[at];
    if b == Code('%') then PrefixedName(isText, Local, s, at + 1)
    else if b == Code('@') then PrefixedName(isText, Global, s, at + 1)
    else if b == Code('$') then ComdatOrLabel(isText, s, at)
    else if b == Code('!') then AfterExclaim(s, at + 1)
    else if b == Code('^') then AfterCaret(s, at + 1)
    else if b == Code('#') then AfterHash(s, at + 1)
    else QuotedOrLabel(isText, s, at + 1)
  }

  function Unannounced(s: seq<byte>, at: nat): (r: Lexed<Token>)
    requires at < |s|
    ensures Ends(r, at + 1, |s|) && (r.Ok? ==> r.value.0 != Eof)
  {
    var b := s[at];
    if b == Code('c') && HasByte(s, at + 1, Code('"')) then
      var (text, end) :- QuotedBody(s, at + 2);
      Ok((ByteString(text), end))
    else if IsPunctuation(b) then Ok((Punctuation(b), at + 1))
    else if StartsEllipsis(s, at) then Ok((Ellipsis, at + 3))
    else if b == Code('-') then
      match LabelAhead(s, at) case Some(name) => Ok((Label(name), at + |name| + 1)) case None => Numeric(s, at)
    else if IsDigit(b) || b == Code('+') then Numeric(s, at)
    else if IsNameStart(b) then WordOrLabel(s, at)
    else Err(UnexpectedByte)
  }

  /** The token at a place where no blank or comment is. */
  function TokenAt(isText: seq<byte> -> bool, s: seq<byte>, at: nat): (r: Lexed<Token>)
    requires at <= |s|
    ensures Ends(r, at, |s|)
    ensures r.Ok? ==> (r.value.0 == Eof <==> at == |s|) && (at < |s| ==> r.value.1 > at)
  {
    if at == |s| then Ok((Eof, at)) else if Has(s, at, IsAnnouncer) then Announced(isText, s, at) else Unannounced(s, at)
  }
}
