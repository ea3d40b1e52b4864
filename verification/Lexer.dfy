/** The lexer, which keeps its place in the input as it goes, looks ahead and goes back. */
module Lexing {
  import opened Wrappers
  import opened Tokens

  datatype Position = Position(line: nat, column: nat)

  datatype Spanned = Spanned(token: Token, position: Position)

  /** How many newlines the first `n` bytes hold. */
  function Newlines(bytes: seq<byte>, n: nat): nat
    requires n <= |bytes|
  {
    if n == 0 then 0 else Newlines(bytes, n - 1) + if NotNewline(bytes[n - 1]) then 0 else 1
  }

  /** Where the line that byte `n` is on starts: after the last newline before it. */
  function LineStart(bytes: seq<byte>, n: nat): (start: nat)
    requires n <= |bytes|
    ensures start <= n
  {
    if n == 0 then 0 else if !NotNewline(bytes[n - 1]) then n else LineStart(bytes, n - 1)
  }

  lemma {:induction false} LineStartsAfterNewline(bytes: seq<byte>, n: nat)
    requires n <= |bytes|
    ensures var start := LineStart(bytes, n);
            && (start > 0 ==> !NotNewline(bytes[start - 1]))
            && forall i :: start <= i < n ==> NotNewline(bytes[i])
  {
    if n > 0 && NotNewline(bytes[n - 1]) {
      LineStartsAfterNewline(bytes, n - 1);
    }
  }

  function PlaceOf(bytes: seq<byte>, n: nat): Position
    requires n <= |bytes|
  {
    Position(1 + Newlines(bytes, n), n - LineStart(bytes, n) + 1)
  }

  /** Going back over bytes with no newline among them changes no line. */
  lemma {:induction false} SameLine(bytes: seq<byte>, from: nat, to: nat)
    requires from <= to <= |bytes| && forall i :: from <= i < to ==> IsLabelByte(bytes[i])
    ensures Newlines(bytes, from) == Newlines(bytes, to) && LineStart(bytes, from) == LineStart(bytes, to)
  {
    if from < to {
      SameLine(bytes, from, to - 1);
    }
  }

  /** What a step of the lexer answered, and where it stopped, are what the specification says. */
  predicate Agrees<T(==)>(spec: Lexed<T>, r: Result<T, LexError>, now: nat) {
    match spec case Ok((value, end)) => r == Ok(value) && now == end case Err(e) => r == Err(e)
  }

  /** The token after the blanks and comments at a place, with the line and column it has. */
  function SpannedAt(isText: seq<byte> -> bool, bytes: seq<byte>, at: nat): (r: Lexed<Spanned>)
    requires at <= |bytes|
    ensures r.Ok? ==> at <= r.value.1 <= |bytes| && (r.value.0.token == Eof || at < r.value.1)
  {
    var start :- TriviaEnd(bytes, at);
    var (token, end) :- TokenAt(isText, bytes, start);
    Ok((Spanned(token, PlaceOf(bytes, start)), end))
  }

  /** Every token from a place on, up to the end of the input or the first that is none. */
  function TokensFrom(isText: seq<byte> -> bool, bytes: seq<byte>, at: nat): Result<seq<Spanned>, LexError>
    requires at <= |bytes|
    decreases |bytes| - at
  {
    var (first, end) :- SpannedAt(isText, bytes, at);
    if first.token == Eof then Ok([first])
    else
      var rest :- TokensFrom(isText, bytes, end);
      Ok([first] + rest)
  }

  lemma PrependAgain(a: seq<byte>, b: seq<byte>, r: Lexed<seq<byte>>)
    ensures Prepend(a, Prepend(b, r)) == Prepend(a + b, r)
  {
    if r.Ok? {
      assert a + (b + r.value.0) == a + b + r.value.0;
    }
  }

  lemma Regroup(a: seq<byte>, b: seq<byte>, c: seq<byte>)
    ensures a + (b + c) == a + b + c
  {
  }

  lemma PrependNothing(r: Lexed<seq<byte>>)
    ensures Prepend([], r) == r
  {
    if r.Ok? {
      assert [] + r.value.0 == r.value.0;
    }
  }

  class Lexer {
    const bytes: seq<byte>
    const isText: seq<byte> -> bool
    var offset: nat
    var line: nat
    var lineStart: nat

    constructor (bytes: seq<byte>, isText: seq<byte> -> bool)
      ensures this.bytes == bytes && this.isText == isText && offset == 0 && Valid()
    {
      this.bytes, this.isText, offset, line, lineStart := bytes, isText, 0, 1, 0;
    }

    /** The line and where it starts are always those of the place in the input. */
    ghost predicate Valid()
      reads this
    {
      && offset <= |bytes|
      && line == 1 + Newlines(bytes, offset) && lineStart == LineStart(bytes, offset)
    }

    function Here(): Position
      reads this
      requires lineStart <= offset
    {
      Position(line, offset - lineStart + 1)
    }

    method Bump() returns (b: Option<byte>)
      requires Valid()
      modifies this
      ensures Valid()
      ensures if old(offset) == |bytes| then b.None? && offset == old(offset)
              else b == Some(bytes[old(offset)]) && offset == old(offset) + 1
    {
      if offset == |bytes| {
        return None;
      }
      b := Some(bytes[offset]);
      offset := offset + 1;
      if b.value == Code('\n') {
        line, lineStart := line + 1, offset;
      }
    }

    /** Moves back over label bytes. None of them ends a line, so line and line start stay true. */
    method RewindTo(to: nat)
      requires Valid() && to <= offset && forall i :: to <= i < offset ==> IsLabelByte(bytes[i])
      modifies this`offset
      ensures Valid() && offset == to
    {
      SameLine(bytes, to, offset);
      offset := to;
    }

    /** Takes the bytes that satisfy the predicate. */
    method TakeWhile(p: byte -> bool) returns (taken: seq<byte>)
      requires Valid()
      modifies this
      ensures Valid() && offset == RunEnd(p, bytes, old(offset)) && taken == bytes[old(offset)..offset]
    {
      var start := offset;
      while offset < |bytes| && p(bytes[offset])
        invariant Valid() && start <= offset
        invariant RunEnd(p, bytes, start) == RunEnd(p, bytes, offset)
        decreases |bytes| - offset
      {
        var _ := Bump();
      }
      taken := bytes[start..offset];
    }

    // ---------------------------------------------------------------------- trivia

    /** The rest of a comment, to past its end. */
    method SkipComment() returns (r: Result<(), LexError>)
      requires Valid()
      modifies this
      ensures Valid()
      ensures match CommentEnd(bytes, old(offset))
              case Some(end) => r == Ok(()) && offset == end
              case None => r == Err(UnterminatedComment)
    {
      ghost var start := offset;
      while true
        invariant Valid()
        invariant CommentEnd(bytes, start) == CommentEnd(bytes, offset)
        decreases |bytes| - offset
      {
        var b := Bump();
        if b.None? {
          return Err(UnterminatedComment);
        }
        if b.value == Code('*') && HasByte(bytes, offset, Code('/')) {
          var _ := Bump();
          return Ok(());
        }
      }
    }

    method SkipTrivia() returns (r: Result<(), LexError>)
      requires Valid()
      modifies this
      ensures Valid()
      ensures match TriviaEnd(bytes, old(offset))
              case Ok(end) => r == Ok(()) && offset == end
              case Err(e) => r == Err(e)
    {
      ghost var start := offset;
      while true
        invariant Valid()
        invariant TriviaEnd(bytes, start) == TriviaEnd(bytes, offset)
        decreases |bytes| - offset
      {
        if Has(bytes, offset, IsBlank) {
          var _ := Bump();
        } else if StartsComment(bytes, offset) {
          var _ := Bump();
          var _ := Bump();
          var _ :- SkipComment();
        } else if HasByte(bytes, offset, Code(';')) {
          var _ := TakeWhile(NotNewline);
        } else {
          return Ok(());
        }
      }
    }

    // --------------------------------------------------------------------- strings

    /** A quoted string, from its opening quote. */
    method QuotedBytes() returns (r: Result<seq<byte>, LexError>)
      requires Valid() && HasByte(bytes, offset, Code('"'))
      modifies this
      ensures Valid() && Agrees(QuotedBody(bytes, old(offset) + 1), r, offset)
    {
      var _ := Bump();
      ghost var start := offset;
      var out: seq<byte> := [];
      PrependNothing(QuotedBody(bytes, offset));
      while true
        invariant Valid()
        invariant QuotedBody(bytes, start) == Prepend(out, QuotedBody(bytes, offset))
        decreases |bytes| - offset
      {
        var next :- TakeQuotedByte();
        if next.None? {
          assert out + [] == out;
          return Ok(out);
        }
        PrependAgain(out, [next.value], QuotedBody(bytes, offset));
        out := out + [next.value];
      }
    }

    /** One byte of a string, or none at its closing quote. */
    method TakeQuotedByte() returns (r: Result<Option<byte>, LexError>)
      requires Valid()
      modifies this
      ensures Valid() && (r.Ok? ==> offset > old(offset))
      ensures QuotedBody(bytes, old(offset)) ==
              match r {
                case Ok(None) => Ok(([], offset))
                case Ok(Some(b)) => Prepend([b], QuotedBody(bytes, offset))
                case Err(e) => Err(e)
              }
    {
      var b := Bump();
      if b.None? {
        return Err(UnterminatedString);
      } else if b.value == Code('"') {
        return Ok(None);
      } else if b.value != Code('\\') {
        return Ok(b);
      } else if offset == |bytes| {
        return Err(UnterminatedEscape);
      } else if bytes[offset] == Code('\\') {
        b := Bump();
        return Ok(b);
      } else if offset + 1 == |bytes| {
        return Err(UnterminatedEscape);
      } else if IsHexDigit(bytes[offset]) && IsHexDigit(bytes[offset + 1]) {
        var high := Bump();
        var low := Bump();
        return Ok(Some(HexPair(high.value, low.value)));
      }
      r := Ok(b);
    }

    method TakeEscapedName() returns (name: seq<byte>)
      requires Valid()
      modifies this
      ensures Valid() && EscapedName(bytes, old(offset)) == (name, offset)
    {
      ghost var start := offset;
      name := [];
      while Has(bytes, offset, IsEscapable)
        invariant Valid()
        invariant EscapedName(bytes, start).0 == name + EscapedName(bytes, offset).0
        invariant EscapedName(bytes, start).1 == EscapedName(bytes, offset).1
        decreases |bytes| - offset
      {
        var b := TakeEscapedByte();
        Regroup(name, [b], EscapedName(bytes, offset).0);
        name := name + [b];
      }
      assert name + [] == name;
    }

    method TakeEscapedByte() returns (b: byte)
      requires Valid() && Has(bytes, offset, IsEscapable)
      modifies this
      ensures Valid() && offset > old(offset)
      ensures EscapedName(bytes, old(offset)) == ([b] + EscapedName(bytes, offset).0, EscapedName(bytes, offset).1)
    {
      b := bytes[offset];
      if b == Code('\\') && Has(bytes, offset + 1, IsHexDigit) && Has(bytes, offset + 2, IsHexDigit) {
        b := HexPair(bytes[offset + 1], bytes[offset + 2]);
        var _ := Bump();
        var _ := Bump();
      }
      var _ := Bump();
    }

    // --------------------------------------------------------------------- numbers

    method TakeNumber() returns (r: Result<nat, LexError>)
      requires Valid() && Has(bytes, offset, IsDigit)
      modifies this
      ensures Valid() && Agrees(Number(bytes, old(offset)), r, offset)
    {
      var digits := TakeWhile(IsDigit);
      r := Word32(digits);
    }

    method TakeHexLiteral() returns (r: Result<Token, LexError>)
      requires Valid()
      modifies this
      ensures Valid() && Agrees(HexLiteral(bytes, old(offset)), r, offset)
    {
      var form := None;
      if Has(bytes, offset, IsHexForm) {
        form := Bump();
      }
      var digits := TakeWhile(IsHexDigit);
      r := if digits == [] then Err(NoHexDigits) else Ok(HexFloat(form, digits));
    }

    method SkipFraction()
      requires Valid()
      modifies this
      ensures Valid() && offset == FractionEnd(bytes, old(offset))
    {
      if HasByte(bytes, offset, Code('.')) {
        var _ := Bump();
        var _ := TakeWhile(IsDigit);
      }
    }

    method SkipExponent()
      requires Valid()
      modifies this
      ensures Valid() && offset == ExponentEnd(bytes, old(offset))
    {
      if Has(bytes, offset, IsExponent)
         && (Has(bytes, offset + 1, IsDigit) || (Has(bytes, offset + 1, IsSign) && Has(bytes, offset + 2, IsDigit)))
      {
        var _ := Bump();
        if Has(bytes, offset, IsSign) {
          var _ := Bump();
        }
        var _ := TakeWhile(IsDigit);
      }
    }

    method TakeUnsigned(negative: bool) returns (r: Result<Token, LexError>)
      requires Valid()
      modifies this
      ensures Valid() && Agrees(Unsigned(negative, bytes, old(offset)), r, offset)
    {
      var start := offset;
      var _ := TakeWhile(IsDigit);
      var whole := offset;
      SkipFraction();
      SkipExponent();
      var digits := bytes[start..offset];
      if offset > whole {
        r := Ok(FloatLiteral(negative, digits));
      } else if !negative && HasByte(bytes, offset, Code(':')) && digits != [] {
        var _ := Bump();
        var value :- Word32(digits);
        r := Ok(LabelNumber(value));
      } else {
        r := Ok(IntegerLiteral(negative, digits));
      }
    }

    method TakeSign() returns (negative: bool)
      requires Valid() && offset < |bytes|
      modifies this
      ensures Valid() && negative == (bytes[old(offset)] == Code('-'))
      ensures offset == if IsSign(bytes[old(offset)]) then old(offset) + 1 else old(offset)
    {
      negative := bytes[offset] == Code('-');
      if IsSign(bytes[offset]) {
        var _ := Bump();
      }
    }

    method TakeNumeric() returns (r: Result<Token, LexError>)
      requires Valid() && (Has(bytes, offset, IsDigit) || Has(bytes, offset, IsSign))
      modifies this
      ensures Valid() && Agrees(Numeric(bytes, old(offset)), r, offset)
    {
      var negative := TakeSign();
      if StartsHex(bytes, offset) {
        var _ := Bump();
        var _ := Bump();
        r := TakeHexLiteral();
      } else {
        r := TakeUnsigned(negative);
      }
    }

    // ------------------------------------------------------------------------ names

    /** Takes a label, colon included, or takes nothing. */
    method TakeLabelAhead() returns (r: Option<seq<byte>>)
      requires Valid()
      modifies this
      ensures Valid() && r == LabelAhead(bytes, old(offset))
      ensures offset == if r.Some? then old(offset) + |r.value| + 1 else old(offset)
    {
      var start := offset;
      var taken := TakeWhile(IsLabelByte);
      if offset > start && HasByte(bytes, offset, Code(':')) {
        var _ := Bump();
        return Some(taken);
      }
      RewindTo(start);
      r := None;
    }

    /** A run with its hyphens, and where the first of them is. */
    method TakeRun() returns (firstHyphen: Option<nat>)
      requires Valid()
      modifies this
      ensures Valid() && offset == RunEnd(IsLabelByte, bytes, old(offset))
      ensures RunEnd(IsNameByte, bytes, old(offset)) == (if firstHyphen.Some? then firstHyphen.value else offset)
      ensures firstHyphen.Some? ==> firstHyphen.value <= offset
    {
      ghost var start := offset;
      firstHyphen := None;
      while Has(bytes, offset, IsLabelByte)
        invariant Valid()
        invariant RunEnd(IsLabelByte, bytes, start) == RunEnd(IsLabelByte, bytes, offset)
        invariant firstHyphen.None? ==> RunEnd(IsNameByte, bytes, start) == RunEnd(IsNameByte, bytes, offset)
        invariant firstHyphen.Some? ==> RunEnd(IsNameByte, bytes, start) == firstHyphen.value <= offset
        decreases |bytes| - offset
      {
        if bytes[offset] == Code('-') && firstHyphen.None? {
          firstHyphen := Some(offset);
        }
        var _ := Bump();
      }
    }

    /** Takes a word or a label. Which of the two decides whether hyphens belong to it, so the
    place may move back. */
    method TakeWordOrLabel() returns (r: Result<Token, LexError>)
      requires Valid() && Has(bytes, offset, IsNameStart)
      modifies this
      ensures Valid() && Agrees(WordOrLabel(bytes, old(offset)), r, offset)
    {
      var start := offset;
      var firstHyphen := TakeRun();
      if HasByte(bytes, offset, Code(':')) {
        var _ := Bump();
        return Ok(Label(bytes[start..offset - 1]));
      }
      if firstHyphen.Some? {
        RewindTo(firstHyphen.value);
      }
      r := WordToken(bytes[start..offset]);
    }

    method TakePrefixedName(sigil: Sigil) returns (r: Result<Token, LexError>)
      requires Valid()
      modifies this
      ensures Valid() && Agrees(PrefixedName(isText, sigil, bytes, old(offset)), r, offset)
    {
      if HasByte(bytes, offset, Code('"')) {
        var text :- QuotedBytes();
        var name :- NameOf(isText, text);
        r := Ok(Named(sigil, name));
      } else if Has(bytes, offset, IsDigit) {
        var value :- TakeNumber();
        if HasByte(bytes, offset, Code(':')) {
          var _ := Bump();
          return Ok(LabelNumber(value));
        }
        r := Ok(Numbered(sigil, value));
      } else if Has(bytes, offset, IsLabelByte) {
        var name := TakeWhile(IsLabelByte);
        r := Ok(Named(sigil, name));
      } else {
        r := Err(NoName);
      }
    }

    method TakeAfterExclaim() returns (r: Result<Token, LexError>)
      requires Valid()
      modifies this
      ensures Valid() && Agrees(AfterExclaim(bytes, old(offset)), r, offset)
    {
      if HasByte(bytes, offset, Code('"')) {
        var text :- QuotedBytes();
        r := Ok(MetadataString(text));
      } else if Has(bytes, offset, IsDigit) {
        var value :- TakeNumber();
        r := Ok(MetadataNumber(value));
      } else if Has(bytes, offset, IsNameByte) || HasByte(bytes, offset, Code('\\')) {
        var name := TakeEscapedName();
        r := Ok(MetadataName(name));
      } else {
        r := Ok(Exclaim);
      }
    }

    method TakeQuotedOrLabel() returns (r: Result<Token, LexError>)
      requires Valid() && HasByte(bytes, offset, Code('"'))
      modifies this
      ensures Valid() && Agrees(QuotedOrLabel(isText, bytes, old(offset) + 1), r, offset)
    {
      var text :- QuotedBytes();
      if HasByte(bytes, offset, Code(':')) {
        var _ := Bump();
        var name :- NameOf(isText, text);
        return Ok(Label(name));
      }
      r := Ok(Quoted(text));
    }

    method TakeAnnounced() returns (r: Result<Token, LexError>)
      requires Valid() && Has(bytes, offset, IsAnnouncer)
      modifies this
      ensures Valid() && Agrees(Announced(isText, bytes, old(offset)), r, offset)
    {
      var b := bytes[offset];
      if b == Code('"') {
        r := TakeQuotedOrLabel();
      } else if b == Code('$') {
        r := TakeComdatOrLabel();
      } else {
        var _ := Bump();
        if b == Code('%') {
          r := TakePrefixedName(Local);
        } else if b == Code('@') {
          r := TakePrefixedName(Global);
        } else if b == Code('!') {
          r := TakeAfterExclaim();
        } else if b == Code('^') {
          r := TakeAfterCaret();
        } else {
          r := TakeAfterHash();
        }
      }
    }

    method TakeComdatOrLabel() returns (r: Result<Token, LexError>)
      requires Valid() && offset < |bytes|
      modifies this
      ensures Valid() && Agrees(ComdatOrLabel(isText, bytes, old(offset)), r, offset)
    {
      var name := TakeLabelAhead();
      if name.Some? {
        return Ok(Label(name.value));
      }
      var _ := Bump();
      r := TakePrefixedName(Comdat);
    }

    method TakeAfterCaret() returns (r: Result<Token, LexError>)
      requires Valid()
      modifies this
      ensures Valid() && Agrees(AfterCaret(bytes, old(offset)), r, offset)
    {
      if !Has(bytes, offset, IsDigit) {
        return Err(NoSummaryNumber);
      }
      var value :- TakeNumber();
      r := Ok(SummaryNumber(value));
    }

    method TakeAfterHash() returns (r: Result<Token, LexError>)
      requires Valid()
      modifies this
      ensures Valid() && Agrees(AfterHash(bytes, old(offset)), r, offset)
    {
      if Has(bytes, offset, IsDigit) {
        var value :- TakeNumber();
        r := Ok(AttributeGroup(value));
      } else if Has(bytes, offset, IsNameByte) {
        var name := TakeWhile(IsLabelByte);
        r := Ok(DebugRecord(name));
      } else {
        r := Err(NoGroupNumber);
      }
    }

    method TakeUnannounced() returns (r: Result<Token, LexError>)
      requires Valid() && offset < |bytes|
      modifies this
      ensures Valid() && Agrees(Unannounced(bytes, old(offset)), r, offset)
    {
      var b := bytes[offset];
      if b == Code('c') && HasByte(bytes, offset + 1, Code('"')) {
        var _ := Bump();
        var text :- QuotedBytes();
        r := Ok(ByteString(text));
      } else if IsPunctuation(b) {
        var _ := Bump();
        r := Ok(Punctuation(b));
      } else if StartsEllipsis(bytes, offset) {
        var _ := Bump();
        var _ := Bump();
        var _ := Bump();
        r := Ok(Ellipsis);
      } else if b == Code('-') {
        var name := TakeLabelAhead();
        if name.Some? {
          return Ok(Label(name.value));
        }
        r := TakeNumeric();
      } else if IsDigit(b) || b == Code('+') {
        r := TakeNumeric();
      } else if IsNameStart(b) {
        r := TakeWordOrLabel();
      } else {
        r := Err(UnexpectedByte);
      }
    }

    /** The next token, and the line and column it starts at. */
    method NextToken() returns (r: Result<Spanned, LexError>)
      requires Valid()
      modifies this
      ensures Valid()
      ensures Agrees(SpannedAt(isText, bytes, old(offset)), r, offset)
    {
      var _ :- SkipTrivia();
      var position := Here();
      var token :- TakeToken();
      r := Ok(Spanned(token, position));
    }

    method TakeToken() returns (r: Result<Token, LexError>)
      requires Valid()
      modifies this
      ensures Valid() && Agrees(TokenAt(isText, bytes, old(offset)), r, offset)
    {
      if offset == |bytes| {
        r := Ok(Eof);
      } else if Has(bytes, offset, IsAnnouncer) {
        r := TakeAnnounced();
      } else {
        r := TakeUnannounced();
      }
    }
  }

  function Onto(tokens: seq<Spanned>, r: Result<seq<Spanned>, LexError>): Result<seq<Spanned>, LexError> {
    match r case Ok(rest) => Ok(tokens + rest) case Err(e) => Err(e)
  }

  lemma OntoAgain(tokens: seq<Spanned>, t: Spanned, r: Result<seq<Spanned>, LexError>)
    ensures Onto(tokens, Onto([t], r)) == Onto(tokens + [t], r)
  {
    if r.Ok? {
      assert tokens + ([t] + r.value) == tokens + [t] + r.value;
    }
  }

  /** Every token of the input, or the first error in it. */
  method Tokenize(bytes: seq<byte>, isText: seq<byte> -> bool) returns (r: Result<seq<Spanned>, LexError>)
    ensures r == TokensFrom(isText, bytes, 0)
  {
    var lexer := new Lexer(bytes, isText);
    var tokens: seq<Spanned> := [];
    assert Onto([], TokensFrom(isText, bytes, 0)) == TokensFrom(isText, bytes, 0) by {
      if TokensFrom(isText, bytes, 0).Ok? {
        assert [] + TokensFrom(isText, bytes, 0).value == TokensFrom(isText, bytes, 0).value;
      }
    }
    while true
      invariant lexer.Valid() && fresh(lexer) && lexer.bytes == bytes && lexer.isText == isText
      invariant Onto(tokens, TokensFrom(isText, bytes, lexer.offset)) == TokensFrom(isText, bytes, 0)
      decreases |bytes| - lexer.offset
    {
      var spanned :- lexer.NextToken();
      if spanned.token.Eof? {
        return Ok(tokens + [spanned]);
      }
      OntoAgain(tokens, spanned, TokensFrom(isText, bytes, lexer.offset));
      tokens := tokens + [spanned];
    }
  }

  /** A token is the one specified at its place, and has that place's line and column. */
  ghost predicate IsTokenAt(bytes: seq<byte>, isText: seq<byte> -> bool, t: Spanned, start: nat) {
    && start <= |bytes| && t.position == PlaceOf(bytes, start)
    && TokenAt(isText, bytes, start).Ok? && TokenAt(isText, bytes, start).value.0 == t.token
  }

  /** The next token starts where the blanks and comments after this one end, further on. */
  ghost predicate Continues(bytes: seq<byte>, isText: seq<byte> -> bool, start: nat, next: nat)
    requires start <= |bytes|
  {
    && TokenAt(isText, bytes, start).Ok?
    && TriviaEnd(bytes, TokenAt(isText, bytes, start).value.1) == Ok(next) && start < next
  }

  ghost predicate IsPlaced(bytes: seq<byte>, isText: seq<byte> -> bool, tokens: seq<Spanned>, starts: seq<nat>, i: nat)
    requires i < |tokens| == |starts|
  {
    && IsTokenAt(bytes, isText, tokens[i], starts[i])
    && (tokens[i].token == Eof <==> i == |tokens| - 1) && (tokens[i].token == Eof <==> starts[i] == |bytes|)
    && (i + 1 < |tokens| ==> Continues(bytes, isText, starts[i], starts[i + 1]))
  }

  ghost predicate ArePlaced(bytes: seq<byte>, isText: seq<byte> -> bool, tokens: seq<Spanned>, starts: seq<nat>, from: nat)
    requires from <= |bytes|
  {
    && |starts| == |tokens| > 0 && TriviaEnd(bytes, from) == Ok(starts[0])
    && forall i :: 0 <= i < |tokens| ==> IsPlaced(bytes, isText, tokens, starts, i)
  }

  lemma OneMorePlaced(
    bytes: seq<byte>, isText: seq<byte> -> bool, first: Spanned, rest: seq<Spanned>, start: nat, later: seq<nat>, at: nat,
    end: nat)
    requires at <= |bytes| && TriviaEnd(bytes, at) == Ok(start) && IsTokenAt(bytes, isText, first, start)
    requires first.token != Eof && end == TokenAt(isText, bytes, start).value.1 && ArePlaced(bytes, isText, rest, later, end)
    ensures ArePlaced(bytes, isText, [first] + rest, [start] + later, at)
  {
    var tokens, starts := [first] + rest, [start] + later;
    forall i | 0 <= i < |tokens| ensures IsPlaced(bytes, isText, tokens, starts, i) {
      if i > 0 {
        assert IsPlaced(bytes, isText, rest, later, i - 1);
        assert tokens[i] == rest[i - 1] && starts[i] == later[i - 1];
        assert i + 1 < |tokens| ==> starts[i + 1] == later[i];
      }
    }
  }

  /** Where the tokens start. None is skipped, none misreports its place, each starts after
  the one before, and only the last is the end of the input. */
  lemma {:induction false} TokensArePlaced(isText: seq<byte> -> bool, bytes: seq<byte>, at: nat, tokens: seq<Spanned>)
    returns (starts: seq<nat>)
    requires at <= |bytes| && TokensFrom(isText, bytes, at) == Ok(tokens)
    ensures ArePlaced(bytes, isText, tokens, starts, at)
    decreases |bytes| - at
  {
    var start, end := TriviaEnd(bytes, at).value, SpannedAt(isText, bytes, at).value.1;
    if tokens[0].token == Eof {
      starts := [start];
    } else {
      var rest := TokensFrom(isText, bytes, end).value;
      var later := TokensArePlaced(isText, bytes, end, rest);
      starts := [start] + later;
      OneMorePlaced(bytes, isText, tokens[0], rest, start, later, at, end);
    }
  }
}
