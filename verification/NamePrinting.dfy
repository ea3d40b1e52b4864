/** Names and strings as they are printed, and what the lexer makes of them. */
module NamePrinting {
  import opened Wrappers
  import opened Tokens

  // ---------------------------------------------------------------------- printing

  function UpperHex(d: nat): byte
    requires d < 16
  {
    if d < 10 then Code('0') + d else Code('A') + (d - 10)
  }

  function HexEscape(b: byte): seq<byte> {
    [Code('\\'), UpperHex(b / 16), UpperHex(b % 16)]
  }

  /** A backslash doubles; a quote, and all that is not printable ASCII, is two digits. */
  function EscapeByte(b: byte): seq<byte> {
    if b == Code('\\') then [b, b]
    else if b == Code('"') then HexEscape(b)
    else if 0x20 <= b <= 0x7e then [b]
    else HexEscape(b)
  }

  function EscapeFrom(bytes: seq<byte>, i: nat): seq<byte>
    requires i <= |bytes|
    decreases |bytes| - i
  {
    if i == |bytes| then [] else EscapeByte(bytes[i]) + EscapeFrom(bytes, i + 1)
  }

  function Escape(bytes: seq<byte>): seq<byte> {
    EscapeFrom(bytes, 0)
  }

  method EscapeBytes(bytes: seq<byte>) returns (out: seq<byte>)
    ensures out == Escape(bytes)
  {
    out := [];
    for i := 0 to |bytes|
      invariant out + EscapeFrom(bytes, i) == Escape(bytes)
    {
      Regroup(out, EscapeByte(bytes[i]), EscapeFrom(bytes, i + 1));
      out := out + EscapeByte(bytes[i]);
    }
    assert out + [] == out;
  }

  predicate NeedsQuotes(name: seq<byte>) {
    name == [] || IsDigit(name[0]) || exists i :: 0 <= i < |name| && !IsLabelByte(name[i])
  }

  function InQuotes(text: seq<byte>): seq<byte> {
    [Code('"')] + Escape(text) + [Code('"')]
  }

  /** A dollar reads back bare but prints quoted. */
  function Identifier(name: seq<byte>): seq<byte> {
    if NeedsQuotes(name) || Code('$') in name then InQuotes(name) else name
  }

  predicate PrintsBare(b: byte, first: bool) {
    IsLabelByte(b) && !(first && IsDigit(b))
  }

  function MetadataByte(b: byte, first: bool): seq<byte> {
    if PrintsBare(b, first) then [b] else HexEscape(b)
  }

  /** A metadata name escapes rather than quotes, and escapes a digit it opens with. */
  function MetadataFrom(name: seq<byte>, i: nat): seq<byte>
    requires i <= |name|
    decreases |name| - i
  {
    if i == |name| then [] else MetadataByte(name[i], i == 0) + MetadataFrom(name, i + 1)
  }

  function MetadataText(name: seq<byte>): seq<byte> {
    MetadataFrom(name, 0)
  }

  method PrintMetadataName(name: seq<byte>) returns (out: seq<byte>)
    ensures out == MetadataText(name)
  {
    out := [];
    for i := 0 to |name|
      invariant out + MetadataFrom(name, i) == MetadataText(name)
    {
      Regroup(out, MetadataByte(name[i], i == 0), MetadataFrom(name, i + 1));
      out := out + MetadataByte(name[i], i == 0);
    }
    assert out + [] == out;
  }

  lemma Regroup(a: seq<byte>, b: seq<byte>, c: seq<byte>)
    ensures a + (b + c) == a + b + c
  {
  }

  // --------------------------------------------------------------------- reading back

  /** The text stands at a place in the input. */
  predicate Holds(s: seq<byte>, at: nat, text: seq<byte>) {
    at + |text| <= |s| && s[at..at + |text|] == text
  }

  lemma HoldsParts(s: seq<byte>, at: nat, a: seq<byte>, b: seq<byte>)
    requires Holds(s, at, a + b)
    ensures Holds(s, at, a) && Holds(s, at + |a|, b)
  {
    assert s[at..at + |a|] == s[at..at + |a + b|][..|a|] == a;
    assert s[at + |a|..at + |a| + |b|] == s[at..at + |a + b|][|a|..] == b;
  }

  lemma HoldsByte(s: seq<byte>, at: nat, text: seq<byte>, i: nat)
    requires Holds(s, at, text) && i < |text|
    ensures s[at + i] == text[i]
  {
    assert s[at..at + |text|][i] == s[at + i];
  }

  lemma HexReadsBack(b: byte)
    ensures IsHexDigit(UpperHex(b / 16)) && IsHexDigit(UpperHex(b % 16))
    ensures HexPair(UpperHex(b / 16), UpperHex(b % 16)) == b
  {
  }

  lemma EscapedByteReadsBack(s: seq<byte>, at: nat, b: byte)
    requires Holds(s, at, EscapeByte(b)) && at + |EscapeByte(b)| < |s|
    ensures QuotedBody(s, at) == Prepend([b], QuotedBody(s, at + |EscapeByte(b)|))
  {
    var text := EscapeByte(b);
    HexReadsBack(b);
    forall i | 0 <= i < |text| ensures s[at + i] == text[i] {
      HoldsByte(s, at, text, i);
    }
    assert s[at + 0] == text[0];
    if |text| > 1 {
      assert s[at + 1] == text[1];
    }
    if |text| > 2 {
      assert s[at + 2] == text[2];
    }
  }

  lemma OneMore(s: seq<byte>, at: nat, text: seq<byte>, i: nat, next: nat, end: nat)
    requires i < |text| && Holds(s, at, EscapeByte(text[i])) && next == at + |EscapeByte(text[i])| < |s|
    requires QuotedBody(s, next) == Ok((text[i + 1..], end))
    ensures QuotedBody(s, at) == Ok((text[i..], end))
  {
    EscapedByteReadsBack(s, at, text[i]);
    assert [text[i]] + text[i + 1..] == text[i..];
  }

  /** Reading a string undoes escaping it: the string's bytes come back, and reading stops
  after its closing quote whatever follows. */
  lemma {:induction false} ReadingUndoesEscaping(s: seq<byte>, at: nat, text: seq<byte>, i: nat, end: nat)
    requires i <= |text| && Holds(s, at, EscapeFrom(text, i)) && end == at + |EscapeFrom(text, i)|
    requires HasByte(s, end, Code('"'))
    ensures QuotedBody(s, at) == Ok((text[i..], end + 1))
    decreases |text| - i
  {
    if i == |text| {
      assert text[i..] == [];
    } else {
      var next := at + |EscapeByte(text[i])|;
      HoldsParts(s, at, EscapeByte(text[i]), EscapeFrom(text, i + 1));
      ReadingUndoesEscaping(s, next, text, i + 1, end);
      OneMore(s, at, text, i, next, end + 1);
    }
  }

  lemma QuotedReadsBack(s: seq<byte>, at: nat, text: seq<byte>)
    requires Holds(s, at, InQuotes(text))
    ensures HasByte(s, at, Code('"')) && QuotedBody(s, at + 1) == Ok((text, at + |InQuotes(text)|))
  {
    HoldsByte(s, at, InQuotes(text), 0);
    Regroup([Code('"')], Escape(text), [Code('"')]);
    HoldsParts(s, at, [Code('"')], Escape(text) + [Code('"')]);
    HoldsParts(s, at + 1, Escape(text), [Code('"')]);
    HoldsByte(s, at + 1 + |Escape(text)|, [Code('"')], 0);
    ReadingUndoesEscaping(s, at + 1, text, 0, at + 1 + |Escape(text)|);
    assert text[0..] == text;
  }

  lemma {:induction false} RunIs(p: byte -> bool, s: seq<byte>, at: nat, end: nat)
    requires at <= end <= |s| && (forall i :: at <= i < end ==> p(s[i])) && !Has(s, end, p)
    ensures RunEnd(p, s, at) == end
    decreases end - at
  {
    if at < end {
      RunIs(p, s, at + 1, end);
    }
  }

  lemma BareBytes(s: seq<byte>, at: nat, name: seq<byte>)
    requires Holds(s, at, name) && !NeedsQuotes(name)
    ensures forall i :: at <= i < at + |name| ==> IsLabelByte(s[i])
    ensures !IsDigit(s[at]) && s[at] == name[0]
  {
    forall i | at <= i < at + |name| ensures IsLabelByte(s[i]) {
      HoldsByte(s, at, name, i - at);
    }
    HoldsByte(s, at, name, 0);
  }

  /** After a sigil, a printed name reads back as itself, unless it holds a NUL. */
  lemma PrefixedNameReadsBack(isText: seq<byte> -> bool, sigil: Sigil, s: seq<byte>, at: nat, name: seq<byte>)
    requires isText(name) && Holds(s, at, Identifier(name)) && !Has(s, at + |Identifier(name)|, IsLabelByte)
    ensures PrefixedName(isText, sigil, s, at) ==
            if 0 in name then Err(NulInName) else Ok((Named(sigil, name), at + |Identifier(name)|))
  {
    if NeedsQuotes(name) || Code('$') in name {
      QuotedReadsBack(s, at, name);
    } else {
      BareNameReadsBack(isText, sigil, s, at, name);
    }
  }

  lemma BareNameReadsBack(isText: seq<byte> -> bool, sigil: Sigil, s: seq<byte>, at: nat, name: seq<byte>)
    requires !NeedsQuotes(name) && Holds(s, at, name) && !Has(s, at + |name|, IsLabelByte)
    ensures PrefixedName(isText, sigil, s, at) == Ok((Named(sigil, name), at + |name|)) && 0 !in name
  {
    BareBytes(s, at, name);
    RunIs(IsLabelByte, s, at, at + |name|);
    assert s[at..at + |name|] == name;
  }

  function SigilByte(sigil: Sigil): byte {
    match sigil case Local => Code('%') case Global => Code('@') case Comdat => Code('$')
  }

  /** A sigil and a printed name are one token, which names what was printed; a colon after a
  comdat's name would have made it a label. */
  lemma NameReadsBack(isText: seq<byte> -> bool, sigil: Sigil, s: seq<byte>, at: nat, name: seq<byte>)
    requires isText(name) && HasByte(s, at, SigilByte(sigil)) && Holds(s, at + 1, Identifier(name))
    requires var end := at + 1 + |Identifier(name)|;
             !Has(s, end, IsLabelByte) && (sigil.Comdat? ==> !HasByte(s, end, Code(':')))
    ensures TokenAt(isText, s, at) ==
            if 0 in name then Err(NulInName) else Ok((Named(sigil, name), at + 1 + |Identifier(name)|))
  {
    if sigil.Comdat? {
      NoLabelAhead(s, at, name);
    }
    SigilReads(isText, sigil, s, at);
    PrefixedNameReadsBack(isText, sigil, s, at + 1, name);
  }

  lemma SigilReads(isText: seq<byte> -> bool, sigil: Sigil, s: seq<byte>, at: nat)
    requires HasByte(s, at, SigilByte(sigil)) && (sigil.Comdat? ==> LabelAhead(s, at).None?)
    ensures TokenAt(isText, s, at) == PrefixedName(isText, sigil, s, at + 1)
  {
  }

  lemma NoLabelAhead(s: seq<byte>, at: nat, name: seq<byte>)
    requires HasByte(s, at, Code('$')) && Holds(s, at + 1, Identifier(name))
    requires !Has(s, at + 1 + |Identifier(name)|, IsLabelByte) && !HasByte(s, at + 1 + |Identifier(name)|, Code(':'))
    ensures LabelAhead(s, at).None?
  {
    if NeedsQuotes(name) || Code('$') in name {
      QuotedReadsBack(s, at + 1, name);
      RunIs(IsLabelByte, s, at, at + 1);
    } else {
      BareBytes(s, at + 1, name);
      RunIs(IsLabelByte, s, at, at + 1 + |name|);
    }
  }

  // ------------------------------------------------------------------------- labels

  predicate OpensWithEllipsis(name: seq<byte>) {
    |name| >= 3 && name[..3] == [Code('.'), Code('.'), Code('.')]
  }

  /** A printed name and a colon are a label, except that a name that prints bare and opens
  with three dots is taken for an ellipsis, and one with a NUL is refused. */
  lemma LabelReadsBackExactly(isText: seq<byte> -> bool, s: seq<byte>, at: nat, name: seq<byte>)
    requires isText(name) && Holds(s, at, Identifier(name)) && HasByte(s, at + |Identifier(name)|, Code(':'))
    ensures TokenAt(isText, s, at) == Ok((Label(name), at + |Identifier(name)| + 1)) <==>
            0 !in name && (OpensWithEllipsis(name) ==> Identifier(name) != name)
  {
    if NeedsQuotes(name) || Code('$') in name {
      QuotedReadsBack(s, at, name);
      QuotedIsLonger(name);
      QuotedLabel(isText, s, at, name, at + |Identifier(name)|);
    } else {
      BareLabel(isText, s, at, name);
    }
  }

  lemma QuotedLabel(isText: seq<byte> -> bool, s: seq<byte>, at: nat, name: seq<byte>, end: nat)
    requires isText(name) && HasByte(s, at, Code('"')) && QuotedBody(s, at + 1) == Ok((name, end)) && HasByte(s, end, Code(':'))
    ensures TokenAt(isText, s, at) == if 0 in name then Err(NulInName) else Ok((Label(name), end + 1))
  {
  }

  lemma {:induction false} EscapedIsLonger(text: seq<byte>, i: nat)
    requires i <= |text|
    ensures |EscapeFrom(text, i)| >= |text| - i
    decreases |text| - i
  {
    if i < |text| {
      EscapedIsLonger(text, i + 1);
    }
  }

  lemma QuotedIsLonger(name: seq<byte>)
    ensures InQuotes(name) != name
  {
    EscapedIsLonger(name, 0);
  }

  lemma BareLabel(isText: seq<byte> -> bool, s: seq<byte>, at: nat, name: seq<byte>)
    requires !NeedsQuotes(name) && Code('$') !in name && Holds(s, at, name) && HasByte(s, at + |name|, Code(':'))
    ensures 0 !in name
    ensures TokenAt(isText, s, at) == if OpensWithEllipsis(name) then Ok((Ellipsis, at + 3)) else Ok((Label(name), at + |name| + 1))
  {
    BareBytes(s, at, name);
    RunIs(IsLabelByte, s, at, at + |name|);
    assert name[0] != Code('$');
    assert StartsEllipsis(s, at) <==> OpensWithEllipsis(name) by {
      forall i | 0 <= i < |name| ensures s[at + i] == name[i] {
        HoldsByte(s, at, name, i);
      }
      if |name| >= 3 {
        assert s[at + 0] == name[0] && s[at + 1] == name[1] && s[at + 2] == name[2];
        assert name[..3] == [name[0], name[1], name[2]];
      } else if |name| >= 2 {
        assert s[at + 1] == name[1];
      }
    }
  }

  // ----------------------------------------------------------------- metadata names

  lemma {:induction false} EscapedNameReadsBack(s: seq<byte>, at: nat, name: seq<byte>, i: nat)
    requires i <= |name| && Holds(s, at, MetadataFrom(name, i)) && !Has(s, at + |MetadataFrom(name, i)|, IsEscapable)
    ensures EscapedName(s, at) == (name[i..], at + |MetadataFrom(name, i)|)
    decreases |name| - i
  {
    if i < |name| {
      var here, rest := MetadataByte(name[i], i == 0), MetadataFrom(name, i + 1);
      HoldsParts(s, at, here, rest);
      EscapedNameReadsBack(s, at + |here|, name, i + 1);
      EscapedByteOfName(s, at, name[i], i == 0);
      assert [name[i]] + name[i + 1..] == name[i..];
    } else {
      assert name[i..] == [];
    }
  }

  lemma EscapedByteOfName(s: seq<byte>, at: nat, b: byte, first: bool)
    requires Holds(s, at, MetadataByte(b, first))
    ensures var end := at + |MetadataByte(b, first)|;
            EscapedName(s, at) == ([b] + EscapedName(s, end).0, EscapedName(s, end).1)
  {
    if PrintsBare(b, first) {
      HoldsByte(s, at, [b], 0);
    } else {
      HexReadsBack(b);
      HoldsByte(s, at, HexEscape(b), 0);
      HoldsByte(s, at, HexEscape(b), 1);
      HoldsByte(s, at, HexEscape(b), 2);
    }
  }

  lemma ExclaimReads(isText: seq<byte> -> bool, s: seq<byte>, at: nat)
    requires HasByte(s, at, Code('!'))
    ensures TokenAt(isText, s, at) == AfterExclaim(s, at + 1)
  {
  }

  lemma OpensAsName(s: seq<byte>, at: nat, name: seq<byte>)
    requires name != [] && Holds(s, at, MetadataText(name))
    ensures at < |s| && s[at] != Code('"') && !IsDigit(s[at])
    ensures (IsNameByte(s[at]) || s[at] == Code('\\')) <==> name[0] != Code('-')
  {
    HoldsByte(s, at, MetadataText(name), 0);
  }

  lemma NameAfterExclaim(s: seq<byte>, at: nat, name: seq<byte>, end: nat)
    requires at < |s| && s[at] != Code('"') && !IsDigit(s[at]) && EscapedName(s, at) == (name, end)
    ensures AfterExclaim(s, at) ==
            Ok(if IsNameByte(s[at]) || s[at] == Code('\\') then (MetadataName(name), end) else (Exclaim, at))
  {
  }

  lemma NothingAfterExclaim(s: seq<byte>, at: nat)
    requires at <= |s| && !Has(s, at, IsEscapable)
    ensures AfterExclaim(s, at).Ok? ==> !AfterExclaim(s, at).value.0.MetadataName?
  {
  }

  lemma AfterExclaimExactly(s: seq<byte>, at: nat, name: seq<byte>)
    requires Holds(s, at, MetadataText(name)) && !Has(s, at + |MetadataText(name)|, IsEscapable)
    ensures AfterExclaim(s, at) == Ok((MetadataName(name), at + |MetadataText(name)|)) <==> name != [] && name[0] != Code('-')
  {
    if name == [] {
      NothingAfterExclaim(s, at);
    } else {
      OpensAsName(s, at, name);
      EscapedNameReadsBack(s, at, name, 0);
      assert name[0..] == name;
      NameAfterExclaim(s, at, name, at + |MetadataText(name)|);
    }
  }

  /** An exclamation mark and a printed metadata name are one token for that name, exactly when
  the name is not empty and does not open with a hyphen. */
  lemma MetadataNameReadsBackExactly(isText: seq<byte> -> bool, s: seq<byte>, at: nat, name: seq<byte>)
    requires HasByte(s, at, Code('!')) && Holds(s, at + 1, MetadataText(name))
    requires !Has(s, at + 1 + |MetadataText(name)|, IsEscapable)
    ensures TokenAt(isText, s, at) == Ok((MetadataName(name), at + 1 + |MetadataText(name)|))
       <==> name != [] && name[0] != Code('-')
  {
    ExclaimReads(isText, s, at);
    AfterExclaimExactly(s, at + 1, name);
  }
}
