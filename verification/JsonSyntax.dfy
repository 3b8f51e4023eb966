/** What a JSON syntax check (RFC 8259) asks of a document beyond what the parser itself looks at. */
module JsonSyntax {
  import opened Bytes
  import opened Rules
  import opened JsonString
  import opened JsonGrammar
  import opened Splice
  import opened LiteralSplice

  // ----- Numbers

  /** What is left behind leading digits. */
  function BehindDigits(s: seq<byte>): (r: seq<byte>)
    ensures |r| <= |s|
  {
    if s != [] && IsDigit(s[0]) then BehindDigits(s[1..]) else s
  }

  /** What is left behind a fraction, if a dot is followed by digits or there is no dot. */
  function BehindFraction(s: seq<byte>): Option<seq<byte>> {
    if s == [] || s[0] != 46 then Some(s)
    else if |s| > 1 && IsDigit(s[1]) then Some(BehindDigits(s[1..])) else None
  }

  predicate IsSign(b: byte) { b == 43 || b == 45 }

  /** Nothing, or an exponent. */
  predicate IsExponent(s: seq<byte>) {
    s == [] ||
    ((s[0] == 69 || s[0] == 101) &&
     var digits := if |s| > 1 && IsSign(s[1]) then s[2..] else s[1..];
     digits != [] && IsDigit(digits[0]) && BehindDigits(digits) == [])
  }

  /** A number as section 6 of RFC 8259 spells it. */
  predicate IsNumber(s: seq<byte>) {
    var u := if s != [] && s[0] == 45 then s[1..] else s;
    && u != [] && IsDigit(u[0])
    && var f := BehindFraction(if u[0] == 48 then u[1..] else BehindDigits(u));
       f.Some? && IsExponent(f.value)
  }

  predicate NumberByte(b: byte) { IsDigit(b) || IsSign(b) || b == 46 || b == 69 || b == 101 }

  predicate NumberBytes(s: seq<byte>) { forall i :: 0 <= i < |s| ==> NumberByte(s[i]) }

  lemma OneByteMore(s: seq<byte>)
    requires s != [] && NumberByte(s[0]) && NumberBytes(s[1..])
    ensures NumberBytes(s)
  {
    forall i | 0 <= i < |s| ensures NumberByte(s[i]) {
      if i > 0 { assert s[i] == s[1..][i - 1]; }
    }
  }

  lemma {:induction false} DigitsThenBytes(s: seq<byte>)
    requires NumberBytes(BehindDigits(s))
    ensures NumberBytes(s)
  {
    if s != [] && IsDigit(s[0]) {
      DigitsThenBytes(s[1..]);
      OneByteMore(s);
    }
  }

  lemma FractionThenBytes(s: seq<byte>)
    requires BehindFraction(s).Some? && NumberBytes(BehindFraction(s).value)
    ensures NumberBytes(s)
  {
    if s != [] && s[0] == 46 {
      DigitsThenBytes(s[1..]);
      OneByteMore(s);
    }
  }

  lemma ExponentBytes(s: seq<byte>)
    requires IsExponent(s)
    ensures NumberBytes(s)
  {
    if s != [] {
      if |s| > 1 && IsSign(s[1]) {
        DigitsThenBytes(s[2..]);
        assert s[2..] == s[1..][1..];
        OneByteMore(s[1..]);
      } else {
        DigitsThenBytes(s[1..]);
      }
      OneByteMore(s);
    }
  }

  /** A number consists of digits, signs, dots and exponent letters. */
  lemma NumberIsBytes(s: seq<byte>)
    requires IsNumber(s)
    ensures s != [] && NumberBytes(s)
  {
    var u := if s[0] == 45 then s[1..] else s;
    var rest := if u[0] == 48 then u[1..] else BehindDigits(u);
    ExponentBytes(BehindFraction(rest).value);
    FractionThenBytes(rest);
    hide BehindFraction, IsExponent;
    if u[0] == 48 { OneByteMore(u); } else { DigitsThenBytes(u); }
    if s[0] == 45 { OneByteMore(s); }
  }

  // ----- Strings

  /** The letter behind the backslash of an escape: quote, slash, backslash, b, f, n, r, t or u. */
  predicate IsEscapeLetter(b: byte) { b in {34, 47, 92, 98, 102, 110, 114, 116, 117} }

  /** Up to the closing quote there are only escapes of JSON, and no control bytes. */
  predicate ConformingText(s: seq<byte>)
    decreases |s|
  {
    s != [] &&
    (s[0] == QUOTE ||
     if s[0] == BACKSLASH then
       |s| > 1 && IsEscapeLetter(s[1]) && UnquoteChar(s).Some? && ConformingText(s[CharLen(s)..])
     else s[0] >= 0x20 && ConformingText(s[1..]))
  }

  lemma TextOnce(s: seq<byte>)
    ensures ConformingText(s) <==>
              && s != []
              && (s[0] == QUOTE ||
                  if s[0] == BACKSLASH then
                    |s| > 1 && IsEscapeLetter(s[1]) && UnquoteChar(s).Some? && ConformingText(s[CharLen(s)..])
                  else s[0] >= 0x20 && ConformingText(s[1..]))
  {
    hide UnquoteChar, CharLen;
  }

  predicate Printable(x: seq<byte>) { forall i :: 0 <= i < |x| ==> x[i] >= 0x20 }

  lemma {:induction false} TextBehind(x: seq<byte>, t: seq<byte>)
    requires Harmless(x) && Printable(x)
    ensures ConformingText(x + t) == ConformingText(t)
  {
    if x == [] {
      assert x + t == t;
    } else {
      TextBehind(x[1..], t);
      assert (x + t)[1..] == x[1..] + t;
    }
  }

  /** Nothing behind the closing quote matters. */
  lemma {:induction false} TextPrefix(s: seq<byte>, t: seq<byte>)
    requires ConformingText(s) && Closes(s).Some? && s[..Closes(s).value + 1] <= t
    ensures ConformingText(t)
    decreases |s|
  {
    hide UnquoteChar, CharLen, Closes, ConformingText, IsEscapeLetter;
    TextOnce(s);
    TextOnce(t);
    ClosesOnce(s);
    var end := Closes(s).value;
    assert s[..end + 1][0] == s[0] == t[0];
    if s[0] != QUOTE {
      var n := if s[0] == BACKSLASH then CharLen(s) else 1;
      LaterParts(n, Closes(s[n..]));
      var rest := Closes(s[n..]).value;
      assert s[n..][..rest + 1] == s[..end + 1][n..] && t[..end + 1] == s[..end + 1];
      assert t[..end + 1][n..] <= t[n..];
      if s[0] == BACKSLASH {
        assert s[..n] == s[..end + 1][..n] == t[..n];
        EscapeAlone(s, t);
        SecondByte(s, t, n);
      }
      TextPrefix(s[n..], t[n..]);
    }
  }

  lemma SecondByte(s: seq<byte>, t: seq<byte>, n: nat)
    requires s != [] && s[0] == BACKSLASH && UnquoteChar(s).Some? && n == CharLen(s) && s[..n] <= t
    ensures |s| > 1 && |t| > 1 && t[1] == s[1]
  {
    assert n >= 2 && s[..n][1] == s[1] == t[1];
  }

  ghost predicate AllPrintable(pieces: Pieces) {
    forall p :: 0 <= p < |pieces| && pieces[p].Some? ==> Printable(pieces[p].value)
  }

  lemma {:induction false} ReplacedPrintable(data: seq<byte>, pieces: Pieces)
    requires |data| == |pieces| && AllPrintable(pieces) && forall p :: 0 <= p < |pieces| ==> pieces[p].Some?
    ensures Printable(Spliced(data, pieces))
  {
    if data != [] {
      ReplacedPrintable(data[1..], pieces[1..]);
    }
  }

  /** Replacing bytes of a conforming text by printable ones, escapes as a whole, leaves a conforming text. */
  lemma {:induction false} TextSpliced(data: seq<byte>, pieces: Pieces, c: int)
    requires |data| == |pieces| && AllHarmless(pieces) && AllPrintable(pieces) && 0 <= c <= |data|
    requires Closes(data[c..]).Some? && ConformingText(data[c..]) && WholeEscapes(data[c..], c, Changed(pieces))
    requires pieces[c + Closes(data[c..]).value].None?
    ensures ConformingText(Spliced(data[c..], pieces[c..]))
    decreases |data| - c
  {
    hide Closes, UnquoteChar, CharLen, Spliced, Width, At, WholeEscapes, Changed, AllHarmless, AllPrintable, ConformingText,
         IsEscapeLetter;
    var s := data[c..];
    TextOnce(s);
    ClosesOnce(s);
    if s[0] == QUOTE {
      Front(data, pieces, c, 1);
      OneKept(data, pieces, c);
      TextOnce(Spliced(s, pieces[c..]));
    } else {
      var n := if s[0] == BACKSLASH then CharLen(s) else 1;
      assert s[n..] == data[c + n..];
      LaterParts(n, Closes(s[n..]));
      WholeOnce(s, c, Changed(pieces));
      TextSpliced(data, pieces, c + n);
      Front(data, pieces, c, n);
      FrontConforms(data, pieces, c, n, Spliced(data[c + n..], pieces[c + n..]));
    }
  }

  /** The first byte, or the first escape, of a text. */
  lemma FrontConforms(data: seq<byte>, pieces: Pieces, c: int, n: nat, rest: seq<byte>)
    requires |data| == |pieces| && AllHarmless(pieces) && AllPrintable(pieces)
    requires 0 <= c < |data| && c + n <= |data| && data[c] != QUOTE
    requires if data[c] == BACKSLASH then UnquoteChar(data[c..]).Some? && n == CharLen(data[c..]) else n == 1
    requires ConformingText(data[c..]) && ConformingText(rest)
    requires forall p :: c <= p < c + n ==> (p in Changed(pieces) <==> c in Changed(pieces))
    ensures ConformingText(Spliced(data[c..c + n], pieces[c..c + n]) + rest)
  {
    hide UnquoteChar, CharLen, ConformingText, IsEscapeLetter;
    var d, q := data[c..c + n], pieces[c..c + n];
    var front := Spliced(d, q);
    TextOnce(data[c..]);
    if pieces[c].Some? {
      forall i | 0 <= i < |q| ensures q[i].Some? { assert c + i in Changed(pieces); }
      ReplacedHarmless(d, q);
      ReplacedPrintable(d, q);
      TextBehind(front, rest);
    } else {
      forall i | 0 <= i < |q| ensures q[i].None? { assert c + i !in Changed(pieces); }
      AllKept(d, q);
      if data[c] == BACKSLASH {
        assert data[c..][..n] == d <= front + rest;
        EscapeAlone(data[c..], front + rest);
        SecondByte(data[c..], front + rest, n);
        assert (front + rest)[n..] == rest;
        TextOnce(front + rest);
      } else {
        assert front == d && d[0] == data[c] == data[c..][0];
        TextBehind(front, rest);
      }
    }
  }

  // ----- Documents

  /** The member's key is a literal that conforms. */
  ghost predicate ConformingEntry(data: seq<byte>, from: int, m: Member) {
    exists q :: Blank(data, from, q) && KeyAt(data, q, m) && data[q] == QUOTE && ConformingText(data[q + 1..])
  }

  ghost predicate ConformingNext(data: seq<byte>, from: int, m: Member) {
    exists q :: Blank(data, from, q) && q < |data| && data[q] == 44 && ConformingEntry(data, q + 1, m)
  }

  /** Numbers have the syntax of numbers, and keys and strings hold only escapes of JSON and no control bytes. */
  ghost predicate Conforms(node: JsonNode, data: seq<byte>) {
    match node
    case JObject(start, _, members) =>
      && (members != [] ==> ConformingEntry(data, start + 1, members[0]))
      && (forall i :: 0 < i < |members| ==> ConformingNext(data, members[i - 1].value.rawEnd, members[i]))
      && forall i :: 0 <= i < |members| ==> Conforms(members[i].value, data)
    case JArray(_, _, values) => forall i :: 0 <= i < |values| ==> Conforms(values[i], data)
    case JString(_, _, start, _, _, _) => 0 <= start <= |data| && ConformingText(data[start..])
    case JNumber(_, _, text, _) => IsNumber(text)
    case _ => true
  }

  /** The data is a document that passes the syntax check. */
  ghost predicate ValidJSON(data: seq<byte>) { exists t :: Document(t, data) && Conforms(t, data) }

  /** It is enough to look at the one tree that spells the data. */
  lemma ValidByTree(t: JsonNode, data: seq<byte>)
    requires Document(t, data)
    ensures ValidJSON(data) <==> Conforms(t, data)
  {
    hide Conforms, ReadFrom, Blank;
    if ValidJSON(data) {
      OnlyDocument(data, t);
    }
  }
}
