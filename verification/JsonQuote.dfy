/** Writing strings as section 7 of RFC 8259 asks, and that the parser reads them back. */
module JsonQuote {
  import opened Bytes
  import opened Rules
  import opened Utf8
  import opened JsonString
  import opened JsonSyntax

  // ----- Hexadecimal digits

  const LOWHEX := "0123456789abcdef"
  const HIGHHEX := "0123456789ABCDEF"

  /** b is the digit d, in either case. */
  predicate IsHexDigit(b: byte, d: int) {
    0 <= d < 16 && (b as int == LOWHEX[d] as int || b as int == HIGHHEX[d] as int)
  }

  lemma HexRow(d: int)
    requires 0 <= d < 16
    ensures LOWHEX[d] as int == (if d < 10 then 48 + d else 87 + d) && HIGHHEX[d] as int == (if d < 10 then 48 + d else 55 + d)
  {
  }

  lemma UnhexMeans(b: byte, d: int)
    ensures Unhex(b) == Some(d) <==> IsHexDigit(b, d)
  {
    if 0 <= d < 16 {
      HexRow(d);
    }
    if Unhex(b).Some? {
      HexRow(Unhex(b).value);
    }
  }

  /** The first n bytes are the n hexadecimal digits of v, most significant first. */
  predicate SpellsHex(s: seq<byte>, n: nat, v: int)
    requires n <= |s|
  {
    if n == 0 then v == 0 else 0 <= v && IsHexDigit(s[n - 1], v % 16) && SpellsHex(s, n - 1, v / 16)
  }

  /** Hexadecimal digits are read as the number they spell. */
  lemma {:induction false} HexSpelled(s: seq<byte>, n: nat, v: int)
    requires n <= |s|
    ensures HexValue(s, n) == Some(v) <==> SpellsHex(s, n, v)
  {
    if n > 0 {
      hide Unhex, IsHexDigit;
      UnhexMeans(s[n - 1], v % 16);
      HexSpelled(s, n - 1, v / 16);
      LastHexDigit(s, n, v);
    }
  }

  lemma LastHexDigit(s: seq<byte>, n: nat, v: int)
    requires 0 < n <= |s|
    ensures HexValue(s, n) == Some(v) <==> 0 <= v && HexValue(s, n - 1) == Some(v / 16) && Unhex(s[n - 1]) == Some(v % 16)
  {
    var high, low := HexValue(s, n - 1), Unhex(s[n - 1]);
    if high.Some? && low.Some? {
      UnhexMeans(s[n - 1], low.value);
      DigitRange(s[n - 1], low.value);
      Divided(high.value, low.value, v);
    }
    hide Unhex, IsHexDigit;
  }

  lemma Divided(high: int, low: int, v: int)
    requires 0 <= high && 0 <= low < 16
    ensures high * 16 + low == v <==> high == v / 16 && low == v % 16
  {
  }

  lemma DigitRange(b: byte, d: int)
    requires IsHexDigit(b, d)
    ensures 0 <= d < 16
  {
  }

  // ----- Escapes

  /** How many hexadecimal digits follow the letter of an escape. */
  predicate HexLetter(letter: byte, n: nat) {
    (letter == Ascii("x")[0] && n == 2) || (letter == Ascii("u")[0] && n == 4) || (letter == Ascii("U")[0] && n == 8)
  }

  /** An escape with hexadecimal digits stands for the rune they spell, unless they spell none. */
  lemma HexEscapeReads(s: seq<byte>, letter: byte, n: nat, r: int)
    requires HexLetter(letter, n) && |s| >= n + 2 && s[0] == BACKSLASH && s[1] == letter && SpellsHex(s[2..], n, r)
    ensures UnquoteChar(s) == if IsRune(r) then Some((r, n + 2)) else None
  {
    HexSpelled(s[2..], n, r);
    hide HexValue, SpellsHex;
  }

  /** `\u` and the four hexadecimal digits of a rune, in either case. */
  lemma UnicodeEscape(r: int, a: byte, b: byte, c: byte, d: byte, rest: seq<byte>)
    requires IsRune(r) && r < 0x10000
    requires IsHexDigit(a, r / 16 / 16 / 16) && IsHexDigit(b, r / 16 / 16 % 16) && IsHexDigit(c, r / 16 % 16) && IsHexDigit(d, r % 16)
    ensures UnquoteChar(Ascii("\\u") + [a, b, c, d] + rest) == Some((r, 6))
  {
    hide IsHexDigit;
    var s := Ascii("\\u") + [a, b, c, d] + rest;
    var t := s[2..];
    assert t[0] == a && t[1] == b && t[2] == c && t[3] == d;
    var x, y, z := r / 16, r / 16 / 16, r / 16 / 16 / 16;
    assert z % 16 == z && z / 16 == 0;
    assert SpellsHex(t, 0, 0);
    assert SpellsHex(t, 1, z);
    assert SpellsHex(t, 2, y);
    assert SpellsHex(t, 3, x);
    assert SpellsHex(t, 4, r);
    HexEscapeReads(s, s[1], 4, r);
  }

  /** The escapes of two characters, and what they stand for. */
  lemma ShortEscapes(rest: seq<byte>)
    ensures UnquoteChar(Ascii("\\\"") + rest) == Some((0x22, 2)) && UnquoteChar(Ascii("\\\\") + rest) == Some((0x5C, 2))
    ensures UnquoteChar(Ascii("\\b") + rest) == Some((0x08, 2)) && UnquoteChar(Ascii("\\f") + rest) == Some((0x0C, 2))
    ensures UnquoteChar(Ascii("\\n") + rest) == Some((0x0A, 2)) && UnquoteChar(Ascii("\\r") + rest) == Some((0x0D, 2))
    ensures UnquoteChar(Ascii("\\t") + rest) == Some((0x09, 2))
  {
  }

  /** Two escapes that JSON does not have, and one that it has and the parser does not read. */
  lemma OtherEscapes(rest: seq<byte>)
    ensures UnquoteChar(Ascii("\\a") + rest) == Some((0x07, 2)) && UnquoteChar(Ascii("\\v") + rest) == Some((0x0B, 2))
    ensures UnquoteChar(Ascii("\\/") + rest).None?
  {
  }

  predicate IsOctalDigit(b: byte, d: int) { 0 <= d < 8 && b as int == "01234567"[d] as int }

  lemma OctalRow(d: int)
    requires 0 <= d < 8
    ensures "01234567"[d] as int == 48 + d
  {
  }

  /** Three octal digits, which JSON does not have either. */
  lemma OctalEscape(v: int, a: byte, b: byte, c: byte, rest: seq<byte>)
    requires 0 <= v < 512 && IsOctalDigit(a, v / 8 / 8) && IsOctalDigit(b, v / 8 % 8) && IsOctalDigit(c, v % 8)
    ensures UnquoteChar([BACKSLASH, a, b, c] + rest) == if v < 256 then Some((v, 4)) else None
  {
    OctalRow(v / 8 / 8);
    OctalRow(v / 8 % 8);
    OctalRow(v % 8);
    var s := [BACKSLASH, a, b, c] + rest;
    assert s[1] == a && s[2] == b && s[3] == c;
  }

  const LETTERS := "\\\"abfnrtv"
  const STANDFOR := [0x5C, 0x22, 0x07, 0x08, 0x0C, 0x0A, 0x0D, 0x09, 0x0B]

  predicate ShortOf(s: seq<byte>, r: int, n: nat) {
    n == 2 <= |s| && exists i :: 0 <= i < 9 && s[1] as int == LETTERS[i] as int && r == STANDFOR[i]
  }

  predicate HexOf(s: seq<byte>, r: int, n: nat) {
    2 <= n <= |s| && HexLetter(s[1], n - 2) && IsRune(r) && SpellsHex(s[2..], n - 2, r)
  }

  predicate OctalOf(s: seq<byte>, r: int, n: nat) {
    n == 4 <= |s| && 0 <= r < 256
    && IsOctalDigit(s[1], r / 8 / 8) && IsOctalDigit(s[2], r / 8 % 8) && IsOctalDigit(s[3], r % 8)
  }

  /** The parser reads no other escapes, and these as said. */
  lemma EscapesAre(s: seq<byte>, r: int, n: nat)
    requires s != [] && s[0] == BACKSLASH
    ensures UnquoteChar(s) == Some((r, n)) <==> ShortOf(s, r, n) || HexOf(s, r, n) || OctalOf(s, r, n)
  {
    if |s| > 1 {
      ShortRead(s, r, n);
      HexRead(s, r, n);
      OctalRead(s, r, n);
      hide ShortOf, HexOf, OctalOf, HexEscape, IsOctal;
    }
  }

  lemma ShortRead(s: seq<byte>, r: int, n: nat)
    requires |s| > 1
    ensures ShortOf(s, r, n) <==> n == 2 && s[1] in {92, 34, 97, 98, 102, 110, 114, 116, 118} && Escape(s) == Some((r, n))
  {
    var c := s[1];
    if ShortOf(s, r, n) {
      var i :| 0 <= i < 9 && c as int == LETTERS[i] as int && r == STANDFOR[i];
      assert i == 0 || i == 1 || i == 2 || i == 3 || i == 4 || i == 5 || i == 6 || i == 7 || i == 8;
    }
    if n == 2 && c in {92, 34, 97, 98, 102, 110, 114, 116, 118} && Escape(s) == Some((r, n)) {
      var i := if c == 92 then 0 else if c == 34 then 1 else if c == 97 then 2 else if c == 98 then 3 else if c == 102 then 4
               else if c == 110 then 5 else if c == 114 then 6 else if c == 116 then 7 else 8;
      assert c as int == LETTERS[i] as int && r == STANDFOR[i];
    }
  }

  lemma HexRead(s: seq<byte>, r: int, n: nat)
    requires |s| > 1
    ensures HexOf(s, r, n) <==> n > 2 && HexLetter(s[1], n - 2) && HexEscape(s, n - 2) == Some((r, n))
  {
    if n >= 2 && |s| >= n { HexSpelled(s[2..], n - 2, r); }
    hide HexValue, SpellsHex;
  }

  lemma OctalRead(s: seq<byte>, r: int, n: nat)
    requires |s| > 1
    ensures OctalOf(s, r, n) <==> n == 4 && IsOctal(s[1]) && Escape(s) == Some((r, n))
  {
    if |s| >= 4 {
      OctalValue(s[1]);
      OctalValue(s[2]);
      OctalValue(s[3]);
    }
  }

  lemma OctalValue(b: byte)
    ensures forall d :: IsOctalDigit(b, d) <==> IsOctal(b) && d == b as int - 48
  {
    forall d | 0 <= d < 8 ensures IsOctalDigit(b, d) <==> b as int == 48 + d {
      OctalRow(d);
    }
  }

  // ----- Texts

  /** The UTF-8 text of these code points. */
  function EncodeRunes(runes: seq<int>): seq<byte> {
    if runes == [] then [] else EncodeRune(runes[0]) + EncodeRunes(runes[1..])
  }

  predicate AllRunes(runes: seq<int>) { forall i :: 0 <= i < |runes| ==> IsRune(runes[i]) }

  ghost predicate IsText(t: seq<byte>) { exists runes :: AllRunes(runes) && t == EncodeRunes(runes) }

  /** Quotation mark and backslash behind a backslash, control characters by number, everything else as it is. */
  function QuoteByte(b: byte): seq<byte> {
    if b as int == '\"' as int then Ascii("\\\"")
    else if b as int == '\\' as int then Ascii("\\\\")
    else if b < 32 then Ascii("\\u00") + [LOWHEX[b / 16] as int as byte, LOWHEX[b % 16] as int as byte]
    else [b]
  }

  function Quote(t: seq<byte>): seq<byte> {
    if t == [] then [] else QuoteByte(t[0]) + Quote(t[1..])
  }

  lemma {:induction false} QuoteAppend(a: seq<byte>, b: seq<byte>)
    ensures Quote(a + b) == Quote(a) + Quote(b)
  {
    hide QuoteByte;
    if a == [] {
      assert a + b == b;
    } else {
      QuoteAppend(a[1..], b);
      assert (a + b)[1..] == a[1..] + b;
    }
  }

  /** Bytes that are not ASCII are written as they are. */
  lemma {:induction false} QuoteOthers(x: seq<byte>)
    requires forall i :: 0 <= i < |x| ==> x[i] >= 0x80
    ensures Quote(x) == x
  {
    if x != [] {
      QuoteOthers(x[1..]);
      assert x == [x[0]] + x[1..];
    }
  }

  lemma AsciiQuoted(b: byte, rest: seq<byte>)
    requires b < 0x80
    ensures var s := QuoteByte(b) + rest; s[0] != QUOTE && UnquoteChar(s) == Some((b as int, |QuoteByte(b)|))
  {
    if b as int == '\"' as int || b as int == '\\' as int {
      ShortEscapes(rest);
    } else if b < 32 {
      var q := QuoteByte(b);
      HexRow(0);
      HexRow(b as int / 16);
      HexRow(b as int % 16);
      assert q + rest == Ascii("\\u") + [q[2], q[3], q[4], q[5]] + rest;
      hide UnquoteChar;
      UnicodeEscape(b as int, q[2], q[3], q[4], q[5], rest);
    }
  }

  lemma EncodingKinds(r: int)
    requires IsRune(r)
    ensures if r < 0x80 then EncodeRune(r) == [r as byte] else forall i :: 0 <= i < |EncodeRune(r)| ==> EncodeRune(r)[i] >= 0x80
  {
  }

  /** The first character of a quoted text. */
  lemma RuneQuoted(r: int, rest: seq<byte>)
    requires IsRune(r)
    ensures var q := Quote(EncodeRune(r)); q != [] && (q + rest)[0] != QUOTE && UnquoteChar(q + rest) == Some((r, |q|))
  {
    var e := EncodeRune(r);
    EncodingKinds(r);
    if r < 0x80 {
      assert Quote(e) == QuoteByte(r as byte) by { assert e[1..] == [] && QuoteByte(r as byte) + [] == QuoteByte(r as byte); }
      AsciiQuoted(r as byte, rest);
    } else {
      QuoteOthers(e);
      DecodeEncoded(r, rest);
      hide DecodeRune, EncodeRune;
    }
  }

  /** A quoted text, up to the closing quote, is read as the text. */
  lemma {:induction false} QuotedReads(runes: seq<int>, rest: seq<byte>, base: int)
    requires AllRunes(runes)
    ensures var t := EncodeRunes(runes);
            var d := Decode(Quote(t) + [QUOTE] + rest, base);
            d.Some? && d.value.out == t && d.value.len == |Quote(t)|
  {
    hide *;
    var t := EncodeRunes(runes);
    var s := Quote(t) + [QUOTE] + rest;
    if runes == [] {
      NothingQuoted(rest, base);
    } else {
      var r := runes[0];
      RunesSplit(runes);
      var e, tail := EncodeRune(r), EncodeRunes(runes[1..]);
      QuoteAppend(e, tail);
      var q := Quote(e);
      var more := Quote(tail) + [QUOTE] + rest;
      assert s == q + more;
      RuneQuoted(r, more);
      QuotedReads(runes[1..], rest, base + |q|);
      FirstOfQuoted(s, base, r, |q|);
      assert s[|q|..] == more;
    }
  }

  lemma NothingQuoted(rest: seq<byte>, base: int)
    ensures EncodeRunes([]) == [] && Quote([]) == []
    ensures Decode([] + [QUOTE] + rest, base) == Some(Unquoted([], [], 0))
  {
    assert ([] + [QUOTE] + rest)[0] == QUOTE;
  }

  lemma RunesSplit(runes: seq<int>)
    requires runes != [] && AllRunes(runes)
    ensures IsRune(runes[0]) && AllRunes(runes[1..]) && EncodeRunes(runes) == EncodeRune(runes[0]) + EncodeRunes(runes[1..])
  {
    hide EncodeRune;
  }

  lemma FirstOfQuoted(s: seq<byte>, base: int, r: int, n: nat)
    requires s != [] && s[0] != QUOTE && UnquoteChar(s) == Some((r, n)) && n <= |s| && Decode(s[n..], base + n).Some?
    ensures Decode(s, base).Some?
    ensures var d, rest := Decode(s, base).value, Decode(s[n..], base + n).value;
            d.out == EncodeRune(r) + rest.out && d.len == n + rest.len
  {
    hide UnquoteChar, EncodeRune, CharRanges;
    DecodeOnce(s, base);
  }

  /** Round trip: every text, quoted, is read back as it was and closes at its own quote. */
  lemma QuoteRoundTrip(t: seq<byte>, rest: seq<byte>, base: int)
    requires IsText(t)
    ensures var d := Decode(Quote(t) + [QUOTE] + rest, base); d.Some? && d.value.out == t && d.value.len == |Quote(t)|
  {
    hide AllRunes, EncodeRunes;
    var runes :| AllRunes(runes) && t == EncodeRunes(runes);
    QuotedReads(runes, rest, base);
  }

  lemma ByteConforms(b: byte, rest: seq<byte>)
    requires ConformingText(rest)
    ensures ConformingText(QuoteByte(b) + rest)
  {
    var s := QuoteByte(b) + rest;
    if b as int == '\"' as int || b as int == '\\' as int {
      ShortEscapes(rest);
      assert s[2..] == rest;
      assert ConformingText(s[2..]);
    } else if b < 32 {
      AsciiQuoted(b, rest);
      assert s[6..] == rest;
      assert ConformingText(s[6..]);
    } else {
      assert s[1..] == rest;
    }
    hide UnquoteChar;
    TextOnce(s);
  }

  /** What is written passes the syntax check. */
  lemma {:induction false} QuoteConforms(t: seq<byte>, rest: seq<byte>)
    ensures ConformingText(Quote(t) + [QUOTE] + rest)
  {
    if t == [] {
      assert (Quote(t) + [QUOTE] + rest)[0] == QUOTE;
      TextOnce(Quote(t) + [QUOTE] + rest);
    } else {
      QuoteConforms(t[1..], rest);
      hide ConformingText, QuoteByte;
      var more := Quote(t[1..]) + [QUOTE] + rest;
      ByteConforms(t[0], more);
      assert Quote(t) + [QUOTE] + rest == QuoteByte(t[0]) + more;
    }
  }
}
