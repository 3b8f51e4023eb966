/** UTF-8 as strings of runes are encoded and decoded by the parser: invalid input decodes to U+FFFD byte by byte. */
module Utf8 {
  import opened Bytes

  const RUNE_ERROR := 0xFFFD

  predicate IsRune(r: int) { 0 <= r < 0xD800 || 0xE000 <= r <= 0x10FFFF }

  predicate IsContinuation(b: byte) { 0x80 <= b <= 0xBF }

  function EncodeRune(r: int): (s: seq<byte>)
    ensures 1 <= |s| <= 4
  {
    if 0 <= r < 0x80 then [r as byte]
    else if 0 <= r < 0x800 then [(0xC0 + r / 64) as byte, (0x80 + r % 64) as byte]
    else if !IsRune(r) then [0xEF, 0xBF, 0xBD]
    else if r < 0x10000 then [(0xE0 + r / 4096) as byte, (0x80 + r / 64 % 64) as byte, (0x80 + r % 64) as byte]
    else [(0xF0 + r / 262144) as byte, (0x80 + r / 4096 % 64) as byte, (0x80 + r / 64 % 64) as byte, (0x80 + r % 64) as byte]
  }

  /** White space, as Unicode defines it. */
  predicate IsSpaceRune(r: int) {
    || 9 <= r <= 13 || r == 32 || r == 0x85 || r == 0xA0 || r == 0x1680 || 0x2000 <= r <= 0x200A
    || r == 0x2028 || r == 0x2029 || r == 0x202F || r == 0x205F || r == 0x3000
  }

  /** The second byte keeps three-byte sequences from being overlong or surrogates. */
  predicate SecondOfThree(b0: byte, b1: byte) {
    if b0 == 0xE0 then 0xA0 <= b1 <= 0xBF else if b0 == 0xED then 0x80 <= b1 <= 0x9F else IsContinuation(b1)
  }

  /** The second byte keeps four-byte sequences from being overlong or too large. */
  predicate SecondOfFour(b0: byte, b1: byte) {
    if b0 == 0xF0 then 0x90 <= b1 <= 0xBF else if b0 == 0xF4 then 0x80 <= b1 <= 0x8F else IsContinuation(b1)
  }

  function DecodeRune(s: seq<byte>): (r: (int, nat))
    requires s != []
    ensures IsRune(r.0) && 1 <= r.1 <= |s|
  {
    var b0 := s[0];
    if b0 < 0x80 then (b0 as int, 1)
    else if 0xC2 <= b0 <= 0xDF && |s| > 1 && IsContinuation(s[1]) then
      ((b0 as int - 0xC0) * 64 + (s[1] as int - 0x80), 2)
    else if 0xE0 <= b0 <= 0xEF && |s| > 2 && SecondOfThree(b0, s[1]) && IsContinuation(s[2]) then
      ((b0 as int - 0xE0) * 4096 + (s[1] as int - 0x80) * 64 + (s[2] as int - 0x80), 3)
    else if 0xF0 <= b0 <= 0xF4 && |s| > 3 && SecondOfFour(b0, s[1]) && IsContinuation(s[2]) && IsContinuation(s[3]) then
      ((b0 as int - 0xF0) * 262144 + (s[1] as int - 0x80) * 4096 + (s[2] as int - 0x80) * 64 + (s[3] as int - 0x80), 4)
    else (RUNE_ERROR, 1)
  }

  lemma Digits(x: int, y: int, z: int, w: int)
    requires 0 <= x && 0 <= y < 64 && 0 <= z < 64 && 0 <= w < 64
    ensures var r := x * 262144 + y * 4096 + z * 64 + w;
            r / 262144 == x && r / 4096 % 64 == y && r / 64 % 64 == z && r % 64 == w
  {
    var r := x * 262144 + y * 4096 + z * 64 + w;
    LastDigit(x * 4096 + y * 64 + z, w);
    LastDigit(x * 64 + y, z);
    LastDigit(x, y);
    assert r / 4096 == r / 64 / 64 && r / 262144 == r / 64 / 64 / 64;
  }

  lemma LastDigit(q: int, d: int)
    requires 0 <= q && 0 <= d < 64
    ensures (q * 64 + d) / 64 == q && (q * 64 + d) % 64 == d
  {
  }

  lemma DecodeEncoded(r: int, rest: seq<byte>)
    requires IsRune(r)
    ensures DecodeRune(EncodeRune(r) + rest) == (r, |EncodeRune(r)|)
  {
    var s := EncodeRune(r) + rest;
    if r < 0x80 {
    } else if r < 0x800 {
      assert s[0] == (0xC0 + r / 64) as byte && s[1] == (0x80 + r % 64) as byte;
    } else if r < 0x10000 {
      assert s[0] == (0xE0 + r / 4096) as byte && s[1] == (0x80 + r / 64 % 64) as byte && s[2] == (0x80 + r % 64) as byte;
      Decode3(r, s);
    } else {
      assert s[0] == (0xF0 + r / 262144) as byte && s[1] == (0x80 + r / 4096 % 64) as byte;
      assert s[2] == (0x80 + r / 64 % 64) as byte && s[3] == (0x80 + r % 64) as byte;
      Decode4(r, s);
    }
  }

  lemma Decode3(r: int, s: seq<byte>)
    requires IsRune(r) && 0x800 <= r < 0x10000 && |s| >= 3
    requires s[0] as int == 0xE0 + r / 4096 && s[1] as int == 0x80 + r / 64 % 64 && s[2] as int == 0x80 + r % 64
    ensures DecodeRune(s) == (r, 3)
  {
    assert r == r / 4096 * 4096 + r / 64 % 64 * 64 + r % 64;
  }

  lemma Decode4(r: int, s: seq<byte>)
    requires 0x10000 <= r <= 0x10FFFF && |s| >= 4
    requires s[0] as int == 0xF0 + r / 262144 && s[1] as int == 0x80 + r / 4096 % 64
    requires s[2] as int == 0x80 + r / 64 % 64 && s[3] as int == 0x80 + r % 64
    ensures DecodeRune(s) == (r, 4)
  {
    var x, y := r / 262144, r / 4096 % 64;
    RuneDigits(r);
    assert x <= 4 && (x == 0 ==> y >= 16) && (x == 4 ==> y < 16);
  }

  lemma RuneDigits(r: int)
    requires 0 <= r
    ensures r == r / 262144 * 262144 + r / 4096 % 64 * 4096 + r / 64 % 64 * 64 + r % 64
    ensures 0 <= r / 4096 % 64 < 64 && 0 <= r / 64 % 64 < 64 && 0 <= r % 64 < 64
  {
    assert r / 4096 == r / 64 / 64 && r / 262144 == r / 64 / 64 / 64;
    assert r == r / 64 * 64 + r % 64 && r / 64 == r / 64 / 64 * 64 + r / 64 % 64;
  }

  /** A well-formed sequence is the encoding of the rune it decodes to. */
  lemma EncodeDecoded(s: seq<byte>)
    requires s != [] && DecodeRune(s).1 > 1
    ensures EncodeRune(DecodeRune(s).0) == s[..DecodeRune(s).1]
  {
    var n := DecodeRune(s).1;
    if n == 2 {
      Digits(0, 0, s[0] as int - 0xC0, s[1] as int - 0x80);
      assert s[..2] == [s[0], s[1]];
    } else if n == 3 {
      Encode3(s);
    } else {
      Encode4(s);
    }
  }

  lemma Encode3(s: seq<byte>)
    requires s != [] && DecodeRune(s).1 == 3
    ensures EncodeRune(DecodeRune(s).0) == s[..3]
  {
    Digits(0, s[0] as int - 0xE0, s[1] as int - 0x80, s[2] as int - 0x80);
    assert s[..3] == [s[0], s[1], s[2]];
  }

  lemma Encode4(s: seq<byte>)
    requires s != [] && DecodeRune(s).1 == 4
    ensures EncodeRune(DecodeRune(s).0) == s[..4]
  {
    Digits(s[0] as int - 0xF0, s[1] as int - 0x80, s[2] as int - 0x80, s[3] as int - 0x80);
    assert s[..4] == [s[0], s[1], s[2], s[3]];
  }

  /** Only ASCII runes have ASCII bytes in their encoding. */
  lemma AsciiAlone(r: int, i: nat)
    requires i < |EncodeRune(r)| && EncodeRune(r)[i] < 0x80
    ensures |EncodeRune(r)| == 1 && EncodeRune(r)[0] as int == r
  {
  }

  /** What a byte decodes to depends on what follows only through continuation bytes. */
  lemma DecodeLocal(s: seq<byte>, k: nat, t: seq<byte>)
    requires 0 < k <= |s| && DecodeRune(s).1 <= k
    requires t != [] && t[0] < 0x80
    ensures DecodeRune(s[..k] + t) == DecodeRune(s)
  {
  }

  // ----- The encoding is that of RFC 3629

  /** How many bytes a rune takes, as the table in section 3 of RFC 3629 has it. */
  lemma EncodedLength(r: int)
    requires IsRune(r)
    ensures |EncodeRune(r)| == 1 <==> r <= 0x7F
    ensures |EncodeRune(r)| == 2 <==> 0x80 <= r <= 0x7FF
    ensures |EncodeRune(r)| == 3 <==> 0x800 <= r <= 0xFFFF
    ensures |EncodeRune(r)| == 4 <==> 0x10000 <= r
  {
  }

  /** The number that bytes of the form 10xxxxxx spell, six bits each. */
  function SixBits(s: seq<byte>): int {
    if s == [] then 0 else SixBits(s[..|s| - 1]) * 64 + (s[|s| - 1] as int - 0x80)
  }

  /** The bits of a rune: in the first byte behind the mark of its length, and in the bytes that follow, which all continue. */
  lemma EncodedBits(r: int)
    requires IsRune(r)
    ensures var e := EncodeRune(r);
            var mark := if |e| == 1 then 0 else if |e| == 2 then 0xC0 else if |e| == 3 then 0xE0 else 0xF0;
            && (forall i :: 1 <= i < |e| ==> 0x80 <= e[i] < 0xC0)
            && mark <= e[0] as int
            && r == (e[0] as int - mark) * (if |e| == 1 then 1 else if |e| == 2 then 64 else if |e| == 3 then 4096 else 262144)
                    + SixBits(e[1..])
  {
    var e := EncodeRune(r);
    SixBitsOf(e[1..]);
    hide SixBits;
    RuneDigits(r);
  }

  lemma SixBitsOf(s: seq<byte>)
    ensures |s| == 0 ==> SixBits(s) == 0
    ensures |s| == 1 ==> SixBits(s) == s[0] as int - 0x80
    ensures |s| == 2 ==> SixBits(s) == (s[0] as int - 0x80) * 64 + (s[1] as int - 0x80)
    ensures |s| == 3 ==> SixBits(s) == (s[0] as int - 0x80) * 4096 + (s[1] as int - 0x80) * 64 + (s[2] as int - 0x80)
  {
    if 0 < |s| {
      SixBitsOf(s[..|s| - 1]);
    }
  }

  /** What is decoded: the rune whose encoding comes first, or one byte as a replacement character if there is none. */
  lemma DecodeExactly(s: seq<byte>, r: int, n: nat)
    requires s != []
    ensures DecodeRune(s) == (r, n) <==>
              || (IsRune(r) && EncodeRune(r) <= s && n == |EncodeRune(r)|)
              || ((r, n) == (0xFFFD, 1) && forall x :: IsRune(x) ==> !(EncodeRune(x) <= s))
  {
    hide EncodeRune, DecodeRune;
    forall x | IsRune(x) && EncodeRune(x) <= s ensures DecodeRune(s) == (x, |EncodeRune(x)|) {
      DecodeEncoded(x, s[|EncodeRune(x)|..]);
      assert s == EncodeRune(x) + s[|EncodeRune(x)|..];
    }
    Decoded(s);
  }

  lemma Decoded(s: seq<byte>)
    requires s != []
    ensures var (r, n) := DecodeRune(s);
            (IsRune(r) && EncodeRune(r) <= s && n == |EncodeRune(r)|) || (r, n) == (0xFFFD, 1)
  {
    if DecodeRune(s).1 > 1 {
      EncodeDecoded(s);
    }
  }

  /** The white space of the Unicode standard. */
  lemma SpacesAre(r: int)
    ensures IsSpaceRune(r) <==> r in {0x09, 0x0A, 0x0B, 0x0C, 0x0D, 0x20, 0x85, 0xA0, 0x1680, 0x2000, 0x2001, 0x2002, 0x2003,
                                      0x2004, 0x2005, 0x2006, 0x2007, 0x2008, 0x2009, 0x200A, 0x2028, 0x2029, 0x202F, 0x205F, 0x3000}
  {
  }
}
