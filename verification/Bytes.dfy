/** Bytes and the ASCII case folding shared by the keyword prefilter and the scanner. */
module Bytes {
  newtype byte = x: int | 0 <= x < 256

  const NEWLINE: byte := 10

  function LowerASCII(b: byte): byte {
    if 65 <= b <= 90 then b + 32 else b
  }

  function Fold(s: seq<byte>): seq<byte> {
    seq(|s|, i requires 0 <= i < |s| => LowerASCII(s[i]))
  }

  lemma FoldStep(text: seq<byte>, i: nat)
    requires i < |text|
    ensures Fold(text[..i + 1]) == Fold(text[..i]) + [LowerASCII(text[i])]
  {
  }

  /** Lowers the ASCII capitals. */
  method FoldASCII(input: seq<byte>) returns (out: seq<byte>)
    ensures out == Fold(input)
    ensures |out| == |input| && forall i :: 0 <= i < |out| ==> SameLetter(out[i], input[i]) && !IsUpper(out[i])
  {
    out := [];
    for i := 0 to |input|
      invariant out == Fold(input[..i])
    {
      FoldStep(input, i);
      out := out + [LowerASCII(input[i])];
    }
    assert input[..|input|] == input;
    FoldTwice(input);
    FoldMeans(out, input);
  }

  lemma FoldTwice(s: seq<byte>)
    ensures Fold(Fold(s)) == Fold(s)
  {
  }

  predicate IsUpper(b: byte) { 65 <= b <= 90 }

  predicate IsDigit(b: byte) { 48 <= b <= 57 }

  predicate IsAlphaNum(b: byte) { 65 <= b <= 90 || 97 <= b <= 122 || IsDigit(b) }

  // ----- Which characters these are

  /** The bytes of an ASCII text. */
  function Ascii(s: string): seq<byte> {
    seq(|s|, i requires 0 <= i < |s| => if s[i] < 128 as char then s[i] as int as byte else 0)
  }

  const CAPITALS := "ABCDEFGHIJKLMNOPQRSTUVWXYZ"
  const SMALL := "abcdefghijklmnopqrstuvwxyz"
  const DIGITS := "0123456789"

  lemma Classes(b: byte)
    ensures IsDigit(b) <==> b as char in DIGITS
    ensures IsUpper(b) <==> b as char in CAPITALS
    ensures IsAlphaNum(b) <==> b as char in DIGITS || b as char in CAPITALS || b as char in SMALL
  {
    var c := b as char;
    assert c in DIGITS <==> '0' <= c <= '9' by { InRow(DIGITS, '0', c); }
    assert c in CAPITALS <==> 'A' <= c <= 'Z' by { InRow(CAPITALS, 'A', c); }
    assert c in SMALL <==> 'a' <= c <= 'z' by { InRow(SMALL, 'a', c); }
  }

  /** A row of consecutive characters holds what lies between its first and its last. */
  lemma InRow(row: string, first: char, c: char)
    requires row != [] && forall i :: 0 <= i < |row| ==> row[i] as int == first as int + i
    ensures c in row <==> first as int <= c as int < first as int + |row|
  {
    if first as int <= c as int < first as int + |row| {
      assert row[c as int - first as int] == c;
    }
  }

  // ----- What folding does

  /** Equal, or one letter in its two cases. */
  predicate SameLetter(a: byte, b: byte) { a == b || exists i :: 0 <= i < 26 && (TwoCases(i, a, b) || TwoCases(i, b, a)) }

  predicate TwoCases(i: nat, a: byte, b: byte)
    requires i < 26
  {
    a as int == CAPITALS[i] as int && b as int == SMALL[i] as int
  }

  lemma LettersInRow(i: nat)
    requires i < 26
    ensures CAPITALS[i] as int == 65 + i && SMALL[i] as int == 97 + i
  {
  }

  lemma FoldedByte(a: byte, b: byte)
    ensures LowerASCII(a) == LowerASCII(b) <==> SameLetter(a, b)
    ensures !IsUpper(LowerASCII(a)) && (!IsUpper(a) ==> LowerASCII(a) == a)
  {
    if a != b && LowerASCII(a) == LowerASCII(b) {
      var i := if IsUpper(a) then a as int - 65 else b as int - 65;
      LettersInRow(i);
      assert TwoCases(i, a, b) || TwoCases(i, b, a);
    }
    hide LowerASCII;
    if SameLetter(a, b) {
      SameFold(a, b);
    }
  }

  lemma SameFold(a: byte, b: byte)
    requires SameLetter(a, b)
    ensures LowerASCII(a) == LowerASCII(b)
  {
    if a != b {
      var i :| 0 <= i < 26 && (TwoCases(i, a, b) || TwoCases(i, b, a));
      LettersInRow(i);
    }
  }

  /** Texts fold to the same exactly if they differ at most in the case of ASCII letters; what they fold to holds no capital,
      and whatever is no capital stays. */
  lemma FoldMeans(a: seq<byte>, b: seq<byte>)
    ensures Fold(a) == Fold(b) <==> |a| == |b| && forall i :: 0 <= i < |a| ==> SameLetter(a[i], b[i])
    ensures |Fold(a)| == |a| && forall i :: 0 <= i < |a| ==> !IsUpper(Fold(a)[i]) && (!IsUpper(a[i]) ==> Fold(a)[i] == a[i])
  {
    hide LowerASCII, SameLetter;
    forall i | 0 <= i < |a|
      ensures !IsUpper(Fold(a)[i]) && (!IsUpper(a[i]) ==> Fold(a)[i] == a[i])
      ensures |a| == |b| ==> (Fold(a)[i] == Fold(b)[i] <==> SameLetter(a[i], b[i]))
    {
      FoldedByte(a[i], if i < |b| then b[i] else a[i]);
    }
    if |a| == |b| && forall i :: 0 <= i < |a| ==> SameLetter(a[i], b[i]) {
      assert forall i :: 0 <= i < |a| ==> Fold(a)[i] == Fold(b)[i];
    }
    if Fold(a) == Fold(b) {
      forall i | 0 <= i < |a| ensures SameLetter(a[i], b[i]) {
        assert Fold(a)[i] == Fold(b)[i];
      }
    }
  }
}
