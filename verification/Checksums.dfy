/** The two checksums behind the card-number and IBAN rules, and the errors they catch. */
module Checksums {
  import opened Bytes
  import opened Utf8

  // ----- Luhn

  predicate AllDigits(s: seq<byte>) { forall i :: 0 <= i < |s| ==> IsDigit(s[i]) }

  function DigitsOf(text: seq<byte>): (r: seq<byte>)
    ensures AllDigits(r)
  {
    if text == [] then []
    else DigitsOf(text[..|text| - 1]) + if IsDigit(text[|text| - 1]) then [text[|text| - 1]] else []
  }

  method DigitsOnly(text: seq<byte>) returns (digits: seq<byte>)
    ensures digits == DigitsOf(text)
  {
    digits := [];
    for i := 0 to |text|
      invariant digits == DigitsOf(text[..i])
    {
      assert text[..i + 1][..i] == text[..i];
      if IsDigit(text[i]) {
        digits := digits + [text[i]];
      }
    }
    assert text[..|text|] == text;
  }

  /** What a digit contributes: doubled, and the digits of the result added, in every second place. */
  function Term(n: int, double: bool): int {
    if !double then n else if n * 2 > 9 then n * 2 - 9 else n * 2
  }

  function Digit(b: byte): int { b as int - 48 }

  /** The sum over s from the right, doubling every second digit; `double` tells whether the last one is doubled. */
  function LuhnSum(s: seq<byte>, double: bool): int {
    if s == [] then 0 else Term(Digit(s[|s| - 1]), double) + LuhnSum(s[..|s| - 1], !double)
  }

  predicate LuhnValid(s: seq<byte>) { s != [] && LuhnSum(s, false) % 10 == 0 }

  method ValidLuhn(digits: seq<byte>) returns (valid: bool)
    requires AllDigits(digits)
    ensures valid == LuhnValid(digits)
  {
    if |digits| == 0 {
      return false;
    }
    var sum, double := 0, false;
    var i := |digits|;
    assert digits[..i] == digits;
    while i > 0
      invariant 0 <= i <= |digits|
      invariant sum + LuhnSum(digits[..i], double) == LuhnSum(digits, false)
    {
      i := i - 1;
      assert digits[..i + 1][..i] == digits[..i];
      var n := Digit(digits[i]);
      if double {
        n := n * 2;
        if n > 9 {
          n := n - 9;
        }
      }
      sum := sum + n;
      double := !double;
    }
    valid := sum % 10 == 0;
  }

  /** Whether the digit at i is doubled. */
  predicate Doubled(s: seq<byte>, i: nat, double: bool)
    requires i < |s|
  {
    if (|s| - 1 - i) % 2 == 0 then double else !double
  }

  lemma {:induction false} LuhnChange(s: seq<byte>, i: nat, x: byte, double: bool)
    requires i < |s|
    ensures LuhnSum(s[i := x], double) - LuhnSum(s, double)
         == Term(Digit(x), Doubled(s, i, double)) - Term(Digit(s[i]), Doubled(s, i, double))
  {
    var front, last := s[..|s| - 1], |s| - 1;
    if i == last {
      assert s[i := x][..last] == front;
    } else {
      LuhnChange(front, i, x, !double);
      assert s[i := x][..last] == front[i := x];
    }
  }

  /** Every change of a single digit of a valid number is caught. */
  lemma LuhnCatchesSubstitution(s: seq<byte>, i: nat, x: byte)
    requires AllDigits(s) && i < |s| && IsDigit(x) && x != s[i] && LuhnValid(s)
    ensures !LuhnValid(s[i := x])
  {
    hide LuhnSum, Term, Doubled;
    LuhnChange(s, i, x, false);
    var d := Doubled(s, i, false);
    TermsDiffer(Digit(x), Digit(s[i]), d);
    SameRemainder(LuhnSum(s, false), LuhnSum(s[i := x], false), Term(Digit(x), d) - Term(Digit(s[i]), d));
  }

  lemma TermsDiffer(m: int, n: int, double: bool)
    requires 0 <= m <= 9 && 0 <= n <= 9 && m != n
    ensures -9 <= Term(m, double) - Term(n, double) <= 9 && Term(m, double) != Term(n, double)
  {
  }

  /** Swapping two adjacent different digits of a valid number is caught unless they are 0 and 9. */
  lemma LuhnCatchesSwap(s: seq<byte>, i: nat)
    requires AllDigits(s) && i + 1 < |s| && s[i] != s[i + 1] && LuhnValid(s)
    ensures LuhnValid(s[i := s[i + 1]][i + 1 := s[i]]) <==> {Digit(s[i]), Digit(s[i + 1])} == {0, 9}
  {
    var a, b := Digit(s[i]), Digit(s[i + 1]);
    var d := Doubled(s, i, false);
    var half := s[i := s[i + 1]];
    LuhnChange(s, i, s[i + 1], false);
    LuhnChange(half, i + 1, s[i], false);
    assert Doubled(half, i + 1, false) == !d;
    SwapTerms(a, b, d);
    SameRemainder(LuhnSum(s, false), LuhnSum(half[i + 1 := s[i]], false), Term(b, d) - Term(a, d) + Term(a, !d) - Term(b, !d));
  }

  lemma SameRemainder(before: int, after: int, change: int)
    requires before % 10 == 0 && after == before + change
    ensures after % 10 == 0 <==> change % 10 == 0
  {
  }

  lemma SwapTerms(a: int, b: int, d: bool)
    requires 0 <= a <= 9 && 0 <= b <= 9 && a != b
    ensures (Term(b, d) - Term(a, d) + Term(a, !d) - Term(b, !d)) % 10 == 0 <==> {a, b} == {0, 9}
  {
  }

  function CheckDigit(prefix: seq<byte>): byte { ((10 - LuhnSum(prefix, true) % 10) % 10 + 48) as byte }

  /** Every prefix has exactly one check digit. */
  lemma LuhnCheckDigit(prefix: seq<byte>, c: byte)
    requires IsDigit(c)
    ensures LuhnValid(prefix + [c]) <==> c == CheckDigit(prefix)
  {
  }

  // ----- IBAN, MOD 97-10

  predicate IsLetter(b: byte) { IsUpper(b) }

  predicate Spelled(s: seq<byte>) { forall i :: 0 <= i < |s| ==> IsDigit(s[i]) || IsLetter(s[i]) }

  /** A digit stands for itself, a letter for 10 to 35. */
  function Value(b: byte): int { if IsDigit(b) then b as int - 48 else b as int - 55 }

  function Weight(b: byte): int { if IsDigit(b) then 10 else 100 }

  /** The decimal number that s spells when every letter is written as two digits. */
  function Expand(s: seq<byte>): int {
    if s == [] then 0 else Expand(s[..|s| - 1]) * Weight(s[|s| - 1]) + Value(s[|s| - 1])
  }

  function Rearranged(iban: seq<byte>): seq<byte>
    requires |iban| >= 4
  {
    iban[4..] + iban[..4]
  }

  predicate Mod97Valid(s: seq<byte>) { Spelled(s) && Expand(s) % 97 == 1 }

  /** The white space of the text removed, and its other runes mapped to upper case. */
  function Normalized(text: seq<byte>, upper: int -> int): seq<byte>
    decreases |text|
  {
    if text == [] then []
    else
      var (r, n) := DecodeRune(text);
      (if IsSpaceRune(r) then [] else EncodeRune(upper(r))) + Normalized(text[n..], upper)
  }

  lemma NormalizedOnce(text: seq<byte>, upper: int -> int)
    requires text != []
    ensures var (r, n) := DecodeRune(text);
            Normalized(text, upper) == (if IsSpaceRune(r) then [] else EncodeRune(upper(r))) + Normalized(text[n..], upper)
  {
    hide DecodeRune, EncodeRune, IsSpaceRune;
  }

  predicate ValidIBAN(text: seq<byte>, upper: int -> int) {
    |Normalized(text, upper)| >= 4 && Mod97Valid(Rearranged(Normalized(text, upper)))
  }

  method NormalizedIBAN(text: seq<byte>, upper: int -> int) returns (iban: seq<byte>)
    ensures iban == Normalized(text, upper)
  {
    hide *;
    iban := [];
    var i := 0;
    assert text[0..] == text;
    while i < |text|
      invariant 0 <= i <= |text| && iban + Normalized(text[i..], upper) == Normalized(text, upper)
    {
      var (r, n) := DecodeRune(text[i..]);
      NormalizedOnce(text[i..], upper);
      assert text[i..][n..] == text[i + n..];
      i := i + n;
      if IsSpaceRune(r) {
        continue;
      }
      iban := iban + EncodeRune(upper(r));
    }
    NormalizedNothing(upper);
    assert text[|text|..] == [];
  }

  lemma NormalizedNothing(upper: int -> int)
    ensures Normalized([], upper) == []
  {
  }

  lemma AsciiRune(s: seq<byte>)
    requires s != []
    ensures s[0] < 0x80 ==> DecodeRune(s) == (s[0] as int, 1)
    ensures s[0] >= 0x80 ==> DecodeRune(s).0 >= 0x80
  {
  }

  /** The digit-by-digit loop computes the remainder of the whole expanded number. */
  method ValidIBANMod97(text: seq<byte>, upper: int -> int) returns (valid: bool)
    ensures valid <==> ValidIBAN(text, upper)
  {
    hide DecodeRune, Normalized;
    var iban := NormalizedIBAN(text, upper);
    if |iban| < 4 {
      return false;
    }
    var rearranged := iban[4..] + iban[..4];
    var remainder, i := 0, 0;
    while i < |rearranged|
      invariant 0 <= i <= |rearranged| && 0 <= remainder < 97 && remainder == Expand(rearranged[..i]) % 97
      invariant Spelled(rearranged[..i])
    {
      var (r, n) := DecodeRune(rearranged[i..]);
      var b := rearranged[i];
      AsciiRune(rearranged[i..]);
      assert rearranged[..i + 1][..i] == rearranged[..i];
      RemainderStep(Expand(rearranged[..i]), Weight(b), Value(b));
      if 48 <= r <= 57 {
        remainder := (remainder * 10 + (r - 48)) % 97;
      } else if 65 <= r <= 90 {
        remainder := (remainder * 100 + (r - 65 + 10)) % 97;
      } else {
        return false;
      }
      i := i + n;
    }
    assert rearranged[..|rearranged|] == rearranged;
    valid := remainder == 1;
  }

  lemma RemainderStep(v: int, w: int, d: int)
    requires w == 10 || w == 100
    ensures (v % 97 * w + d) % 97 == (v * w + d) % 97
  {
    var k := v / 97;
    assert v == k * 97 + v % 97;
    if w == 10 {
      AddMultiple(v % 97 * 10 + d, k * 10);
    } else {
      AddMultiple(v % 97 * 100 + d, k * 100);
    }
  }

  lemma AddMultiple(x: int, k: int)
    ensures (k * 97 + x) % 97 == x % 97
  {
  }

  function Shift(s: seq<byte>): int {
    if s == [] then 1 else Shift(s[..|s| - 1]) * Weight(s[|s| - 1])
  }

  lemma {:induction false} ExpandConcat(a: seq<byte>, b: seq<byte>)
    ensures Expand(a + b) == Expand(a) * Shift(b) + Expand(b)
  {
    if b == [] {
      assert a + b == a;
    } else {
      var front, last := b[..|b| - 1], b[|b| - 1];
      assert (a + b)[..|a + b| - 1] == a + front;
      ExpandConcat(a, front);
      Distribute(Expand(a), Shift(front), Expand(front), Weight(last), Value(last));
    }
  }

  lemma Distribute(x: int, y: int, z: int, w: int, v: int)
    ensures (x * y + z) * w + v == x * (y * w) + (z * w + v)
  {
    assert (x * y) * w == x * (y * w);
  }

  /** Ten is invertible modulo 97: trailing digits never hide a difference. */
  lemma {:induction false} ShiftInvertible(x: int, b: seq<byte>)
    requires (x * Shift(b)) % 97 == 0
    ensures x % 97 == 0
  {
    if b != [] {
      var front, w := b[..|b| - 1], Weight(b[|b| - 1]);
      var y := x * Shift(front);
      assert x * Shift(b) == y * w;
      TenInvertible(y, w);
      ShiftInvertible(x, front);
    }
  }

  lemma TenInvertible(y: int, w: int)
    requires w == 10 || w == 100
    requires (y * w) % 97 == 0
    ensures y % 97 == 0
  {
    var k := y * w / 97;
    if w == 10 {
      assert y * 10 == 97 * k;
      assert y == 97 * (68 * k - 7 * y);
    } else {
      assert y * 100 == 97 * k;
      assert y == 97 * (65 * k - 67 * y);
    }
  }

  lemma ExpandOne(a: seq<byte>, c: byte, b: seq<byte>)
    ensures Expand(a + [c] + b) == (Expand(a) * Weight(c) + Value(c)) * Shift(b) + Expand(b)
  {
    assert (a + [c])[..|a|] == a;
    ExpandConcat(a + [c], b);
  }

  lemma CongruentDifference(x: int, y: int)
    ensures x % 97 == y % 97 <==> (x - y) % 97 == 0
  {
  }

  /** Every change of one character into another of its kind is caught. */
  lemma Mod97CatchesSubstitution(s: seq<byte>, i: nat, c: byte)
    requires Mod97Valid(s) && i < |s| && c != s[i]
    requires (IsDigit(c) && IsDigit(s[i])) || (IsLetter(c) && IsLetter(s[i]))
    ensures !Mod97Valid(s[i := c])
  {
    var a, b := s[..i], s[i + 1..];
    assert s == a + [s[i]] + b && s[i := c] == a + [c] + b;
    ExpandOne(a, s[i], b);
    ExpandOne(a, c, b);
    hide Expand, Shift;
    SwapDifference(Expand(a) * Weight(c), Value(s[i]), Value(c), b, Expand(b), Expand(s), Expand(s[i := c]));
    ValuesDiffer(s[i], c);
  }

  lemma ValuesDiffer(a: byte, c: byte)
    requires c != a && ((IsDigit(c) && IsDigit(a)) || (IsLetter(c) && IsLetter(a)))
    ensures (Value(c) - Value(a)) % 97 != 0
  {
  }

  lemma Factor(x: int, y: int, sh: int)
    ensures x * sh - y * sh == (x - y) * sh
  {
  }

  /** What two adjacent characters contribute. */
  function Pair(a: byte, b: byte): int { Value(a) * Weight(b) + Value(b) }

  lemma ExpandTwo(a: seq<byte>, c: byte, d: byte, b: seq<byte>)
    ensures Expand(a + [c, d] + b) == (Expand(a) * (Weight(c) * Weight(d)) + Pair(c, d)) * Shift(b) + Expand(b)
  {
    assert a + [c, d] == (a + [c]) + [d];
    ExpandOne(a + [c], d, b);
    assert (a + [c])[..|a|] == a;
    Distribute(Expand(a), Weight(c), Value(c), Weight(d), Value(d));
  }

  /** The pairs whose exchange leaves the remainder alone: 1 and B, 2 and M, 3 and X. */
  predicate BlindPair(a: byte, b: byte) {
    (a, b) in {(49, 66), (66, 49), (50, 77), (77, 50), (51, 88), (88, 51)}
  }

  lemma NineInvertible(z: int)
    requires -97 < z < 97 && (9 * z) % 97 == 0
    ensures z == 0
  {
    var k := 9 * z / 97;
    assert z == 97 * (54 * k - 5 * z);
  }

  lemma NinetyNineInvertible(z: int)
    requires -97 < z < 97 && (99 * z) % 97 == 0
    ensures z == 0
  {
    var k := 99 * z / 97;
    assert 2 * z == 97 * (k - z);
  }

  lemma MixedPairs(d: int, n: int)
    requires 0 <= d <= 9 && 10 <= n <= 35
    ensures (n * 10 + d - (d * 100 + n)) % 97 == 0 <==> n == 11 * d
    ensures (d * 100 + n - (n * 10 + d)) % 97 == 0 <==> n == 11 * d
  {
    assert n * 10 + d - (d * 100 + n) == 9 * (n - 11 * d);
    assert d * 100 + n - (n * 10 + d) == 9 * (11 * d - n);
    if (9 * (n - 11 * d)) % 97 == 0 { NineInvertible(n - 11 * d); }
    if (9 * (11 * d - n)) % 97 == 0 { NineInvertible(11 * d - n); }
  }

  lemma PairsDiffer(a: byte, b: byte)
    requires (IsDigit(a) || IsLetter(a)) && (IsDigit(b) || IsLetter(b)) && a != b
    ensures (Pair(b, a) - Pair(a, b)) % 97 == 0 <==> BlindPair(a, b)
  {
    var x, y := Value(a), Value(b);
    if IsDigit(a) && IsDigit(b) {
      assert Pair(b, a) - Pair(a, b) == 9 * (y - x);
      if (9 * (y - x)) % 97 == 0 { NineInvertible(y - x); }
    } else if IsLetter(a) && IsLetter(b) {
      assert Pair(b, a) - Pair(a, b) == 99 * (y - x);
      if (99 * (y - x)) % 97 == 0 { NinetyNineInvertible(y - x); }
    } else if IsDigit(a) {
      MixedPairs(x, y);
    } else {
      MixedPairs(y, x);
    }
  }

  /** Swapping two adjacent different characters is caught, except for exactly three pairs. */
  lemma Mod97CatchesSwap(s: seq<byte>, i: nat)
    requires Mod97Valid(s) && i + 1 < |s| && s[i] != s[i + 1]
    ensures Mod97Valid(s[i := s[i + 1]][i + 1 := s[i]]) <==> BlindPair(s[i], s[i + 1])
  {
    var a, c, d, b := s[..i], s[i], s[i + 1], s[i + 2..];
    var swapped := s[i := d][i + 1 := c];
    assert s == a + [c, d] + b && swapped == a + [d, c] + b;
    ExpandTwo(a, c, d, b);
    ExpandTwo(a, d, c, b);
    PairsDiffer(c, d);
    assert Spelled(swapped);
    hide Expand, Shift, Pair, BlindPair;
    SwapDifference(Expand(a) * (Weight(c) * Weight(d)), Pair(c, d), Pair(d, c), b, Expand(b), Expand(s), Expand(swapped));
  }

  lemma SwapDifference(base: int, x: int, y: int, b: seq<byte>, tail: int, before: int, after: int)
    requires before == (base + x) * Shift(b) + tail && after == (base + y) * Shift(b) + tail
    ensures before % 97 == after % 97 <==> (y - x) % 97 == 0
  {
    var sh := Shift(b);
    Factor(base + y, base + x, sh);
    CongruentDifference(after, before);
    assert after - before == (y - x) * sh;
    if (after - before) % 97 == 0 {
      ShiftInvertible(y - x, b);
    }
    if (y - x) % 97 == 0 {
      MultipleOf97(y - x, sh);
    }
  }

  lemma MultipleOf97(x: int, sh: int)
    requires x % 97 == 0
    ensures (x * sh) % 97 == 0
  {
    var k := x / 97;
    assert x * sh == 97 * (k * sh);
  }

  /** The same for a change in the IBAN itself: rearranging only moves it. */
  lemma IBANCatchesSubstitution(iban: seq<byte>, i: nat, c: byte)
    requires |iban| >= 4 && Mod97Valid(Rearranged(iban)) && i < |iban| && c != iban[i]
    requires (IsDigit(c) && IsDigit(iban[i])) || (IsLetter(c) && IsLetter(iban[i]))
    ensures !Mod97Valid(Rearranged(iban[i := c]))
  {
    var j: nat := if i < 4 then |iban| - 4 + i else i - 4;
    assert Rearranged(iban[i := c]) == Rearranged(iban)[j := c];
    Mod97CatchesSubstitution(Rearranged(iban), j, c);
  }

  // ----- The same in the text that is checked

  /** What this model asks of the case mapping: ASCII digits and capitals stay. */
  ghost predicate KeepsSpelled(upper: int -> int) { forall b: byte :: IsDigit(b) || IsLetter(b) ==> upper(b as int) == b as int }

  lemma RuneBefore(text: seq<byte>, i: nat)
    requires 0 < i < |text| && text[i] < 0x80
    ensures DecodeRune(text).1 <= i && DecodeRune(text[..i]) == DecodeRune(text)
  {
  }

  /** At an ASCII byte the text can be cut. */
  lemma {:induction false} NormalizedSplit(text: seq<byte>, i: nat, upper: int -> int)
    requires i < |text| && text[i] < 0x80
    ensures Normalized(text, upper) == Normalized(text[..i], upper) + Normalized(text[i..], upper)
    decreases i
  {
    hide *;
    if i == 0 {
      NormalizedNothing(upper);
      assert text[..0] == [] && text[0..] == text;
    } else {
      RuneBefore(text, i);
      NormalizedOnce(text, upper);
      NormalizedOnce(text[..i], upper);
      var n := DecodeRune(text).1;
      NormalizedSplit(text[n..], i - n, upper);
      assert text[n..][..i - n] == text[..i][n..] && text[n..][i - n..] == text[i..];
    }
  }

  lemma NormalizedAt(text: seq<byte>, i: nat, upper: int -> int)
    requires KeepsSpelled(upper) && i < |text| && (IsDigit(text[i]) || IsLetter(text[i]))
    ensures Normalized(text, upper) == Normalized(text[..i], upper) + [text[i]] + Normalized(text[i + 1..], upper)
  {
    hide Normalized, DecodeRune;
    NormalizedSplit(text, i, upper);
    NormalizedOnce(text[i..], upper);
    AsciiRune(text[i..]);
    assert text[i..][1..] == text[i + 1..];
    assert EncodeRune(text[i] as int) == [text[i]];
  }

  /** In whatever way a valid IBAN is spaced, every change of one of its digits or capitals into another is caught. */
  lemma TextCatchesSubstitution(text: seq<byte>, i: nat, c: byte, upper: int -> int)
    requires KeepsSpelled(upper) && ValidIBAN(text, upper) && i < |text| && c != text[i]
    requires (IsDigit(c) && IsDigit(text[i])) || (IsLetter(c) && IsLetter(text[i]))
    ensures !ValidIBAN(text[i := c], upper)
  {
    hide Normalized, Mod97Valid;
    var changed := text[i := c];
    NormalizedAt(text, i, upper);
    NormalizedAt(changed, i, upper);
    assert changed[..i] == text[..i] && changed[i + 1..] == text[i + 1..];
    var front := Normalized(text[..i], upper);
    assert Normalized(changed, upper) == Normalized(text, upper)[|front| := c];
    IBANCatchesSubstitution(Normalized(text, upper), |front|, c);
  }
}
