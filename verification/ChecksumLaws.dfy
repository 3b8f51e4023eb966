/** The checksums in the words of their standards: which number an IBAN spells, and which digits Luhn's sum adds up. */
module ChecksumLaws {
  import opened Bytes
  import opened Utf8
  import opened Checksums

  // ----- Digits

  /** Nothing but the ASCII digits is kept, every one of them, in order. */
  lemma {:induction false} DigitsKept(a: seq<byte>, c: byte, b: seq<byte>)
    ensures DigitsOf([]) == []
    ensures DigitsOf(a + [c] + b) == DigitsOf(a) + (if c as char in DIGITS then [c] else []) + DigitsOf(b)
    decreases |b|
  {
    var s := a + [c];
    if b == [] {
      assert s + b == s && s[..|s| - 1] == a;
      Classes(c);
    } else {
      DigitsKept(a, c, b[..|b| - 1]);
      assert (s + b)[..|s + b| - 1] == s + b[..|b| - 1];
    }
  }

  // ----- Luhn

  /** b is the character of the digit or letter worth v: 0 to 9, and A to Z from 10. */
  predicate Worth(b: byte, v: int) { 0 <= v < 36 && b as int == (DIGITS + CAPITALS)[v] as int }

  lemma WorthMeans(b: byte, v: int)
    ensures Worth(b, v) && v < 10 <==> IsDigit(b) && Digit(b) == v
    ensures Worth(b, v) <==> (IsDigit(b) || IsUpper(b)) && Value(b) == v
  {
    if 0 <= v < 36 {
      BaseRow(v);
    }
  }

  lemma BaseRow(v: int)
    requires 0 <= v < 36
    ensures (DIGITS + CAPITALS)[v] as int == if v < 10 then 48 + v else 55 + v
  {
    if v >= 10 {
      LettersInRow(v - 10);
    } else {
      DigitRow(v);
    }
  }

  lemma DigitRow(v: int)
    requires 0 <= v < 10
    ensures DIGITS[v] as int == 48 + v
  {
  }

  /** What the digit at i adds: counted from the right, every second one is doubled, and of two digits both are added. */
  ghost predicate Adds(s: seq<byte>, i: nat, x: int)
    requires i < |s|
  {
    exists v :: Worth(s[i], v) && v < 10
                && x == if (|s| - i) % 2 == 0 then 2 * v / 10 + 2 * v % 10 else v
  }

  function Sum(xs: seq<int>): int { if xs == [] then 0 else Sum(xs[..|xs| - 1]) + xs[|xs| - 1] }

  lemma TermAdds(s: seq<byte>, i: nat, x: int)
    requires i < |s| && Adds(s, i, x)
    ensures x == Term(Digit(s[i]), Doubled(s, i, false))
  {
    var v :| Worth(s[i], v) && v < 10 && x == if (|s| - i) % 2 == 0 then 2 * v / 10 + 2 * v % 10 else v;
    WorthMeans(s[i], v);
    WorthRange(s[i], v);
    hide Worth, Digit, IsDigit;
    DigitsAdded(v);
    EverySecond(s, i);
  }

  lemma WorthRange(b: byte, v: int)
    requires Worth(b, v)
    ensures 0 <= v < 36
  {
  }

  lemma DigitsAdded(v: int)
    requires 0 <= v < 10
    ensures Term(v, true) == 2 * v / 10 + 2 * v % 10 && Term(v, false) == v
  {
  }

  lemma EverySecond(s: seq<byte>, i: nat)
    requires i < |s|
    ensures Doubled(s, i, false) <==> (|s| - i) % 2 == 0
  {
  }

  lemma {:induction false} SumOfTerms(s: seq<byte>, double: bool, xs: seq<int>)
    requires |xs| == |s| && forall i :: 0 <= i < |s| ==> xs[i] == Term(Digit(s[i]), Doubled(s, i, double))
    ensures LuhnSum(s, double) == Sum(xs)
  {
    hide Term, Digit;
    if s != [] {
      var last := |s| - 1;
      var front, terms := s[..last], xs[..last];
      forall i | 0 <= i < |front| ensures terms[i] == Term(Digit(front[i]), Doubled(front, i, !double)) {
        assert terms[i] == xs[i] && front[i] == s[i];
        assert (|s| - 1 - i) % 2 == 0 <==> (|front| - 1 - i) % 2 != 0;
      }
      SumOfTerms(front, !double, terms);
    }
  }

  /** A number is valid if what its digits add is divisible by ten. */
  lemma LuhnByHand(s: seq<byte>, xs: seq<int>)
    requires s != [] && |xs| == |s| && forall i :: 0 <= i < |s| ==> Adds(s, i, xs[i])
    ensures LuhnValid(s) <==> Sum(xs) % 10 == 0
  {
    hide Adds, LuhnSum, Sum, Term, Digit, Doubled;
    forall i | 0 <= i < |s| ensures xs[i] == Term(Digit(s[i]), Doubled(s, i, false)) {
      TermAdds(s, i, xs[i]);
    }
    SumOfTerms(s, false, xs);
  }

  // ----- IBAN

  /** ds are the decimal digits of s with every letter written as the two digits of its number. */
  ghost predicate Spells(s: seq<byte>, ds: seq<int>)
    decreases s, 1
  {
    if s == [] then ds == [] else exists v :: EndsWith(s, ds, v)
  }

  ghost predicate EndsWith(s: seq<byte>, ds: seq<int>, v: int)
    requires s != []
    decreases s, 0
  {
    && Worth(s[|s| - 1], v)
    && if v < 10 then ds != [] && ds[|ds| - 1] == v && Spells(s[..|s| - 1], ds[..|ds| - 1])
       else |ds| >= 2 && ds[|ds| - 2] == v / 10 && ds[|ds| - 1] == v % 10 && Spells(s[..|s| - 1], ds[..|ds| - 2])
  }

  /** The number with these decimal digits. */
  function Decimal(ds: seq<int>): int { if ds == [] then 0 else Decimal(ds[..|ds| - 1]) * 10 + ds[|ds| - 1] }

  lemma {:induction false} SpelledNumber(s: seq<byte>, ds: seq<int>)
    requires Spells(s, ds)
    ensures Spelled(s) && Expand(s) == Decimal(ds)
  {
    if s != [] {
      var front, b := s[..|s| - 1], s[|s| - 1];
      var v :| EndsWith(s, ds, v);
      WorthMeans(b, v);
      hide Worth;
      if v < 10 {
        SpelledNumber(front, ds[..|ds| - 1]);
      } else {
        SpelledNumber(front, ds[..|ds| - 2]);
        assert ds[..|ds| - 1][..|ds| - 2] == ds[..|ds| - 2];
        assert ds[..|ds| - 1][|ds| - 2] == ds[|ds| - 2];
      }
      assert s == front + [b];
    }
  }

  /** Every text of digits and capitals spells some digits. */
  lemma {:induction false} AlwaysSpells(s: seq<byte>) returns (ds: seq<int>)
    requires forall i :: 0 <= i < |s| ==> IsDigit(s[i]) || IsUpper(s[i])
    ensures Spells(s, ds)
  {
    ds := [];
    if s != [] {
      var front, b := s[..|s| - 1], s[|s| - 1];
      var v := Value(b);
      WorthMeans(b, v);
      var more := AlwaysSpells(front);
      hide Worth;
      ds := more + if v < 10 then [v] else [v / 10, v % 10];
      assert ds[..|more|] == more;
      assert EndsWith(s, ds, v);
    }
  }

  /** A country code, two check digits and the national part are valid exactly if the number that the national part, the code
      and the check digits spell in this order leaves 1. */
  lemma CheckedNumber(a: byte, b: byte, c: byte, d: byte, national: seq<byte>, ds: seq<int>)
    requires Spells(national + [a, b, c, d], ds)
    ensures Mod97Valid(Rearranged([a, b, c, d] + national)) <==> Decimal(ds) % 97 == 1
  {
    var iban := [a, b, c, d] + national;
    assert iban[4..] == national && iban[..4] == [a, b, c, d];
    SpelledNumber(national + [a, b, c, d], ds);
  }

  /** The two digits of a number below 100. */
  predicate CheckPair(c: byte, d: byte, n: int) { 0 <= n < 100 && Worth(c, n / 10) && Worth(d, n % 10) }

  lemma {:induction false} TwoDigits(s: seq<byte>, c: byte, d: byte, n: int, ds: seq<int>)
    requires CheckPair(c, d, n) && Spells(s, ds)
    ensures Spells(s + [c, d], ds + [n / 10, n % 10])
  {
    var t := s + [c];
    OneDigit(s, c, n / 10, ds);
    OneDigit(t, d, n % 10, ds + [n / 10]);
    assert t + [d] == s + [c, d] && ds + [n / 10] + [n % 10] == ds + [n / 10, n % 10];
  }

  lemma {:induction false} OneDigit(s: seq<byte>, c: byte, v: int, ds: seq<int>)
    requires Worth(c, v) && v < 10 && Spells(s, ds)
    ensures Spells(s + [c], ds + [v])
  {
    hide Worth;
    assert (s + [c])[..|s|] == s && (ds + [v])[..|ds|] == ds;
    assert EndsWith(s + [c], ds + [v], v);
  }

  lemma DecimalTwoMore(ds: seq<int>, x: int, y: int)
    ensures Decimal(ds + [x, y]) == Decimal(ds) * 100 + x * 10 + y
  {
    assert (ds + [x, y])[..|ds| + 1] == ds + [x] && (ds + [x])[..|ds|] == ds;
  }

  /** Every country code and national part, spelled by ds, has exactly one pair of check digits from 02 to 98: 98 less what the
      number leaves with 00 in their place. Other pairs are accepted only if they differ from it by 97. */
  lemma CheckDigitsAre(a: byte, b: byte, c: byte, d: byte, national: seq<byte>, ds: seq<int>, n: int)
    requires Spells(national + [a, b], ds) && CheckPair(c, d, n)
    ensures var left := Decimal(ds + [0, 0]) % 97;
            var accepted := Mod97Valid(Rearranged([a, b, c, d] + national));
            && (accepted <==> (98 - left - n) % 97 == 0)
            && (2 <= n <= 98 ==> (accepted <==> n == 98 - left))
  {
    hide Mod97Valid, Decimal, Spells;
    TwoDigits(national + [a, b], c, d, n, ds);
    assert national + [a, b] + [c, d] == national + [a, b, c, d];
    CheckedNumber(a, b, c, d, national, ds + [n / 10, n % 10]);
    DecimalTwoMore(ds, n / 10, n % 10);
    DecimalTwoMore(ds, 0, 0);
    Leaves(Decimal(ds) * 100, n);
  }

  lemma Leaves(x: int, n: int)
    requires 0 <= n < 100
    ensures (x + n) % 97 == 1 <==> (98 - x % 97 - n) % 97 == 0
    ensures 2 <= n <= 98 ==> ((x + n) % 97 == 1 <==> n == 98 - x % 97)
  {
    var q, left := x / 97, x % 97;
    assert x + n == 97 * q + (left + n);
    assert (left + n) % 97 == (x + n) % 97;
  }

  /** A text is accepted exactly if what is left of it without white space and in capitals is four characters or more that spell
      such a number. */
  lemma AcceptedText(text: seq<byte>, upper: int -> int, a: byte, b: byte, c: byte, d: byte, national: seq<byte>, ds: seq<int>)
    requires Normalized(text, upper) == [a, b, c, d] + national && Spells(national + [a, b, c, d], ds)
    ensures ValidIBAN(text, upper) <==> Decimal(ds) % 97 == 1
  {
    hide Normalized, Spells;
    CheckedNumber(a, b, c, d, national, ds);
  }

  lemma RejectedText(text: seq<byte>, upper: int -> int)
    ensures |Normalized(text, upper)| < 4 ==> !ValidIBAN(text, upper)
    ensures forall i :: 0 <= i < |Normalized(text, upper)| && WorthNothing(Normalized(text, upper)[i]) ==> !ValidIBAN(text, upper)
  {
    hide Normalized, Expand;
    var iban := Normalized(text, upper);
    forall i | 0 <= i < |iban| && WorthNothing(iban[i]) ensures !ValidIBAN(text, upper) {
      WorthMeans(iban[i], Value(iban[i]));
      if |iban| >= 4 {
        var j := if i < 4 then |iban| - 4 + i else i - 4;
        assert Rearranged(iban)[j] == iban[i];
      }
    }
  }

  /** b is neither a digit nor a capital. */
  ghost predicate WorthNothing(b: byte) { forall v :: !Worth(b, v) }

  /** White space goes, and every other character is mapped to upper case. */
  lemma NormalizedRune(r: int, rest: seq<byte>, upper: int -> int)
    requires IsRune(r)
    ensures Normalized([], upper) == []
    ensures Normalized(EncodeRune(r) + rest, upper)
         == (if IsSpaceRune(r) then [] else EncodeRune(upper(r))) + Normalized(rest, upper)
  {
    DecodeEncoded(r, rest);
    hide DecodeRune, EncodeRune, IsSpaceRune;
    var s := EncodeRune(r) + rest;
    NormalizedOnce(s, upper);
    assert s[|EncodeRune(r)|..] == rest;
  }
}
