/** The numbers and texts that pass the syntax check, by the grammar of RFC 8259. */
module JsonNumber {
  import opened Bytes
  import opened Rules
  import opened JsonString
  import opened JsonGrammar
  import opened LiteralSplice
  import opened JsonSyntax

  // ----- Section 6: numbers

  predicate Digits(x: seq<byte>) { forall i :: 0 <= i < |x| ==> IsDigit(x[i]) }

  /** Zero, or digits of which the first is not zero. */
  predicate IntPart(x: seq<byte>) { x == Ascii("0") || (x != [] && Digits(x) && x[0] != Ascii("0")[0]) }

  /** Nothing, or a point and digits. */
  predicate FracPart(x: seq<byte>) { x == [] || (|x| > 1 && x[0] == Ascii(".")[0] && Digits(x[1..])) }

  /** Nothing, or a letter E, perhaps a sign, and digits. */
  predicate ExpPart(x: seq<byte>) {
    x == []
    || (|x| > 1 && (x[0] == Ascii("e")[0] || x[0] == Ascii("E")[0]) && Digits(x[1..]))
    || (|x| > 2 && (x[0] == Ascii("e")[0] || x[0] == Ascii("E")[0]) && (x[1] == Ascii("+")[0] || x[1] == Ascii("-")[0])
        && Digits(x[2..]))
  }

  ghost predicate NumberParts(s: seq<byte>, minus: seq<byte>, int_: seq<byte>, frac: seq<byte>, exp: seq<byte>) {
    && s == minus + int_ + frac + exp && (minus == [] || minus == Ascii("-")) && IntPart(int_) && FracPart(frac) && ExpPart(exp)
  }

  ghost predicate Numeral(s: seq<byte>) {
    exists minus, int_, frac, exp :: NumberParts(s, minus, int_, frac, exp)
  }

  /** What leading digits leave. */
  lemma {:induction false} DigitsLeave(x: seq<byte>, rest: seq<byte>)
    requires Digits(x) && (rest != [] ==> !IsDigit(rest[0]))
    ensures BehindDigits(x + rest) == rest
  {
    if x == [] {
      assert x + rest == rest;
    } else {
      DigitsLeave(x[1..], rest);
      assert (x + rest)[1..] == x[1..] + rest;
    }
  }

  lemma {:induction false} LeadingDigits(s: seq<byte>) returns (x: seq<byte>)
    ensures Digits(x) && s == x + BehindDigits(s) && (s != [] && IsDigit(s[0]) ==> x != [] && x[0] == s[0])
    ensures BehindDigits(s) != [] ==> !IsDigit(BehindDigits(s)[0])
  {
    if s != [] && IsDigit(s[0]) {
      var more := LeadingDigits(s[1..]);
      x := [s[0]] + more;
      assert s == [s[0]] + s[1..];
    } else {
      x := [];
    }
  }

  lemma ExponentPart(s: seq<byte>)
    ensures IsExponent(s) <==> ExpPart(s)
  {
    if s != [] && (s[0] == 69 || s[0] == 101) {
      var digits := if |s| > 1 && IsSign(s[1]) then s[2..] else s[1..];
      var x := LeadingDigits(digits);
      if Digits(digits) {
        DigitsLeave(digits, []);
        assert digits + [] == digits;
      }
      assert BehindDigits(digits) == [] ==> digits == x;
    }
  }

  /** A fraction ends where no digit follows. */
  lemma FractionPart(s: seq<byte>, frac: seq<byte>, rest: seq<byte>)
    requires s == frac + rest && FracPart(frac) && (rest != [] ==> !IsDigit(rest[0]) && rest[0] != 46)
    ensures BehindFraction(s) == Some(rest)
  {
    if frac == [] {
      assert s == rest;
    } else {
      assert s[0] == frac[0] && s[1] == frac[1] && s[1..] == frac[1..] + rest;
      assert IsDigit(frac[1..][0]);
      DigitsLeave(frac[1..], rest);
    }
  }

  lemma ExpStart(exp: seq<byte>)
    requires ExpPart(exp) && exp != []
    ensures !IsDigit(exp[0]) && exp[0] != 46
  {
  }

  lemma FractionStart(frac: seq<byte>, exp: seq<byte>)
    requires FracPart(frac) && ExpPart(exp) && frac + exp != []
    ensures !IsDigit((frac + exp)[0])
  {
    if frac == [] {
      assert frac + exp == exp;
      ExpStart(exp);
    } else {
      assert (frac + exp)[0] == frac[0];
    }
  }

  lemma NumeralIsNumber(s: seq<byte>, minus: seq<byte>, int_: seq<byte>, frac: seq<byte>, exp: seq<byte>)
    requires NumberParts(s, minus, int_, frac, exp)
    ensures IsNumber(s)
  {
    var u, tail := int_ + frac + exp, frac + exp;
    hide FracPart, ExpPart, BehindFraction, IsExponent, BehindDigits;
    assert s == minus + u && u == int_ + tail;
    TailReads(frac, exp);
    IntegerReads(int_, tail);
    SignReads(s, minus, u);
  }

  lemma TailReads(frac: seq<byte>, exp: seq<byte>)
    requires FracPart(frac) && ExpPart(exp)
    ensures BehindFraction(frac + exp) == Some(exp) && IsExponent(exp)
    ensures frac + exp != [] ==> !IsDigit((frac + exp)[0])
  {
    hide FracPart, ExpPart, BehindFraction, IsExponent;
    if frac + exp != [] { FractionStart(frac, exp); }
    if exp != [] { ExpStart(exp); }
    FractionPart(frac + exp, frac, exp);
    ExponentPart(exp);
  }

  lemma IntegerReads(int_: seq<byte>, tail: seq<byte>)
    requires IntPart(int_) && (tail != [] ==> !IsDigit(tail[0]))
    ensures var u := int_ + tail; u != [] && IsDigit(u[0]) && (if u[0] == 48 then u[1..] else BehindDigits(u)) == tail
  {
    hide BehindDigits;
    assert (int_ + tail)[0] == int_[0];
    if int_ == Ascii("0") {
      assert (int_ + tail)[1..] == tail;
    } else {
      DigitsLeave(int_, tail);
    }
  }

  lemma SignReads(s: seq<byte>, minus: seq<byte>, u: seq<byte>)
    requires s == minus + u && (minus == [] || minus == Ascii("-")) && u != [] && IsDigit(u[0])
    requires var f := BehindFraction(if u[0] == 48 then u[1..] else BehindDigits(u)); f.Some? && IsExponent(f.value)
    ensures IsNumber(s)
  {
    hide BehindFraction, IsExponent, BehindDigits;
    assert minus == Ascii("-") ==> s[0] == 45 && s[1..] == u;
    assert minus == [] ==> s == u;
  }

  lemma NumberIsNumeral(s: seq<byte>)
    requires IsNumber(s)
    ensures Numeral(s)
  {
    hide *;
    var minus, u := SignOf(s);
    var int_, tail := IntegerOf(u);
    var exp := BehindFraction(tail).value;
    var frac := FractionOf(tail);
    ExponentPart(exp);
    assert s == minus + int_ + frac + exp;
    Assembled(s, minus, int_, frac, exp);
  }

  lemma Assembled(s: seq<byte>, minus: seq<byte>, int_: seq<byte>, frac: seq<byte>, exp: seq<byte>)
    requires s == minus + int_ + frac + exp && (minus == [] || minus == Ascii("-"))
    requires IntPart(int_) && FracPart(frac) && ExpPart(exp)
    ensures Numeral(s)
  {
    hide IntPart, FracPart, ExpPart;
    assert NumberParts(s, minus, int_, frac, exp);
  }

  lemma SignOf(s: seq<byte>) returns (minus: seq<byte>, u: seq<byte>)
    requires IsNumber(s)
    ensures s == minus + u && (minus == [] || minus == Ascii("-")) && u != [] && IsDigit(u[0])
    ensures var f := BehindFraction(if u[0] == 48 then u[1..] else BehindDigits(u)); f.Some? && IsExponent(f.value)
  {
    minus := if s[0] == 45 then Ascii("-") else [];
    u := if s[0] == 45 then s[1..] else s;
    hide BehindFraction, IsExponent, BehindDigits;
  }

  lemma IntegerOf(u: seq<byte>) returns (int_: seq<byte>, tail: seq<byte>)
    requires u != [] && IsDigit(u[0])
    ensures u == int_ + tail && IntPart(int_) && tail == if u[0] == 48 then u[1..] else BehindDigits(u)
  {
    tail := if u[0] == 48 then u[1..] else BehindDigits(u);
    var lead := LeadingDigits(u);
    int_ := if u[0] == 48 then Ascii("0") else lead;
    hide BehindDigits;
    assert u[0] == 48 ==> u == [u[0]] + u[1..];
  }

  lemma FractionOf(s: seq<byte>) returns (frac: seq<byte>)
    requires BehindFraction(s).Some?
    ensures s == frac + BehindFraction(s).value && FracPart(frac)
  {
    if s == [] || s[0] != 46 {
      frac := [];
    } else {
      var x := LeadingDigits(s[1..]);
      frac := [46] + x;
      assert frac[1..] == x && s == [s[0]] + s[1..];
    }
  }

  /** The numbers that pass are those of the grammar. */
  lemma NumbersAre(s: seq<byte>)
    ensures IsNumber(s) <==> Numeral(s)
  {
    if IsNumber(s) {
      NumberIsNumeral(s);
    }
    if Numeral(s) {
      var minus, int_, frac, exp :| NumberParts(s, minus, int_, frac, exp);
      NumeralIsNumber(s, minus, int_, frac, exp);
    }
  }

  // ----- Section 7: strings

  /** One character as it is written: an escape of the grammar that the parser reads, or a byte that needs none. */
  predicate Unit(x: seq<byte>) {
    || (|x| == 1 && x[0] >= 0x20 && x[0] as int != '\"' as int && x[0] as int != '\\' as int)
    || (|x| >= 2 && x[0] as int == '\\' as int && EscapeUnit(x))
  }

  predicate EscapeUnit(x: seq<byte>)
    requires |x| >= 2
  {
    && (exists i :: 0 <= i < 9 && x[1] as int == "\"\\/bfnrtu"[i] as int)
    && x[0] == BACKSLASH && UnquoteChar(x).Some? && UnquoteChar(x).value.1 == |x|
  }

  function Concat(xs: seq<seq<byte>>): seq<byte> { if xs == [] then [] else xs[0] + Concat(xs[1..]) }

  /** s begins with units, and then a quotation mark. */
  ghost predicate UnitsThenQuote(s: seq<byte>) { exists xs :: UnitsOf(s, xs) }

  ghost predicate UnitsOf(s: seq<byte>, xs: seq<seq<byte>>) {
    (forall i :: 0 <= i < |xs| ==> Unit(xs[i])) && Concat(xs) + [QUOTE] <= s
  }

  lemma EscapeLetters(b: byte)
    ensures IsEscapeLetter(b) <==> exists i :: 0 <= i < 9 && b as int == "\"\\/bfnrtu"[i] as int
  {
    var row := "\"\\/bfnrtu";
    assert row[0] as int == 34 && row[1] as int == 92 && row[2] as int == 47 && row[3] as int == 98 && row[4] as int == 102;
    assert row[5] as int == 110 && row[6] as int == 114 && row[7] as int == 116 && row[8] as int == 117;
  }

  /** A text that passes consists of units up to its quotation mark. */
  lemma {:induction false} TextHasUnits(s: seq<byte>) returns (xs: seq<seq<byte>>)
    requires ConformingText(s)
    ensures UnitsOf(s, xs)
    decreases |s|
  {
    hide ConformingText, UnquoteChar, CharLen, IsEscapeLetter, Unit;
    TextOnce(s);
    if s[0] == QUOTE {
      xs := [];
    } else {
      var n := if s[0] == BACKSLASH then CharLen(s) else 1;
      var more := TextHasUnits(s[n..]);
      FirstUnit(s, n);
      xs := [s[..n]] + more;
      assert xs[1..] == more && s == s[..n] + s[n..];
      assert Concat(xs) + [QUOTE] == s[..n] + (Concat(more) + [QUOTE]);
      assert forall i :: 0 < i < |xs| ==> xs[i] == more[i - 1];
    }
  }

  lemma FirstUnit(s: seq<byte>, n: nat)
    requires s != [] && s[0] != QUOTE
    requires if s[0] == BACKSLASH then |s| > 1 && IsEscapeLetter(s[1]) && UnquoteChar(s).Some? && n == CharLen(s)
             else s[0] >= 0x20 && n == 1
    ensures n <= |s| && Unit(s[..n])
  {
    if s[0] == BACKSLASH {
      EscapeAlone(s, s[..n]);
      SecondByte(s, s[..n], n);
      EscapeLetters(s[1]);
      hide IsEscapeLetter, UnquoteChar;
    }
  }

  lemma {:induction false} UnitsConform(s: seq<byte>, xs: seq<seq<byte>>)
    requires UnitsOf(s, xs)
    ensures ConformingText(s)
    decreases |xs|
  {
    hide ConformingText, UnquoteChar, CharLen, IsEscapeLetter, Unit;
    TextOnce(s);
    if xs == [] {
      assert s[0] == ([] + [QUOTE])[0];
    } else {
      var x, rest := xs[0], xs[1..];
      var tail := s[|x|..];
      assert Concat(xs) + [QUOTE] == x + (Concat(rest) + [QUOTE]);
      assert x <= s && Concat(rest) + [QUOTE] <= tail;
      UnitsConform(tail, rest);
      UnitRead(s, x);
    }
  }

  lemma UnitRead(s: seq<byte>, x: seq<byte>)
    requires Unit(x) && x <= s
    ensures s != [] && s[0] != QUOTE
    ensures if s[0] == BACKSLASH then |s| > 1 && IsEscapeLetter(s[1]) && UnquoteChar(s).Some? && CharLen(s) == |x|
            else s[0] >= 0x20 && |x| == 1
  {
    assert s[0] == x[0];
    if x[0] == BACKSLASH {
      assert s[1] == x[1];
      EscapeLetters(x[1]);
      assert x[..CharLen(x)] == x;
      EscapeAlone(x, s);
      hide IsEscapeLetter, UnquoteChar;
    }
  }

  /** The texts that pass are those of the grammar, as far as the parser reads them. */
  lemma TextsAre(s: seq<byte>)
    ensures ConformingText(s) <==> UnitsThenQuote(s)
  {
    hide ConformingText, UnitsOf;
    if ConformingText(s) {
      var xs := TextHasUnits(s);
    }
    if UnitsThenQuote(s) {
      var xs :| UnitsOf(s, xs);
      UnitsConform(s, xs);
    }
  }

  /** Section 2: white space, and what ends a number. */
  lemma Separators(b: byte)
    ensures IsSpace(b) <==> b as char in " \t\n\r"
    ensures IsValueDelimiter(b) <==> b as char in " \t\n\r,]}"
    ensures Opens(b) <==> b as char in "{[\"tfn"
  {
  }
}
