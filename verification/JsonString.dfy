/** String literals: decoding with one source range per decoded byte, and masking a decoded range in the source. */
module JsonString {
  import opened Bytes
  import opened Rules
  import opened SpanMask
  import opened Utf8

  const QUOTE: byte := 34
  const BACKSLASH: byte := 92

  // ----- One character

  function Unhex(b: byte): Option<int> {
    if 48 <= b <= 57 then Some(b as int - 48)
    else if 97 <= b <= 102 then Some(b as int - 87)
    else if 65 <= b <= 70 then Some(b as int - 55)
    else None
  }

  function HexValue(s: seq<byte>, n: nat): (v: Option<int>)
    requires n <= |s|
    ensures v.Some? ==> v.value >= 0
    ensures v.Some? ==> forall i :: 0 <= i < n ==> s[i] < 0x80
  {
    if n == 0 then Some(0) else
    var high, low := HexValue(s, n - 1), Unhex(s[n - 1]);
    if high.None? || low.None? then None else Some(high.value * 16 + low.value)
  }

  predicate IsOctal(b: byte) { 48 <= b <= 55 }

  /** One possibly escaped character of a double-quoted literal: its rune and the bytes it takes. */
  function UnquoteChar(s: seq<byte>): (r: Option<(int, nat)>)
    requires s != []
    ensures r.Some? ==> IsRune(r.value.0) && 1 <= r.value.1 <= |s|
  {
    if s[0] == QUOTE then None
    else if s[0] >= 0x80 then Some(DecodeRune(s))
    else if s[0] != BACKSLASH then Some((s[0] as int, 1))
    else if |s| <= 1 then None
    else Escape(s)
  }

  function Escape(s: seq<byte>): (r: Option<(int, nat)>)
    requires |s| > 1
    ensures r.Some? ==> IsRune(r.value.0) && 2 <= r.value.1 <= |s|
  {
    var c := s[1];
    if c == 97 then Some((7, 2))
    else if c == 98 then Some((8, 2))
    else if c == 102 then Some((12, 2))
    else if c == 110 then Some((10, 2))
    else if c == 114 then Some((13, 2))
    else if c == 116 then Some((9, 2))
    else if c == 118 then Some((11, 2))
    else if c == 120 then HexEscape(s, 2)
    else if c == 117 then HexEscape(s, 4)
    else if c == 85 then HexEscape(s, 8)
    else if IsOctal(c) then
      if |s| < 4 || !IsOctal(s[2]) || !IsOctal(s[3]) then None else
      var v := (c as int - 48) * 64 + (s[2] as int - 48) * 8 + (s[3] as int - 48);
      if v > 255 then None else Some((v, 4))
    else if c == BACKSLASH || c == QUOTE then Some((c as int, 2))
    else None
  }

  function HexEscape(s: seq<byte>, n: nat): (r: Option<(int, nat)>)
    requires |s| > 1 && n > 0
    ensures r.Some? ==> IsRune(r.value.0) && r.value.1 == n + 2 <= |s|
  {
    if |s| < n + 2 then None else
    var v := HexValue(s[2..], n);
    if v.None? || !IsRune(v.value) then None else Some((v.value, n + 2))
  }

  /** A character is read from its own bytes: what follows may change, as long as it begins with ASCII. */
  lemma UnquoteLocal(s: seq<byte>, k: nat, t: seq<byte>)
    requires s != [] && UnquoteChar(s).Some? && UnquoteChar(s).value.1 <= k <= |s|
    requires t != [] && t[0] < 0x80
    ensures UnquoteChar(s[..k] + t) == UnquoteChar(s)
  {
    var s' := s[..k] + t;
    if s[0] >= 0x80 {
      DecodeLocal(s, k, t);
    } else if s[0] == BACKSLASH {
      EscapeLocal(s, s');
    }
  }

  lemma EscapeLocal(s: seq<byte>, s': seq<byte>)
    requires |s| > 1 && Escape(s).Some? && Escape(s).value.1 <= |s'|
    requires s'[..Escape(s).value.1] == s[..Escape(s).value.1]
    ensures Escape(s') == Escape(s)
  {
    var n := Escape(s).value.1;
    assert forall i :: 0 <= i < n ==> s'[i] == s'[..n][i] == s[..n][i] == s[i];
    if s[1] == 120 || s[1] == 117 || s[1] == 85 {
      HexLocal(s[2..], s'[2..], n - 2);
    }
  }

  lemma {:induction false} HexLocal(s: seq<byte>, s': seq<byte>, n: nat)
    requires n <= |s| && n <= |s'| && forall i :: 0 <= i < n ==> s[i] == s'[i]
    ensures HexValue(s, n) == HexValue(s', n)
  {
    if n > 0 { HexLocal(s, s', n - 1); }
  }

  // ----- A literal

  datatype ByteRange = ByteRange(start: int, end: int)

  /** out is the decoded text, ranges its source ranges, and len the length of the source up to the closing quote. */
  datatype Unquoted = Unquoted(out: seq<byte>, ranges: seq<ByteRange>, len: nat)

  /** The source ranges of one character: byte by byte when it stands for itself, otherwise all of it each time. */
  function CharRanges(first: byte, start: int, consumed: nat, encoded: nat): (r: seq<ByteRange>)
    ensures |r| == encoded
  {
    seq(encoded, i requires 0 <= i < encoded =>
      if first != BACKSLASH && consumed == encoded then ByteRange(start + i, start + i + 1)
      else ByteRange(start, start + consumed))
  }

  /** The source bytes the first character takes, and the text it decodes to. */
  function CharLen(s: seq<byte>): (n: nat)
    requires s != [] && UnquoteChar(s).Some?
    ensures 1 <= n <= |s|
  {
    UnquoteChar(s).value.1
  }

  function CharText(s: seq<byte>): (r: seq<byte>)
    requires s != [] && UnquoteChar(s).Some?
    ensures r != []
  {
    EncodeRune(UnquoteChar(s).value.0)
  }

  /** Decodes what follows an opening quote; the source begins at position `base` of the body. */
  function Decode(s: seq<byte>, base: int): (r: Option<Unquoted>)
    ensures r.Some? ==> |r.value.ranges| == |r.value.out| && r.value.len < |s| && s[r.value.len] == QUOTE
    decreases |s|
  {
    if s == [] then None
    else if s[0] == QUOTE then Some(Unquoted([], [], 0))
    else
      if UnquoteChar(s).None? then None else
      var n, text := CharLen(s), CharText(s);
      var rest := Decode(s[n..], base + n);
      if rest.None? then None
      else Some(Unquoted(text + rest.value.out, CharRanges(s[0], base, n, |text|) + rest.value.ranges, n + rest.value.len))
  }

  lemma DecodeOnce(s: seq<byte>, base: int)
    requires s != [] && s[0] != QUOTE
    ensures UnquoteChar(s).None? ==> Decode(s, base).None?
    ensures UnquoteChar(s).Some? ==>
              var n, text := CharLen(s), CharText(s);
              Decode(s, base) ==
                match Decode(s[n..], base + n)
                case None => None
                case Some(rest) =>
                  Some(Unquoted(text + rest.out, CharRanges(s[0], base, n, |text|) + rest.ranges, n + rest.len))
  {
    hide UnquoteChar, CharLen, CharText, CharRanges;
  }

  /** Where the source stands after whole characters that decode to k bytes. */
  function SourceAt(s: seq<byte>, k: nat): (r: Option<nat>)
    ensures r.Some? ==> r.value <= |s|
    decreases |s|
  {
    if k == 0 then Some(0)
    else if s == [] || s[0] == QUOTE then None
    else
      if UnquoteChar(s).None? || k < |CharText(s)| then None else
      var rest := SourceAt(s[CharLen(s)..], k - |CharText(s)|);
      if rest.None? then None else Some(CharLen(s) + rest.value)
  }

  // ----- Ranges lie in order inside the source

  /** Every range is non-empty and inside [from, to], and starts and ends never go back. */
  ghost predicate WellRanged(ranges: seq<ByteRange>, from: int, to: int) {
    && (forall i :: 0 <= i < |ranges| ==> from <= ranges[i].start < ranges[i].end <= to)
    && (forall i, j :: 0 <= i < j < |ranges| ==> ranges[i].start <= ranges[j].start && ranges[i].end <= ranges[j].end)
  }

  lemma {:induction false} DecodeWellRanged(s: seq<byte>, base: int)
    requires Decode(s, base).Some?
    ensures WellRanged(Decode(s, base).value.ranges, base, base + Decode(s, base).value.len)
    decreases |s|
  {
    hide *;
    EmptyLiteral(s, base);
    if s[0] != QUOTE {
      DecodeStep(s, base);
      var n, e := CharLen(s), |CharText(s)|;
      DecodeWellRanged(s[n..], base + n);
      FirstWellRanged(s[0], base, n, e);
      var rest := Decode(s[n..], base + n).value;
      JoinRanges(CharRanges(s[0], base, n, e), rest.ranges, base, base + n, base + n + rest.len);
    }
  }

  lemma EmptyLiteral(s: seq<byte>, base: int)
    requires Decode(s, base).Some?
    ensures s[0] == QUOTE ==> WellRanged(Decode(s, base).value.ranges, base, base + Decode(s, base).value.len)
  {
  }

  lemma FirstWellRanged(first: byte, start: int, consumed: nat, encoded: nat)
    requires consumed > 0
    ensures WellRanged(CharRanges(first, start, consumed, encoded), start, start + consumed)
  {
  }

  lemma JoinRanges(a: seq<ByteRange>, b: seq<ByteRange>, from: int, mid: int, to: int)
    requires WellRanged(a, from, mid) && WellRanged(b, mid, to) && from <= mid <= to
    ensures WellRanged(a + b, from, to)
  {
  }

  // ----- Character boundaries

  lemma DecodeStep(s: seq<byte>, base: int)
    requires Decode(s, base).Some? && s[0] != QUOTE
    ensures UnquoteChar(s).Some? && 1 <= CharLen(s) <= |s|
    ensures var n, rest := CharLen(s), Decode(s[CharLen(s)..], base + CharLen(s));
            rest.Some?
            && Decode(s, base).value == Unquoted(CharText(s) + rest.value.out,
                                                 CharRanges(s[0], base, n, |CharText(s)|) + rest.value.ranges, n + rest.value.len)
  {
  }

  lemma SourceStep(s: seq<byte>, k: nat)
    requires SourceAt(s, k).Some?
    ensures k == 0 ==> SourceAt(s, k).value == 0
    ensures k > 0 ==>
              && s != [] && s[0] != QUOTE && UnquoteChar(s).Some? && |CharText(s)| <= k
              && 1 <= CharLen(s) <= |s|
              && SourceAt(s[CharLen(s)..], k - |CharText(s)|).Some?
              && SourceAt(s, k).value == CharLen(s) + SourceAt(s[CharLen(s)..], k - |CharText(s)|).value
  {
    hide UnquoteChar, EncodeRune;
  }

  /** From a character boundary on, the literal decodes to the rest of its text. */
  lemma {:induction false} DecodeFrom(s: seq<byte>, base: int, k: nat)
    requires Decode(s, base).Some? && SourceAt(s, k).Some?
    ensures var d, at := Decode(s, base).value, SourceAt(s, k).value;
            && k <= |d.out| && at <= d.len
            && Decode(s[at..], base + at) == Some(Unquoted(d.out[k..], d.ranges[k..], d.len - at))
    decreases |s|
  {
    hide *;
    SourceStep(s, k);
    if k == 0 {
      assert s[0..] == s;
    } else {
      DecodeStep(s, base);
      var n, e := CharLen(s), |CharText(s)|;
      DecodeFrom(s[n..], base + n, k - e);
      var rest, tail := SourceAt(s[n..], k - e).value, Decode(s[n..], base + n).value;
      assert s[n + rest..] == s[n..][rest..];
      assert base + n + rest == base + (n + rest);
      assert (CharText(s) + tail.out)[k..] == tail.out[k - e..];
      assert (CharRanges(s[0], base, n, e) + tail.ranges)[k..] == tail.ranges[k - e..];
    }
  }

  /** The boundaries are the places where a rune of the text begins, and its end. */
  lemma {:induction false} BoundariesAre(s: seq<byte>, base: int, k: nat)
    requires Decode(s, base).Some?
    ensures var out := Decode(s, base).value.out;
            SourceAt(s, k).Some? <==> k <= |out| && (k == |out| || !IsContinuation(out[k]))
    decreases |s|
  {
    hide *;
    SourceKinds(s, k);
    if s[0] == QUOTE {
      NothingDecoded(s, base);
    } else {
      DecodeStep(s, base);
      var n, e := CharLen(s), |CharText(s)|;
      var out, rest := Decode(s, base).value.out, Decode(s[n..], base + n).value.out;
      CharBytes(s);
      if k < e {
        assert out[k] == CharText(s)[k];
      } else {
        BoundariesAre(s[n..], base + n, k - e);
        assert k < |out| ==> out[k] == rest[k - e];
      }
    }
  }

  lemma NothingDecoded(s: seq<byte>, base: int)
    requires s != [] && s[0] == QUOTE
    ensures Decode(s, base).Some? && Decode(s, base).value.out == []
  {
  }

  lemma SourceKinds(s: seq<byte>, k: nat)
    ensures k == 0 ==> SourceAt(s, k).Some?
    ensures k > 0 && s != [] && s[0] == QUOTE ==> SourceAt(s, k).None?
    ensures k > 0 && s != [] && s[0] != QUOTE && UnquoteChar(s).Some? ==>
              (SourceAt(s, k).Some? <==> k >= |CharText(s)| && SourceAt(s[CharLen(s)..], k - |CharText(s)|).Some?)
  {
    hide UnquoteChar, EncodeRune;
  }

  /** Of the bytes of a rune, all but the first continue it. */
  lemma CharBytes(s: seq<byte>)
    requires s != [] && UnquoteChar(s).Some?
    ensures CharText(s) != [] && forall i :: 0 <= i < |CharText(s)| ==> (IsContinuation(CharText(s)[i]) <==> i > 0)
  {
    hide UnquoteChar, Escape;
    EncodedBytes(UnquoteChar(s).value.0);
  }

  lemma EncodedBytes(r: int)
    requires IsRune(r)
    ensures forall i :: 0 <= i < |EncodeRune(r)| ==> (IsContinuation(EncodeRune(r)[i]) <==> i > 0)
  {
  }

  /** A boundary after a boundary. */
  lemma {:induction false} SourceAtSum(s: seq<byte>, j: nat, k: nat)
    requires j <= k && SourceAt(s, j).Some? && SourceAt(s, k).Some?
    ensures var at := SourceAt(s, j).value;
            SourceAt(s[at..], k - j).Some? && SourceAt(s, k).value == at + SourceAt(s[at..], k - j).value
    decreases |s|
  {
    hide *;
    SourceStep(s, j);
    if j == 0 {
      assert s[0..] == s;
    } else {
      SourceStep(s, k);
      var n, e := CharLen(s), |CharText(s)|;
      SourceAtSum(s[n..], j - e, k - e);
      var rest := SourceAt(s[n..], j - e).value;
      assert s[n + rest..] == s[n..][rest..];
    }
  }

  /** The source range of the last byte before a boundary ends at that boundary. */
  lemma {:induction false} RangeBefore(s: seq<byte>, base: int, k: nat)
    requires Decode(s, base).Some? && SourceAt(s, k).Some? && 0 < k <= |Decode(s, base).value.out|
    ensures Decode(s, base).value.ranges[k - 1].end == base + SourceAt(s, k).value
    decreases |s|
  {
    hide *;
    SourceStep(s, k);
    DecodeStep(s, base);
    var n, e := CharLen(s), |CharText(s)|;
    if k > e {
      DecodeFrom(s[n..], base + n, k - e);
      RangeBefore(s[n..], base + n, k - e);
    } else {
      SourceStep(s[n..], 0);
      LastCharRange(s[0], base, n, e);
    }
  }

  lemma LastCharRange(first: byte, start: int, consumed: nat, encoded: nat)
    requires encoded > 0
    ensures CharRanges(first, start, consumed, encoded)[encoded - 1].end == start + consumed
    ensures CharRanges(first, start, consumed, encoded)[0].start == start
  {
  }

  /** The source range of the byte after a boundary begins at that boundary. */
  lemma RangeAfter(s: seq<byte>, base: int, k: nat)
    requires Decode(s, base).Some? && SourceAt(s, k).Some? && k < |Decode(s, base).value.out|
    ensures Decode(s, base).value.ranges[k].start == base + SourceAt(s, k).value
  {
    hide *;
    DecodeFrom(s, base, k);
    var d, at := Decode(s, base).value, SourceAt(s, k).value;
    assert d.ranges[k] == d.ranges[k..][0];
    FirstRange(s[at..], base + at);
  }

  lemma FirstRange(s: seq<byte>, base: int)
    requires Decode(s, base).Some? && Decode(s, base).value.out != []
    ensures Decode(s, base).value.ranges[0].start == base
  {
  }

  /** A byte of the text whose source is a single byte is that byte, unless that byte is no UTF-8. */
  lemma {:induction false} OwnByte(s: seq<byte>, base: int, k: nat)
    requires Decode(s, base).Some? && k < |Decode(s, base).value.out|
    requires Decode(s, base).value.ranges[k].end == Decode(s, base).value.ranges[k].start + 1
    ensures var at := Decode(s, base).value.ranges[k].start - base;
            0 <= at < |s| && (s[at] == Decode(s, base).value.out[k] || DecodeRune(s[at..]) == (RUNE_ERROR, 1))
    decreases |s|
  {
    hide *;
    FirstOfText(s, base);
    DecodeStep(s, base);
    var n, e := CharLen(s), |CharText(s)|;
    if k < e {
      OwnByteOfChar(s, base, k);
    } else {
      var rest, tail := Decode(s[n..], base + n).value, s[n..];
      assert Decode(s, base).value.ranges[k] == rest.ranges[k - e] && Decode(s, base).value.out[k] == rest.out[k - e];
      OwnByte(tail, base + n, k - e);
      var at := rest.ranges[k - e].start - (base + n);
      assert tail[at..] == s[n + at..] && tail[at] == s[n + at];
    }
  }

  lemma FirstOfText(s: seq<byte>, base: int)
    requires Decode(s, base).Some? && Decode(s, base).value.out != []
    ensures s != [] && s[0] != QUOTE && |Decode(s, base).value.ranges| == |Decode(s, base).value.out|
  {
  }

  lemma OwnByteOfChar(s: seq<byte>, base: int, k: nat)
    requires s != [] && UnquoteChar(s).Some? && k < |CharText(s)|
    requires var r := CharRanges(s[0], base, CharLen(s), |CharText(s)|)[k]; r.end == r.start + 1
    ensures var at := CharRanges(s[0], base, CharLen(s), |CharText(s)|)[k].start - base;
            0 <= at < |s| && (s[at] == CharText(s)[k] || DecodeRune(s[at..]) == (RUNE_ERROR, 1))
  {
    assert s[0..] == s;
    if s[0] >= 0x80 && DecodeRune(s).1 > 1 {
      EncodeDecoded(s);
      hide DecodeRune, EncodeRune;
      assert s[..CharLen(s)] == CharText(s);
    } else if s[0] == BACKSLASH {
      hide DecodeRune, EncodeRune, Escape, UnquoteChar;
      EscapeIsLong(s);
    }
  }

  lemma EscapeIsLong(s: seq<byte>)
    requires s != [] && s[0] == BACKSLASH && UnquoteChar(s).Some?
    ensures CharLen(s) > 1
  {
  }

  // ----- Masking

  function Stars(m: nat): seq<byte> { seq(m, _ => STAR) }

  lemma StarStep(m: nat, t: seq<byte>, base: int)
    requires m > 0 && Decode((Stars(m) + t)[1..], base + 1).Some?
    ensures Decode(Stars(m) + t, base).Some?
    ensures var d, rest := Decode(Stars(m) + t, base).value, Decode((Stars(m) + t)[1..], base + 1).value;
            d.out == [STAR] + rest.out && d.len == 1 + rest.len
  {
    assert EncodeRune(42) == [STAR];
    var s := Stars(m) + t;
    assert s[0] == STAR && UnquoteChar(s) == Some((42, 1));
    DecodeOnce(s, base);
  }

  lemma {:induction false} DecodeStars(m: nat, t: seq<byte>, base: int)
    requires Decode(t, base + m).Some?
    ensures var d := Decode(Stars(m) + t, base);
            d.Some? && d.value.out == Stars(m) + Decode(t, base + m).value.out && d.value.len == m + Decode(t, base + m).value.len
  {
    hide Decode;
    if m == 0 {
      assert Stars(0) + t == t;
    } else {
      DecodeStars(m - 1, t, base + 1);
      assert (Stars(m) + t)[1..] == Stars(m - 1) + t;
      StarStep(m, t, base);
      assert [STAR] + Stars(m - 1) == Stars(m);
    }
  }

  /** The decoded text does not depend on where the source lies. */
  lemma {:induction false} DecodeAnywhere(s: seq<byte>, base: int, other: int)
    ensures Decode(s, base).Some? == Decode(s, other).Some?
    ensures Decode(s, base).Some? ==>
              Decode(s, base).value.out == Decode(s, other).value.out && Decode(s, base).value.len == Decode(s, other).value.len
    decreases |s|
  {
    hide UnquoteChar, CharLen, CharText, CharRanges;
    if s != [] && s[0] != QUOTE && UnquoteChar(s).Some? {
      var n := CharLen(s);
      DecodeAnywhere(s[n..], base + n, other + n);
    }
  }

  /** Replacing source bytes from..to by m stars leaves a literal that decodes to `out` and closes after len bytes. */
  ghost predicate MasksTo(s: seq<byte>, base: int, from: nat, to: nat, m: nat, out: seq<byte>, len: int) {
    && from <= to <= |s|
    && var masked := Decode(s[..from] + Stars(m) + s[to..], base);
       masked.Some? && masked.value.out == out && masked.value.len == len
  }

  /** Masking between character boundaries never splits an escape: the literal still closes at the same quote, and decodes
      to the old text before, m stars, and the old text after. */
  lemma {:induction false} MaskLiteral(s: seq<byte>, base: int, a: nat, b: nat, m: nat)
    requires Decode(s, base).Some? && a <= b && m > 0
    requires SourceAt(s, a).Some? && SourceAt(s, b).Some?
    ensures var d, from, to := Decode(s, base).value, SourceAt(s, a).value, SourceAt(s, b).value;
            && b <= |d.out| && from <= to <= d.len
            && MasksTo(s, base, from, to, m, d.out[..a] + Stars(m) + d.out[b..], d.len - (to - from) + m)
    decreases |s|
  {
    hide *;
    DecodeFrom(s, base, b);
    SourceAtSum(s, a, b);
    SourceStep(s, a);
    var d, to := Decode(s, base).value, SourceAt(s, b).value;
    if a == 0 {
      MaskFront(s, base, to, m, d.out[b..], d.len - to);
      assert d.out[..0] + Stars(m) + d.out[b..] == Stars(m) + d.out[b..];
    } else {
      SourceStep(s, b);
      DecodeStep(s, base);
      var n, text := CharLen(s), CharText(s);
      var rest := Decode(s[n..], base + n).value;
      var a', b' := a - |text|, b - |text|;
      MaskLiteral(s[n..], base + n, a', b', m);
      MaskAfterFirst(s, base, SourceAt(s, a).value, to, m, rest.out[..a'] + Stars(m) + rest.out[b'..],
                     rest.len - (to - SourceAt(s, a).value) + m);
      Splice(text, rest.out, a', b', Stars(m));
    }
  }

  lemma Splice(front: seq<byte>, s: seq<byte>, a: nat, b: nat, mid: seq<byte>)
    requires a <= b <= |s|
    ensures front + (s[..a] + mid + s[b..])
         == (front + s)[..|front| + a] + mid + (front + s)[|front| + b..]
  {
  }

  lemma MaskFront(s: seq<byte>, base: int, to: nat, m: nat, out: seq<byte>, len: nat)
    requires to <= |s| && Decode(s[to..], base + to).Some?
    requires Decode(s[to..], base + to).value.out == out && Decode(s[to..], base + to).value.len == len
    ensures MasksTo(s, base, 0, to, m, Stars(m) + out, m + len)
  {
    hide Decode, Stars;
    DecodeAnywhere(s[to..], base + to, base + m);
    DecodeStars(m, s[to..], base);
    assert s[..0] + Stars(m) + s[to..] == Stars(m) + s[to..];
  }

  lemma MaskAfterFirst(s: seq<byte>, base: int, from: nat, to: nat, m: nat, out: seq<byte>, len: int)
    requires s != [] && s[0] != QUOTE && UnquoteChar(s).Some? && m > 0
    requires CharLen(s) <= from <= to <= |s|
    requires MasksTo(s[CharLen(s)..], base + CharLen(s), from - CharLen(s), to - CharLen(s), m, out, len)
    ensures MasksTo(s, base, from, to, m, CharText(s) + out, CharLen(s) + len)
  {
    hide Decode, UnquoteChar;
    var n := CharLen(s);
    var mid := Stars(m) + s[to..];
    assert mid[0] == STAR && s[..from] + Stars(m) + s[to..] == s[..from] + mid;
    UnquoteLocal(s, from, mid);
    hide Stars, CharLen, CharText;
    assert s[n..][..from - n] + Stars(m) + s[n..][to - n..] == (s[..from] + mid)[n..];
    PrependChar(s, s[..from] + mid, base);
  }

  /** Two sources that begin with the same character. */
  lemma PrependChar(s: seq<byte>, s': seq<byte>, base: int)
    requires s != [] && s[0] != QUOTE && s' != [] && s'[0] == s[0] && UnquoteChar(s).Some? && UnquoteChar(s') == UnquoteChar(s)
    requires Decode(s'[CharLen(s')..], base + CharLen(s')).Some?
    ensures CharLen(s') == CharLen(s) && CharText(s') == CharText(s)
    ensures Decode(s', base).Some?
    ensures var rest := Decode(s'[CharLen(s')..], base + CharLen(s')).value;
            Decode(s', base).value.out == CharText(s) + rest.out && Decode(s', base).value.len == CharLen(s) + rest.len
  {
    hide UnquoteChar, EncodeRune, CharRanges;
  }
}
