/** Where a string literal closes, and that replacing its content by harmless bytes does not move its end past a quote. */
module LiteralSplice {
  import opened Bytes
  import opened Rules
  import opened SpanMask
  import opened Utf8
  import opened JsonString
  import opened Splice

  // ----- Where a literal closes

  /** The position of the closing quote, found byte by byte: only escapes are read as a whole. */
  function Closes(s: seq<byte>): (r: Option<nat>)
    ensures r.Some? ==> r.value < |s| && s[r.value] == QUOTE
    decreases |s|
  {
    if s == [] then None
    else if s[0] == QUOTE then Some(0)
    else if s[0] == BACKSLASH then
      if UnquoteChar(s).None? then None else Later(CharLen(s), Closes(s[CharLen(s)..]))
    else Later(1, Closes(s[1..]))
  }

  function Later(n: nat, r: Option<nat>): Option<nat> { if r.None? then None else Some(n + r.value) }

  lemma ClosesOnce(s: seq<byte>)
    requires s != []
    ensures Closes(s).Some? ==> Closes(s).value < |s| && s[Closes(s).value] == QUOTE
    ensures Closes(s) ==
            if s[0] == QUOTE then Some(0)
            else if s[0] == BACKSLASH then
              if UnquoteChar(s).None? then None else Later(CharLen(s), Closes(s[CharLen(s)..]))
            else Later(1, Closes(s[1..]))
  {
    hide UnquoteChar, CharLen;
  }

  /** Bytes that neither end a literal nor begin an escape. */
  predicate Harmless(x: seq<byte>) { forall i :: 0 <= i < |x| ==> x[i] != QUOTE && x[i] != BACKSLASH }

  lemma {:induction false} ClosesHarmless(x: seq<byte>, t: seq<byte>)
    requires Harmless(x)
    ensures Closes(x + t) == Later(|x|, Closes(t))
  {
    if x == [] {
      assert x + t == t;
    } else {
      ClosesHarmless(x[1..], t);
      assert (x + t)[1..] == x[1..] + t;
    }
  }

  /** A character that is not escaped is harmless. */
  lemma RawChar(s: seq<byte>)
    requires s != [] && s[0] != QUOTE && s[0] != BACKSLASH && UnquoteChar(s).Some?
    ensures Harmless(s[..CharLen(s)]) && (s[0] >= 0x80 ==> forall i :: 0 <= i < CharLen(s) ==> s[i] >= 0x80)
    ensures s[0] < 0x80 ==> CharLen(s) == 1
  {
  }

  lemma RawCharReads(s: seq<byte>)
    requires s != [] && s[0] != QUOTE && s[0] != BACKSLASH
    ensures UnquoteChar(s).Some?
  {
  }

  lemma SkipRaw(s: seq<byte>)
    requires s != [] && s[0] != QUOTE && s[0] != BACKSLASH
    ensures UnquoteChar(s).Some? && Closes(s) == Later(CharLen(s), Closes(s[CharLen(s)..]))
  {
    hide Closes;
    RawCharReads(s);
    RawChar(s);
    hide UnquoteChar, CharLen;
    ClosesHarmless(s[..CharLen(s)], s[CharLen(s)..]);
    assert s[..CharLen(s)] + s[CharLen(s)..] == s;
  }

  lemma DecodeNothing(s: seq<byte>, base: int)
    requires s == [] || s[0] == QUOTE
    ensures Decode(s, base) == if s == [] then None else Some(Unquoted([], [], 0))
    ensures s == [] ==> Closes(s) == None
  {
  }

  /** A literal can be decoded exactly if it closes, and it closes where decoding ends. */
  lemma {:induction false} DecodeCloses(s: seq<byte>, base: int)
    ensures Closes(s) == if Decode(s, base).None? then None else Some(Decode(s, base).value.len)
    decreases |s|
  {
    hide UnquoteChar, CharLen, CharText, CharRanges, Decode, Closes;
    if s == [] || s[0] == QUOTE {
      DecodeNothing(s, base);
      if s != [] { ClosesOnce(s); }
    } else {
      DecodeOnce(s, base);
      ClosesOnce(s);
      if s[0] != BACKSLASH {
        SkipRaw(s);
      }
      if UnquoteChar(s).Some? {
        DecodeCloses(s[CharLen(s)..], base + CharLen(s));
      }
    }
  }

  /** What a literal decodes to depends on nothing behind its closing quote. */
  lemma {:induction false} DecodePrefix(s: seq<byte>, base: int, t: seq<byte>, other: int)
    requires Decode(s, base).Some? && s[..Decode(s, base).value.len + 1] <= t
    ensures Decode(t, other).Some?
    ensures Decode(t, other).value.out == Decode(s, base).value.out && Decode(t, other).value.len == Decode(s, base).value.len
    decreases |s|
  {
    hide *;
    var len := Decode(s, base).value.len;
    DecodedEnd(s, base);
    assert s[..len + 1][0] == s[0] == t[0];
    DecodedNone(s, base, t, other);
    if s[0] != QUOTE {
      DecodeStep(s, base);
      var n := CharLen(s);
      assert s[..len + 1][len] == s[len] == t[len];
      assert t == s[..len] + t[len..] by { assert s[..len + 1][..len] == s[..len] == t[..len]; }
      assert t[len..][0] == t[len];
      UnquoteLocal(s, len, t[len..]);
      SameChar(s, t);
      var m := Decode(s[n..], base + n).value.len;
      assert s[n..][..m + 1] == s[..len + 1][n..] && t[..len + 1][n..] <= t[n..];
      DecodePrefix(s[n..], base + n, t[n..], other + n);
      DecodeOnce(t, other);
    }
  }

  lemma DecodedEnd(s: seq<byte>, base: int)
    requires Decode(s, base).Some?
    ensures s != [] && Decode(s, base).value.len < |s| && s[Decode(s, base).value.len] == QUOTE && QUOTE < 0x80
    ensures s[0] != QUOTE ==> UnquoteChar(s).Some? && UnquoteChar(s).value.1 <= Decode(s, base).value.len
  {
  }

  lemma DecodedNone(s: seq<byte>, base: int, t: seq<byte>, other: int)
    requires Decode(s, base).Some? && s != [] && t != [] && s[0] == t[0]
    ensures s[0] == QUOTE ==> Decode(t, other) == Decode(s, base) == Some(Unquoted([], [], 0))
  {
  }

  lemma SameChar(s: seq<byte>, t: seq<byte>)
    requires s != [] && t != [] && UnquoteChar(s).Some? && UnquoteChar(t) == UnquoteChar(s)
    ensures CharLen(t) == CharLen(s) && CharText(t) == CharText(s)
  {
  }

  // ----- Covers that take escapes whole

  /** Each escape of the literal is covered as a whole or not at all; the other bytes may be covered as they come. */
  ghost predicate WholeEscapes(s: seq<byte>, base: int, cover: iset<int>)
    decreases |s|
  {
    if s == [] || s[0] == QUOTE then true
    else if s[0] == BACKSLASH then
      UnquoteChar(s).None? ||
      var n := CharLen(s);
      (forall p :: base <= p < base + n ==> (p in cover <==> base in cover)) && WholeEscapes(s[n..], base + n, cover)
    else WholeEscapes(s[1..], base + 1, cover)
  }

  ghost function Changed(pieces: Pieces): iset<int> { iset p | 0 <= p < |pieces| && pieces[p].Some? }

  ghost predicate AllHarmless(pieces: Pieces) {
    forall p :: 0 <= p < |pieces| && pieces[p].Some? ==> Harmless(pieces[p].value)
  }

  /** An escape that is replaced leaves harmless bytes. */
  lemma {:induction false} ReplacedHarmless(data: seq<byte>, pieces: Pieces)
    requires |data| == |pieces| && AllHarmless(pieces) && forall p :: 0 <= p < |pieces| ==> pieces[p].Some?
    ensures Harmless(Spliced(data, pieces)) && |Spliced(data, pieces)| == Width(pieces)
  {
    if data != [] {
      ReplacedHarmless(data[1..], pieces[1..]);
    }
  }

  /** An escape is read from its own bytes. */
  lemma EscapeAlone(s: seq<byte>, t: seq<byte>)
    requires s != [] && s[0] == BACKSLASH && UnquoteChar(s).Some? && s[..CharLen(s)] <= t
    ensures t != [] && t[0] == BACKSLASH && UnquoteChar(t) == UnquoteChar(s) && CharLen(t) == CharLen(s)
  {
    assert s[..CharLen(s)][0] == s[0] && s[..CharLen(s)][1] == s[1];
    assert t[..CharLen(s)] == s[..CharLen(s)];
    EscapeLocal(s, t);
  }

  /** The splice of n bytes and of what follows them. */
  lemma Front(data: seq<byte>, pieces: Pieces, c: int, n: nat)
    requires |data| == |pieces| && 0 <= c && c + n <= |data|
    ensures Spliced(data[c..], pieces[c..]) == Spliced(data[c..c + n], pieces[c..c + n]) + Spliced(data[c + n..], pieces[c + n..])
    ensures |Spliced(data[c..c + n], pieces[c..c + n])| == At(pieces, c + n) - At(pieces, c)
  {
    assert data[c..] == data[c..c + n] + data[c + n..] && pieces[c..] == pieces[c..c + n] + pieces[c + n..];
    SplicedAppend(data[c..c + n], pieces[c..c + n], data[c + n..], pieces[c + n..]);
    SplicedLength(data[c..c + n], pieces[c..c + n]);
    AtSum(pieces, c, c + n);
  }

  /** Replacing bytes of a literal by harmless ones, escapes as a whole, moves its closing quote to where it ends up. */
  lemma {:induction false} ClosesSpliced(data: seq<byte>, pieces: Pieces, c: int)
    requires |data| == |pieces| && AllHarmless(pieces) && 0 <= c <= |data|
    requires Closes(data[c..]).Some? && WholeEscapes(data[c..], c, Changed(pieces))
    requires pieces[c + Closes(data[c..]).value].None?
    ensures var end := c + Closes(data[c..]).value;
            Closes(Spliced(data[c..], pieces[c..])) == Some(At(pieces, end) - At(pieces, c))
    decreases |data| - c
  {
    hide Closes, UnquoteChar, CharLen, Spliced, Width, At, WholeEscapes, Changed, AllHarmless;
    var s := data[c..];
    NotEmpty(s);
    ClosesOnce(s);
    AtOrder(pieces, c, c + Closes(s).value);
    if s[0] == QUOTE {
      Front(data, pieces, c, 1);
      OneKept(data, pieces, c);
      ClosesOnce(Spliced(s, pieces[c..]));
    } else {
      var n := if s[0] == BACKSLASH then CharLen(s) else 1;
      assert s[n..] == data[c + n..];
      WholeOnce(s, c, Changed(pieces));
      ClosesSpliced(data, pieces, c + n);
      AtOrder(pieces, c + n, c + Closes(s).value);
      Front(data, pieces, c, n);
      FrontCloses(data, pieces, c, n, Spliced(data[c + n..], pieces[c + n..]));
    }
  }

  lemma NotEmpty(s: seq<byte>)
    requires Closes(s).Some?
    ensures s != []
  {
  }

  lemma AtOrder(pieces: Pieces, c: int, d: int)
    requires 0 <= c <= d <= |pieces|
    ensures At(pieces, c) <= At(pieces, d)
  {
    AtSum(pieces, c, d);
  }

  lemma WholeOnce(s: seq<byte>, base: int, cover: iset<int>)
    requires s != [] && s[0] != QUOTE && WholeEscapes(s, base, cover)
    ensures s[0] == BACKSLASH && UnquoteChar(s).Some? ==>
              && (forall p :: base <= p < base + CharLen(s) ==> (p in cover <==> base in cover))
              && WholeEscapes(s[CharLen(s)..], base + CharLen(s), cover)
    ensures s[0] != BACKSLASH ==> WholeEscapes(s[1..], base + 1, cover)
  {
    hide UnquoteChar;
  }

  lemma OneKept(data: seq<byte>, pieces: Pieces, c: int)
    requires |data| == |pieces| && 0 <= c < |data| && pieces[c].None?
    ensures Spliced(data[c..c + 1], pieces[c..c + 1]) == [data[c]]
  {
  }

  /** The first byte, or the first escape, of a literal. */
  lemma FrontCloses(data: seq<byte>, pieces: Pieces, c: int, n: nat, rest: seq<byte>)
    requires |data| == |pieces| && AllHarmless(pieces) && 0 <= c < |data| && c + n <= |data| && data[c] != QUOTE
    requires if data[c] == BACKSLASH then UnquoteChar(data[c..]).Some? && n == CharLen(data[c..]) else n == 1
    requires forall p :: c <= p < c + n ==> (p in Changed(pieces) <==> c in Changed(pieces))
    ensures var front := Spliced(data[c..c + n], pieces[c..c + n]); Closes(front + rest) == Later(|front|, Closes(rest))
  {
    var d, q := data[c..c + n], pieces[c..c + n];
    var front := Spliced(d, q);
    if pieces[c].Some? {
      forall i | 0 <= i < |q| ensures q[i].Some? { assert c + i in Changed(pieces); }
      ReplacedHarmless(d, q);
      ClosesHarmless(front, rest);
    } else {
      forall i | 0 <= i < |q| ensures q[i].None? { assert c + i !in Changed(pieces); }
      AllKept(d, q);
      if data[c] == BACKSLASH {
        assert data[c..][..n] == d;
        assert d <= front + rest;
        EscapeAlone(data[c..], front + rest);
        assert (front + rest)[n..] == rest;
        hide UnquoteChar;
        ClosesOnce(front + rest);
      } else {
        assert Harmless(front) by { assert front == d && d[0] == data[c]; }
        ClosesHarmless(front, rest);
      }
    }
  }

  // ----- Which covers take escapes whole

  lemma WholeMore(s: seq<byte>, base: int, cover: iset<int>)
    requires s != [] && s[0] != QUOTE
    requires s[0] == BACKSLASH && UnquoteChar(s).Some? ==>
               && (forall p :: base <= p < base + CharLen(s) ==> (p in cover <==> base in cover))
               && WholeEscapes(s[CharLen(s)..], base + CharLen(s), cover)
    requires s[0] != BACKSLASH ==> WholeEscapes(s[1..], base + 1, cover)
    ensures WholeEscapes(s, base, cover)
  {
    hide UnquoteChar;
  }

  lemma WholeNothing(s: seq<byte>, base: int, cover: iset<int>)
    requires s == [] || s[0] == QUOTE
    ensures WholeEscapes(s, base, cover)
  {
  }

  ghost predicate AgreeAt(s: seq<byte>, base: int, cover: iset<int>, other: iset<int>, p: int) {
    base <= p < base + |s| && s[p - base] < 0x80 ==> (p in cover <==> p in other)
  }

  lemma AgreeBehind(s: seq<byte>, base: int, cover: iset<int>, other: iset<int>, n: nat, p: int)
    requires n <= |s| && AgreeAt(s, base, cover, other, p)
    ensures AgreeAt(s[n..], base + n, cover, other, p)
  {
  }

  lemma AgreeHere(s: seq<byte>, base: int, cover: iset<int>, other: iset<int>, n: nat, p: int)
    requires n <= |s| && base <= p < base + n && (forall i :: 0 <= i < n ==> s[i] < 0x80) && (p in cover <==> base in cover)
    requires AgreeAt(s, base, cover, other, p) && AgreeAt(s, base, cover, other, base)
    ensures p in other <==> base in other
  {
  }

  /** Only covered escapes matter: covers that agree on the ASCII bytes of the text take the same escapes whole. */
  lemma {:induction false} AgreeOnASCII(s: seq<byte>, base: int, cover: iset<int>, other: iset<int>)
    requires WholeEscapes(s, base, cover)
    requires forall p :: AgreeAt(s, base, cover, other, p)
    ensures WholeEscapes(s, base, other)
    decreases |s|
  {
    hide *;
    if s == [] || s[0] == QUOTE {
      WholeNothing(s, base, other);
    } else {
      WholeOnce(s, base, cover);
      if s[0] != BACKSLASH || UnquoteChar(s).Some? {
        var n := if s[0] == BACKSLASH then CharLen(s) else 1;
        var rest, next := s[n..], base + n;
        forall p ensures AgreeAt(rest, next, cover, other, p) { AgreeBehind(s, base, cover, other, n, p); }
        AgreeOnASCII(rest, next, cover, other);
        if s[0] == BACKSLASH {
          EscapeASCII(s);
          forall p | base <= p < base + n ensures p in other <==> base in other { AgreeHere(s, base, cover, other, n, p); }
        }
      }
      WholeMore(s, base, other);
    }
  }

  lemma EscapeASCII(s: seq<byte>)
    requires s != [] && s[0] == BACKSLASH && UnquoteChar(s).Some?
    ensures CharLen(s) <= |s| && forall i :: 0 <= i < CharLen(s) ==> s[i] < 0x80
  {
    if s[1] == 120 || s[1] == 117 || s[1] == 85 {
      var n := CharLen(s) - 2;
      assert HexValue(s[2..], n).Some?;
      assert forall i :: 2 <= i < n + 2 ==> s[i] == s[2..][i - 2];
    }
  }

  /** A part of the cover that holds p and takes escapes whole. */
  ghost predicate EscapePartAt(s: seq<byte>, base: int, cover: iset<int>, part: Span, p: int) {
    Contains(part, p) && Inside(part) <= cover && WholeEscapes(s, base, Inside(part))
  }

  /** Parts that take escapes whole can be put together. */
  lemma {:induction false} EscapesTogether(s: seq<byte>, base: int, cover: iset<int>)
    requires forall p :: p in cover ==> exists part :: EscapePartAt(s, base, cover, part, p)
    ensures WholeEscapes(s, base, cover)
    decreases |s|
  {
    hide *;
    if s == [] || s[0] == QUOTE {
      WholeNothing(s, base, cover);
    } else if s[0] != BACKSLASH || UnquoteChar(s).Some? {
      var n := if s[0] == BACKSLASH then CharLen(s) else 1;
      var rest, next := s[n..], base + n;
      forall p | p in cover ensures exists part :: EscapePartAt(rest, next, cover, part, p) {
        var part :| EscapePartAt(s, base, cover, part, p);
        EscapePartOfRest(s, base, cover, part, p);
      }
      EscapesTogether(rest, next, cover);
      if s[0] == BACKSLASH {
        forall p | base <= p < base + n ensures p in cover <==> base in cover {
          if p in cover { EscapeCovered(s, base, cover, p, base); }
          if base in cover { EscapeCovered(s, base, cover, base, p); }
        }
      }
      WholeMore(s, base, cover);
    } else {
      WholeMore(s, base, cover);
    }
  }

  lemma EscapePartOfRest(s: seq<byte>, base: int, cover: iset<int>, part: Span, p: int)
    requires s != [] && s[0] != QUOTE && EscapePartAt(s, base, cover, part, p)
    ensures s[0] == BACKSLASH && UnquoteChar(s).Some? ==>
              EscapePartAt(s[CharLen(s)..], base + CharLen(s), cover, part, p)
    ensures s[0] != BACKSLASH ==> EscapePartAt(s[1..], base + 1, cover, part, p)
  {
    hide UnquoteChar, WholeEscapes;
    WholeOnce(s, base, Inside(part));
  }

  lemma EscapeCovered(s: seq<byte>, base: int, cover: iset<int>, p: int, q: int)
    requires s != [] && s[0] == BACKSLASH && UnquoteChar(s).Some?
    requires base <= p < base + CharLen(s) && base <= q < base + CharLen(s) && p in cover
    requires exists part :: EscapePartAt(s, base, cover, part, p)
    ensures q in cover
  {
    hide UnquoteChar, CharLen, WholeEscapes;
    var part :| EscapePartAt(s, base, cover, part, p);
    WholeOnce(s, base, Inside(part));
    assert p in Inside(part) && base in Inside(part) && q in Inside(part);
  }

  /** Skipping a character that is not escaped. */
  lemma {:induction false} WholeBehind(s: seq<byte>, base: int, n: nat, cover: iset<int>)
    requires n <= |s| && Harmless(s[..n]) && WholeEscapes(s[n..], base + n, cover)
    ensures WholeEscapes(s, base, cover)
    decreases n
  {
    if n == 0 {
      assert s[0..] == s;
    } else {
      assert s[..n][0] == s[0];
      assert s[1..][..n - 1] == s[..n][1..] && s[1..][n - 1..] == s[n..];
      WholeBehind(s[1..], base + 1, n - 1, cover);
      hide UnquoteChar;
    }
  }

  /** A cover that does not reach the content of a literal. */
  lemma {:induction false} WholeUncovered(s: seq<byte>, base: int, cover: iset<int>)
    requires Closes(s).Some? && forall p :: base <= p < base + Closes(s).value ==> p !in cover
    ensures WholeEscapes(s, base, cover)
    decreases |s|
  {
    hide *;
    NotEmpty(s);
    ClosesOnce(s);
    if s[0] == QUOTE {
      WholeNothing(s, base, cover);
    } else {
      var n := if s[0] == BACKSLASH then CharLen(s) else 1;
      LaterParts(n, Closes(s[n..]));
      WholeUncovered(s[n..], base + n, cover);
      WholeMore(s, base, cover);
    }
  }

  lemma LaterParts(n: nat, r: Option<nat>)
    ensures Later(n, r) == if r.None? then None else Some(n + r.value)
  {
  }

  /** The source of a decoded range takes escapes whole, wherever the range begins and ends. */
  lemma {:induction false} HullWhole(s: seq<byte>, base: int, a: nat, b: nat)
    requires Decode(s, base).Some? && a < b <= |Decode(s, base).value.out|
    ensures |Decode(s, base).value.ranges| == |Decode(s, base).value.out|
    ensures var ranges := Decode(s, base).value.ranges;
            WholeEscapes(s, base, Inside(Span(ranges[a].start, ranges[b - 1].end)))
    decreases |s|
  {
    hide *;
    DecodedRanges(s, base);
    DecodeStep(s, base);
    var n, e := CharLen(s), |CharText(s)|;
    var rest := Decode(s[n..], base + n).value;
    var ranges := Decode(s, base).value.ranges;
    var first := CharRanges(s[0], base, n, e);
    var span := Span(ranges[a].start, ranges[b - 1].end);
    FirstRanges(s[0], base, n, e);
    DecodedRanges(s[n..], base + n);
    if b <= e {
      assert ranges[a] == first[a] && ranges[b - 1] == first[b - 1];
      NothingReached(s[n..], base + n, span);
    } else {
      assert ranges[b - 1] == rest.ranges[b - 1 - e];
      var from: nat := if a < e then 0 else a - e;
      HullWhole(s[n..], base + n, from, b - e);
      if a < e {
        assert ranges[a] == first[a];
        FirstStart(s[n..], base + n);
        CutBehind(s[n..], base + n, rest.ranges[0].start, span);
      } else {
        assert ranges[a] == rest.ranges[a - e];
      }
    }
    if b > e { RangeIn(rest.ranges, base + n, base + n + rest.len, b - 1 - e); }
    if a >= e { RangeIn(rest.ranges, base + n, base + n + rest.len, a - e); }
    CharCovered(s, base, n, span, a < e);
  }

  lemma RangeIn(ranges: seq<ByteRange>, from: int, to: int, i: nat)
    requires WellRanged(ranges, from, to) && i < |ranges|
    ensures from <= ranges[i].start < ranges[i].end <= to
  {
  }

  lemma DecodedRanges(s: seq<byte>, base: int)
    requires Decode(s, base).Some?
    ensures |Decode(s, base).value.ranges| == |Decode(s, base).value.out| && s != []
    ensures s[0] == QUOTE ==> Decode(s, base).value.out == []
    ensures WellRanged(Decode(s, base).value.ranges, base, base + Decode(s, base).value.len)
  {
    DecodeWellRanged(s, base);
    hide DecodeRune;
  }

  lemma FirstRanges(c: byte, start: int, n: nat, e: nat)
    requires n > 0
    ensures var r := CharRanges(c, start, n, e);
            && |r| == e && (forall i :: 0 <= i < e ==> start <= r[i].start < r[i].end <= start + n)
            && (c == BACKSLASH ==> forall i :: 0 <= i < e ==> r[i] == ByteRange(start, start + n))
  {
  }

  lemma FirstStart(s: seq<byte>, base: int)
    requires Decode(s, base).Some? && Decode(s, base).value.out != []
    ensures Decode(s, base).value.ranges[0].start == base
  {
    FirstRange(s, base);
  }

  lemma {:induction false} NothingReached(s: seq<byte>, base: int, span: Span)
    requires span.end <= base
    ensures WholeEscapes(s, base, Inside(span))
    decreases |s|
  {
    if s != [] && s[0] != QUOTE {
      if s[0] != BACKSLASH {
        NothingReached(s[1..], base + 1, span);
      } else if UnquoteChar(s).Some? {
        NothingReached(s[CharLen(s)..], base + CharLen(s), span);
      }
      hide UnquoteChar;
    }
  }

  /** Where a span starts before the text does not matter. */
  lemma {:induction false} CutBehind(s: seq<byte>, base: int, start: int, span: Span)
    requires span.start <= start == base && WholeEscapes(s, base, Inside(Span(start, span.end)))
    ensures WholeEscapes(s, base, Inside(span))
  {
    SameBehind(s, base, Inside(Span(start, span.end)), Inside(span));
  }

  lemma {:induction false} SameBehind(s: seq<byte>, base: int, cover: iset<int>, other: iset<int>)
    requires WholeEscapes(s, base, cover) && forall p :: base <= p ==> (p in cover <==> p in other)
    ensures WholeEscapes(s, base, other)
    decreases |s|
  {
    hide UnquoteChar, CharLen;
    if s != [] && s[0] != QUOTE {
      if s[0] != BACKSLASH {
        SameBehind(s[1..], base + 1, cover, other);
      } else if UnquoteChar(s).Some? {
        SameBehind(s[CharLen(s)..], base + CharLen(s), cover, other);
      }
    }
  }

  /** One character in front of a text whose escapes are taken whole. */
  lemma CharCovered(s: seq<byte>, base: int, n: nat, span: Span, starts: bool)
    requires s != [] && s[0] != QUOTE && UnquoteChar(s).Some? && n == CharLen(s)
    requires WholeEscapes(s[n..], base + n, Inside(span))
    requires s[0] == BACKSLASH && starts ==> span.start == base && span.end >= base + n
    requires !starts ==> span.start >= base + n
    ensures WholeEscapes(s, base, Inside(span))
  {
    if s[0] == BACKSLASH {
      hide UnquoteChar, CharLen;
      WholeMore(s, base, Inside(span));
    } else {
      RawChar(s);
      WholeBehind(s, base, n, Inside(span));
    }
  }
}
