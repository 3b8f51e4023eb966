/** Masking any number of findings in one string literal. */
module LiteralMask {
  import opened Bytes
  import opened Rules
  import opened SpanMask
  import opened JsonString
  import opened Splice
  import opened LiteralSplice

  // ----- Stars in place of covered bytes

  /** Each covered byte is replaced by a star. */
  ghost function StarPieces(n: nat, cover: iset<int>): (pieces: Pieces)
    ensures |pieces| == n
  {
    seq(n, i requires 0 <= i < n => if i in cover then Some([STAR]) else None)
  }

  lemma {:induction false} StarsInPlace(pieces: Pieces, data: seq<byte>)
    requires |pieces| == |data| && forall i :: 0 <= i < |pieces| ==> pieces[i].None? || pieces[i] == Some([STAR])
    ensures Width(pieces) == |pieces|
    ensures |Spliced(data, pieces)| == |data|
    ensures forall i :: 0 <= i < |data| ==> Spliced(data, pieces)[i] == if pieces[i].Some? then STAR else data[i]
  {
    if data != [] {
      StarsInPlace(pieces[1..], data[1..]);
      assert forall i :: 0 < i < |data| ==> pieces[i] == pieces[1..][i - 1] && data[i] == data[1..][i - 1];
    }
  }

  lemma StarsChange(data: seq<byte>, cover: iset<int>)
    ensures var pieces := StarPieces(|data|, cover);
            AllHarmless(pieces) && forall p :: p in Changed(pieces) <==> 0 <= p < |data| && p in cover
  {
  }

  /** Splicing in stars is masking, and nothing moves. */
  lemma StarsMask(data: seq<byte>, cover: iset<int>)
    ensures var pieces := StarPieces(|data|, cover);
            && Spliced(data, pieces) == Masked(data, cover, 0) && AllHarmless(pieces)
            && (forall c :: 0 <= c <= |data| ==> At(pieces, c) == c)
            && (forall p :: p in Changed(pieces) <==> 0 <= p < |data| && p in cover)
  {
    var pieces := StarPieces(|data|, cover);
    StarsInPlace(pieces, data);
    StarsChange(data, cover);
    hide Spliced, AllHarmless, Changed;
    forall c | 0 <= c <= |data| ensures At(pieces, c) == c {
      hide Masked;
      StarsInPlace(pieces[..c], data[..c]);
    }
  }

  /** Only the positions inside the text matter. */
  lemma {:induction false} WholeWithin(s: seq<byte>, base: int, cover: iset<int>, other: iset<int>)
    requires WholeEscapes(s, base, cover) && forall p :: base <= p < base + |s| ==> (p in cover <==> p in other)
    ensures WholeEscapes(s, base, other)
  {
    AgreeOnASCII(s, base, cover, other);
  }

  /** Masking whatever bytes of a literal, escapes as a whole, leaves its closing quote where it was. */
  lemma MaskedCloses(data: seq<byte>, c: nat, cover: iset<int>)
    requires c <= |data| && Closes(data[c..]).Some? && WholeEscapes(data[c..], c, cover)
    requires c + Closes(data[c..]).value !in cover
    ensures |Masked(data, cover, 0)| == |data| && Closes(Masked(data, cover, 0)[c..]) == Closes(data[c..])
  {
    var pieces := StarPieces(|data|, cover);
    StarsMask(data, cover);
    hide Closes, Spliced, At, Width, WholeEscapes;
    WholeWithin(data[c..], c, cover, Changed(pieces));
    ClosesSpliced(data, pieces, c);
    SplicedSplit(data, pieces, c);
  }

  // ----- Covers of whole characters

  /** Each character of the literal that s begins with is covered as a whole or not at all. */
  ghost predicate WholeChars(s: seq<byte>, base: int, cover: iset<int>)
    decreases |s|
  {
    s == [] || s[0] == QUOTE || UnquoteChar(s).None? ||
    var n := CharLen(s);
    (forall p :: base <= p < base + n ==> (p in cover <==> base in cover)) && WholeChars(s[n..], base + n, cover)
  }

  /** The text with every covered character replaced by stars, one for each source byte. */
  ghost function MaskedText(s: seq<byte>, base: int, cover: iset<int>): seq<byte>
    decreases |s|
  {
    if s == [] || s[0] == QUOTE || UnquoteChar(s).None? then [] else
    var n := CharLen(s);
    (if base in cover then Stars(n) else CharText(s)) + MaskedText(s[n..], base + n, cover)
  }

  lemma WholeStep(s: seq<byte>, base: int, cover: iset<int>)
    requires s != [] && s[0] != QUOTE && UnquoteChar(s).Some? && WholeChars(s, base, cover)
    ensures var n := CharLen(s);
            && (forall p :: base <= p < base + n ==> (p in cover <==> base in cover))
            && WholeChars(s[n..], base + n, cover)
            && MaskedText(s, base, cover)
               == (if base in cover then Stars(n) else CharText(s)) + MaskedText(s[n..], base + n, cover)
  {
    hide UnquoteChar;
  }

  lemma MaskedTail(s: seq<byte>, base: int, cover: iset<int>, n: nat)
    requires n <= |s|
    ensures Masked(s, cover, base)[n..] == Masked(s[n..], cover, base + n)
  {
  }

  /** The first covered position from `start` on, or `end`. */
  ghost function FirstCovered(cover: iset<int>, start: int, end: int): (r: int)
    requires start <= end
    ensures start <= r <= end && (forall p :: start <= p < r ==> p !in cover) && (r < end ==> r in cover)
    decreases end - start
  {
    if start == end || start in cover then start else FirstCovered(cover, start + 1, end)
  }

  /** A character that is not covered is still read as it was. */
  lemma UncoveredChar(s: seq<byte>, base: int, cover: iset<int>, len: nat)
    requires s != [] && s[0] != QUOTE && UnquoteChar(s).Some? && CharLen(s) <= len < |s| && s[len] == QUOTE
    requires base + len !in cover && forall p :: base <= p < base + CharLen(s) ==> p !in cover
    ensures var masked := Masked(s, cover, base);
            && masked[0] == s[0] && UnquoteChar(masked) == UnquoteChar(s) && CharLen(masked) == CharLen(s)
  {
    var k := FirstCovered(cover, base + CharLen(s), base + len) - base;
    var masked := Masked(s, cover, base);
    hide UnquoteChar, FirstCovered;
    assert masked[..k] == s[..k] by {
      forall i | 0 <= i < k ensures masked[i] == s[i] {
        assert base + i !in cover;
      }
    }
    assert masked == s[..k] + masked[k..];
    UnquoteLocal(s, k, masked[k..]);
  }

  /** Masking whole characters: the literal closes at the same quote and decodes to the masked text. */
  lemma {:induction false} MaskWholeChars(s: seq<byte>, base: int, cover: iset<int>)
    requires Decode(s, base).Some? && WholeChars(s, base, cover) && base + Decode(s, base).value.len !in cover
    ensures var masked := Decode(Masked(s, cover, base), base);
            && masked.Some? && masked.value.len == Decode(s, base).value.len
            && masked.value.out == MaskedText(s, base, cover)
    decreases |s|
  {
    hide *;
    Closing(s, base, cover);
    if s[0] != QUOTE {
      DecodeStep(s, base);
      WholeStep(s, base, cover);
      var n := CharLen(s);
      var len := Decode(s, base).value.len;
      MaskWholeChars(s[n..], base + n, cover);
      MaskedTail(s, base, cover, n);
      MaskedLength(s, base, cover);
      var masked := Masked(s, cover, base);
      if base in cover {
        MaskedFront(s, base, cover, n);
        DecodeStars(n, masked[n..], base);
      } else {
        CharInside(s, base, n);
        UncoveredChar(s, base, cover, len);
        PrependChar(s, masked, base);
      }
    }
  }

  lemma Closing(s: seq<byte>, base: int, cover: iset<int>)
    requires Decode(s, base).Some? && base + Decode(s, base).value.len !in cover
    ensures s != []
    ensures s[0] == QUOTE ==>
              var masked := Decode(Masked(s, cover, base), base);
              && masked.Some? && masked.value.len == Decode(s, base).value.len && masked.value.out == MaskedText(s, base, cover)
  {
  }

  lemma MaskedLength(s: seq<byte>, base: int, cover: iset<int>)
    ensures |Masked(s, cover, base)| == |s|
  {
  }

  lemma MaskedFront(s: seq<byte>, base: int, cover: iset<int>, n: nat)
    requires n <= |s| && forall p :: base <= p < base + n ==> p in cover
    ensures Masked(s, cover, base) == Stars(n) + Masked(s, cover, base)[n..]
  {
  }

  /** The first character ends before the closing quote. */
  lemma CharInside(s: seq<byte>, base: int, n: nat)
    requires Decode(s, base).Some? && s[0] != QUOTE && UnquoteChar(s).Some? && n == CharLen(s)
    ensures n <= Decode(s, base).value.len < |s| && s[Decode(s, base).value.len] == QUOTE
  {
    DecodeStep(s, base);
  }

  // ----- Which covers are made of whole characters

  /** A literal that is not covered anywhere keeps its text. */
  lemma {:induction false} Uncovered(s: seq<byte>, base: int, cover: iset<int>)
    requires Decode(s, base).Some? && forall p :: base <= p < base + Decode(s, base).value.len ==> p !in cover
    ensures WholeChars(s, base, cover) && MaskedText(s, base, cover) == Decode(s, base).value.out
    decreases |s|
  {
    hide *;
    Finished(s, base, cover);
    if s[0] != QUOTE {
      DecodeStep(s, base);
      var n := CharLen(s);
      CharInside(s, base, n);
      Uncovered(s[n..], base + n, cover);
      WholeJoin(s, base, cover);
    }
  }

  lemma Finished(s: seq<byte>, base: int, cover: iset<int>)
    requires Decode(s, base).Some?
    ensures s != []
    ensures s[0] == QUOTE ==> WholeChars(s, base, cover) && MaskedText(s, base, cover) == Decode(s, base).value.out
  {
  }

  lemma WholeJoin(s: seq<byte>, base: int, cover: iset<int>)
    requires s != [] && s[0] != QUOTE && UnquoteChar(s).Some?
    requires forall p :: base <= p < base + CharLen(s) ==> (p in cover <==> base in cover)
    requires WholeChars(s[CharLen(s)..], base + CharLen(s), cover)
    ensures WholeChars(s, base, cover)
    ensures MaskedText(s, base, cover)
            == (if base in cover then Stars(CharLen(s)) else CharText(s)) + MaskedText(s[CharLen(s)..], base + CharLen(s), cover)
  {
    hide UnquoteChar, CharLen, CharText;
  }

  /** A part of the cover that holds p and is made of whole characters. */
  ghost predicate PartAt(s: seq<byte>, base: int, cover: iset<int>, part: Span, p: int) {
    Contains(part, p) && Inside(part) <= cover && WholeChars(s, base, Inside(part))
  }

  /** Parts made of whole characters can be put together. */
  lemma {:induction false} WholeTogether(s: seq<byte>, base: int, cover: iset<int>)
    requires forall p :: p in cover ==> exists part :: PartAt(s, base, cover, part, p)
    ensures WholeChars(s, base, cover)
    decreases |s|
  {
    hide *;
    NoChars(s, base);
    if s != [] && s[0] != QUOTE && UnquoteChar(s).Some? {
      var n := CharLen(s);
      var rest, next := s[n..], base + n;
      forall p | p in cover ensures exists part :: PartAt(rest, next, cover, part, p) {
        var part :| PartAt(s, base, cover, part, p);
        PartOfRest(s, base, cover, part, p);
      }
      WholeTogether(rest, next, cover);
      forall p | base <= p < base + n ensures p in cover <==> base in cover {
        if p in cover { CoveredAlike(s, base, cover, p, base); }
        if base in cover { CoveredAlike(s, base, cover, base, p); }
      }
      WholeJoin(s, base, cover);
    }
  }

  lemma PartOfRest(s: seq<byte>, base: int, cover: iset<int>, part: Span, p: int)
    requires s != [] && s[0] != QUOTE && UnquoteChar(s).Some? && PartAt(s, base, cover, part, p)
    ensures PartAt(s[CharLen(s)..], base + CharLen(s), cover, part, p)
  {
    hide UnquoteChar, WholeChars;
    WholeStep(s, base, Inside(part));
  }

  lemma CoveredAlike(s: seq<byte>, base: int, cover: iset<int>, p: int, q: int)
    requires s != [] && s[0] != QUOTE && UnquoteChar(s).Some?
    requires base <= p < base + CharLen(s) && base <= q < base + CharLen(s) && p in cover
    requires exists part :: PartAt(s, base, cover, part, p)
    ensures q in cover
  {
    hide UnquoteChar, CharLen, WholeChars;
    var part :| PartAt(s, base, cover, part, p);
    WholeStep(s, base, Inside(part));
    assert p in Inside(part) && base in Inside(part) && q in Inside(part);
  }

  /** A range between two character boundaries is made of whole characters. */
  lemma {:induction false} WholeBetween(s: seq<byte>, base: int, a: nat, b: nat)
    requires a <= b && SourceAt(s, a).Some? && SourceAt(s, b).Some?
    ensures WholeChars(s, base, Inside(Span(base + SourceAt(s, a).value, base + SourceAt(s, b).value)))
    decreases |s|
  {
    hide *;
    NoChars(s, base);
    if s != [] && s[0] != QUOTE && UnquoteChar(s).Some? {
      var n, e, rest := CharLen(s), |CharText(s)|, s[CharLen(s)..];
      SourceStep(s, a);
      SourceStep(s, b);
      var from, to := SourceAt(s, a).value, SourceAt(s, b).value;
      var cover := Inside(Span(base + from, base + to));
      if b == 0 {
        NothingCovered(rest, base + n, Span(base, base));
      } else if a == 0 {
        SourceZero(rest);
        WholeBetween(rest, base + n, 0, b - e);
        Cut(base + n, base, base + to);
        SameCover(rest, base + n, Inside(Span(base + n, base + to)), cover);
      } else {
        WholeBetween(rest, base + n, a - e, b - e);
        assert base + n + SourceAt(rest, a - e).value == base + from && base + n + SourceAt(rest, b - e).value == base + to;
      }
      FirstAlike(base, n, base + from, base + to);
      WholeJoin(s, base, cover);
    }
  }

  lemma NoChars(s: seq<byte>, base: int)
    ensures !(s != [] && s[0] != QUOTE && UnquoteChar(s).Some?) ==> forall cover :: WholeChars(s, base, cover)
  {
  }

  lemma Cut(mid: int, from: int, to: int)
    requires from <= mid
    ensures forall p :: mid <= p ==> (p in Inside(Span(mid, to)) <==> p in Inside(Span(from, to)))
  {
  }

  lemma FirstAlike(base: int, n: nat, from: int, to: int)
    requires base <= from && (to == base || (base + n <= to && (from == base || base + n <= from)))
    ensures forall p :: base <= p < base + n ==> (p in Inside(Span(from, to)) <==> base in Inside(Span(from, to)))
  {
  }

  lemma SourceZero(s: seq<byte>)
    ensures SourceAt(s, 0) == Some(0)
  {
  }

  lemma {:induction false} NothingCovered(s: seq<byte>, base: int, span: Span)
    requires span.end <= span.start
    ensures WholeChars(s, base, Inside(span))
    decreases |s|
  {
    if s != [] && s[0] != QUOTE && UnquoteChar(s).Some? {
      NothingCovered(s[CharLen(s)..], base + CharLen(s), span);
    }
  }

  /** Only the positions of the literal matter. */
  lemma {:induction false} SameCover(s: seq<byte>, base: int, cover: iset<int>, other: iset<int>)
    requires forall p :: base <= p ==> (p in cover <==> p in other)
    requires WholeChars(s, base, cover)
    ensures WholeChars(s, base, other)
    decreases |s|
  {
    if s != [] && s[0] != QUOTE && UnquoteChar(s).Some? {
      SameCover(s[CharLen(s)..], base + CharLen(s), cover, other);
    }
  }
}
