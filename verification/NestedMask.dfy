/** Masking the raw span of a decoded range keeps string literals readable, also when the string holds JSON itself. */
module NestedMask {
  import opened Bytes
  import opened Rules
  import opened SpanMask
  import opened Utf8
  import opened JsonString
  import opened JsonGrammar
  import opened RawMapping
  import opened LiteralSplice
  import opened LiteralMask

  // ----- Masking a string of the body

  function MaskRaw(data: seq<byte>, from: int, to: int): seq<byte>
    requires 0 <= from <= to <= |data|
  {
    data[..from] + Stars(to - from) + data[to..]
  }

  /** a and b are character boundaries of the string. */
  predicate OnBoundaries(data: seq<byte>, node: JsonNode, a: nat, b: nat)
    requires node.JString? && 0 <= node.rawContentStart <= |data|
  {
    SourceAt(data[node.rawContentStart..], a).Some? && SourceAt(data[node.rawContentStart..], b).Some?
  }

  /** The raw span of a range between character boundaries runs between the same boundaries of the source. */
  lemma SpanOfBoundaries(data: seq<byte>, node: JsonNode, a: nat, b: nat)
    requires node.JString? && IsLiteral(node, data) && a < b <= |node.text| && OnBoundaries(data, node, a, b)
    ensures var s := data[node.rawContentStart..];
            RawSpan(UnitOf(node), a, b)
            == Some((node.rawContentStart + SourceAt(s, a).value, node.rawContentStart + SourceAt(s, b).value))
  {
    hide Decode, SourceAt;
    var s := data[node.rawContentStart..];
    RangeAfter(s, node.rawContentStart, a);
    RangeBefore(s, node.rawContentStart, b);
  }

  lemma BoundaryInText(data: seq<byte>, node: JsonNode, b: nat)
    requires node.JString? && IsLiteral(node, data) && SourceAt(data[node.rawContentStart..], b).Some?
    ensures b <= |node.text|
    ensures node.rawContentStart + SourceAt(data[node.rawContentStart..], b).value <= node.rawContentEnd
  {
    hide Decode, SourceAt;
    DecodeFrom(data[node.rawContentStart..], node.rawContentStart, b);
  }

  /** What masking from..to leaves of the string: a literal with the same closing quote. */
  ghost predicate StringStays(data: seq<byte>, node: JsonNode, from: int, to: int)
    requires node.JString?
  {
    && 0 <= node.rawContentStart <= from < to <= node.rawContentEnd <= |data|
    && var masked := Decode(MaskRaw(data, from, to)[node.rawContentStart..], node.rawContentStart);
       masked.Some? && node.rawContentStart + masked.value.len == node.rawContentEnd
  }

  /** The text it then decodes to. */
  ghost function TextAfter(data: seq<byte>, node: JsonNode, from: int, to: int): seq<byte>
    requires node.JString? && StringStays(data, node, from, to)
  {
    Decode(MaskRaw(data, from, to)[node.rawContentStart..], node.rawContentStart).value.out
  }

  lemma RawIsMask(data: seq<byte>, from: int, to: int)
    requires 0 <= from <= to <= |data|
    ensures MaskRaw(data, from, to) == Masked(data, Inside(Span(from, to)), 0)
  {
  }

  /** The decoding a literal node records. */
  lemma LiteralDecodes(data: seq<byte>, node: JsonNode)
    requires node.JString? && IsLiteral(node, data)
    ensures 0 <= node.rawContentStart <= node.rawContentEnd < |data|
    ensures var s, c := data[node.rawContentStart..], node.rawContentStart;
            Decode(s, c) == Some(Unquoted(node.text, node.ranges, node.rawContentEnd - c))
  {
    hide Decode;
  }

  lemma LiteralCloses(data: seq<byte>, node: JsonNode)
    requires node.JString? && IsLiteral(node, data)
    ensures var s, c := data[node.rawContentStart..], node.rawContentStart; Closes(s) == Some(node.rawContentEnd - c)
  {
    hide IsLiteral, Decode, Closes;
    LiteralDecodes(data, node);
    DecodeCloses(data[node.rawContentStart..], node.rawContentStart);
  }

  lemma LiteralRanges(data: seq<byte>, node: JsonNode)
    requires node.JString? && IsLiteral(node, data)
    ensures |node.ranges| == |node.text| && WellRanged(node.ranges, node.rawContentStart, node.rawContentEnd)
  {
    hide IsLiteral, Decode, Closes, WellRanged;
    LiteralDecodes(data, node);
    DecodedRanges(data[node.rawContentStart..], node.rawContentStart);
  }

  lemma LiteralSpan(data: seq<byte>, node: JsonNode, a: nat, b: nat)
    requires node.JString? && IsLiteral(node, data) && a < b <= |node.text|
    ensures |node.ranges| == |node.text|
    ensures RawSpan(UnitOf(node), a, b) == Some((node.ranges[a].start, node.ranges[b - 1].end))
    ensures 0 <= node.rawContentStart <= node.ranges[a].start < node.ranges[b - 1].end <= node.rawContentEnd < |data|
  {
    hide IsLiteral, WellRanged;
    LiteralDecodes(data, node);
    LiteralRanges(data, node);
    OrderedSpan(node.ranges, node.rawContentStart, node.rawContentEnd, a, b);
  }

  lemma OrderedSpan(ranges: seq<ByteRange>, from: int, to: int, a: nat, b: nat)
    requires WellRanged(ranges, from, to) && a < b <= |ranges|
    ensures from <= ranges[a].start < ranges[b - 1].end <= to
  {
    assert ranges[a].start < ranges[a].end <= ranges[b - 1].end;
  }

  /** Masking any decoded range of a string of the body leaves a literal with the same closing quote; between character
      boundaries it decodes to the text before, the stars and the text after. */
  lemma MaskString(data: seq<byte>, node: JsonNode, a: nat, b: nat)
    requires node.JString? && IsLiteral(node, data) && a < b <= |node.text|
    ensures RawSpan(UnitOf(node), a, b).Some?
    ensures var span := RawSpan(UnitOf(node), a, b).value;
            && StringStays(data, node, span.0, span.1)
            && (OnBoundaries(data, node, a, b) ==>
                  TextAfter(data, node, span.0, span.1) == node.text[..a] + Stars(span.1 - span.0) + node.text[b..])
  {
    MaskStays(data, node, a, b);
    if OnBoundaries(data, node, a, b) {
      hide Decode, SourceAt, StringStays;
      MaskBetween(data, node, a, b);
    }
  }

  lemma MaskStays(data: seq<byte>, node: JsonNode, a: nat, b: nat)
    requires node.JString? && IsLiteral(node, data) && a < b <= |node.text|
    ensures RawSpan(UnitOf(node), a, b).Some?
    ensures var span := RawSpan(UnitOf(node), a, b).value; StringStays(data, node, span.0, span.1)
  {
    hide Decode, Closes, MaskRaw, WholeEscapes, Masked, IsLiteral;
    var c := node.rawContentStart;
    LiteralSpan(data, node, a, b);
    LiteralDecodes(data, node);
    LiteralCloses(data, node);
    var from, to := node.ranges[a].start, node.ranges[b - 1].end;
    var cover := Inside(Span(from, to));
    HullWhole(data[c..], c, a, b);
    MaskedCloses(data, c, cover);
    RawIsMask(data, from, to);
    DecodeCloses(MaskRaw(data, from, to)[c..], c);
  }

  /** Between character boundaries, the decoded text. */
  lemma MaskBetween(data: seq<byte>, node: JsonNode, a: nat, b: nat)
    requires node.JString? && IsLiteral(node, data) && a < b <= |node.text| && OnBoundaries(data, node, a, b)
    requires RawSpan(UnitOf(node), a, b).Some?
    requires var span := RawSpan(UnitOf(node), a, b).value; StringStays(data, node, span.0, span.1)
    ensures var span := RawSpan(UnitOf(node), a, b).value;
            TextAfter(data, node, span.0, span.1) == node.text[..a] + Stars(span.1 - span.0) + node.text[b..]
  {
    hide Decode, SourceAt, MasksTo, Stars;
    var c := node.rawContentStart;
    var s := data[c..];
    BoundaryInText(data, node, b);
    SpanOfBoundaries(data, node, a, b);
    var from, to := SourceAt(s, a).value, SourceAt(s, b).value;
    BoundariesIncrease(s, c, a, b);
    MaskLiteral(s, c, a, b, to - from);
    MaskedAs(s, c, from, to, to - from, node.text[..a] + Stars(to - from) + node.text[b..], node.rawContentEnd - c);
    assert MaskRaw(data, c + from, c + to)[c..] == s[..from] + Stars(to - from) + s[to..] by {
      RawTail(data, c, from, to);
    }
  }

  lemma RawTail(data: seq<byte>, c: nat, from: nat, to: nat)
    requires from <= to && c + to <= |data|
    ensures MaskRaw(data, c + from, c + to)[c..] == data[c..][..from] + Stars(to - from) + data[c..][to..]
  {
  }

  lemma MaskedAs(s: seq<byte>, base: int, from: nat, to: nat, m: nat, out: seq<byte>, len: int)
    requires MasksTo(s, base, from, to, m, out, len)
    ensures from <= to <= |s|
    ensures var masked := Decode(s[..from] + Stars(m) + s[to..], base);
            masked.Some? && masked.value.out == out && masked.value.len == len
  {
  }

  /** Different boundaries of the text are different boundaries of the source. */
  lemma BoundariesIncrease(s: seq<byte>, base: int, a: nat, b: nat)
    requires Decode(s, base).Some? && a < b && SourceAt(s, a).Some? && SourceAt(s, b).Some?
    ensures SourceAt(s, a).value < SourceAt(s, b).value
  {
    hide Decode, SourceAt;
    SourceAtSum(s, a, b);
    SourceStep(s[SourceAt(s, a).value..], b - a);
  }

  // ----- Boundaries of the JSON inside a string are boundaries of the string

  lemma SourceFront(s: seq<byte>, k: nat)
    requires s != [] && s[0] != QUOTE && UnquoteChar(s).Some? && |CharText(s)| <= k
    ensures SourceAt(s, k) == (var rest := SourceAt(s[CharLen(s)..], k - |CharText(s)|);
                               if rest.None? then None else Some(CharLen(s) + rest.value))
    ensures SourceAt(s, 0) == Some(0)
  {
    hide UnquoteChar, CharLen, CharText;
  }

  lemma {:induction false} SourceAtJoin(s: seq<byte>, j: nat, i: nat)
    requires SourceAt(s, j).Some? && SourceAt(s[SourceAt(s, j).value..], i).Some?
    ensures SourceAt(s, j + i).Some?
    decreases |s|
  {
    hide *;
    SourceStep(s, j);
    if j == 0 {
      assert s[0..] == s;
    } else {
      var n, e := CharLen(s), |CharText(s)|;
      var at := SourceAt(s[n..], j - e).value;
      assert s[n + at..] == s[n..][at..];
      SourceAtJoin(s[n..], j - e, i);
      assert j - e + i == j + i - e;
      SourceFront(s, j + i);
    }
  }

  /** Around an ASCII byte of the text there are always boundaries. */
  lemma {:induction false} AsciiBoundary(s: seq<byte>, base: int, q: nat)
    requires Decode(s, base).Some? && q < |Decode(s, base).value.out| && Decode(s, base).value.out[q] < 0x80
    ensures SourceAt(s, q).Some? && SourceAt(s, q + 1).Some?
    decreases |s|
  {
    hide *;
    NotClosed(s, base);
    DecodeStep(s, base);
    var n, text := CharLen(s), CharText(s);
    if q < |text| {
      CharAlone(s, q);
      SourceFront(s, 1);
      SourceStart(s[n..]);
    } else {
      AsciiBoundary(s[n..], base + n, q - |text|);
      SourceFront(s, q);
      SourceFront(s, q + 1);
      assert q + 1 - |text| == q - |text| + 1;
    }
  }

  lemma SourceStart(s: seq<byte>)
    ensures SourceAt(s, 0) == Some(0)
  {
  }

  lemma NotClosed(s: seq<byte>, base: int)
    requires Decode(s, base).Some? && Decode(s, base).value.out != []
    ensures s != [] && s[0] != QUOTE
  {
  }

  lemma CharAlone(s: seq<byte>, q: nat)
    requires s != [] && UnquoteChar(s).Some? && q < |CharText(s)| && CharText(s)[q] < 0x80
    ensures |CharText(s)| == 1
  {
    AsciiAlone(UnquoteChar(s).value.0, q);
  }

  /** The text at a boundary begins with the whole encoding of a rune, and the next boundary follows it. */
  lemma RuneAt(s: seq<byte>, base: int, q: nat) returns (rune: int)
    requires Decode(s, base).Some? && SourceAt(s, q).Some? && q < |Decode(s, base).value.out|
    ensures IsRune(rune) && EncodeRune(rune) <= Decode(s, base).value.out[q..]
    ensures SourceAt(s, q + |EncodeRune(rune)|).Some?
  {
    hide Decode, SourceAt, UnquoteChar, EncodeRune;
    DecodeFrom(s, base, q);
    var at := SourceAt(s, q).value;
    var s' := s[at..];
    NotClosed(s', base + at);
    DecodeStep(s', base + at);
    rune := UnquoteChar(s').value.0;
    assert CharText(s') == EncodeRune(rune);
    SourceFront(s', |CharText(s')|);
    SourceStart(s'[CharLen(s')..]);
    SourceAtJoin(s, q, |CharText(s')|);
  }

  /** A character that begins with ASCII is ASCII throughout. */
  lemma AsciiChar(s: seq<byte>)
    requires s != [] && UnquoteChar(s).Some? && s[0] < 0x80
    ensures forall i :: 0 <= i < CharLen(s) ==> s[i] < 0x80
  {
  }

  /** One character of the text, read as JSON source, spans whole characters of the string. */
  lemma InnerChar(s: seq<byte>, base: int, q: nat)
    requires Decode(s, base).Some? && SourceAt(s, q).Some? && q < |Decode(s, base).value.out|
    requires UnquoteChar(Decode(s, base).value.out[q..]).Some?
    ensures SourceAt(s, q + CharLen(Decode(s, base).value.out[q..])).Some?
  {
    hide Decode, SourceAt;
    var text := Decode(s, base).value.out;
    var n := CharLen(text[q..]);
    if text[q] < 0x80 {
      AsciiChar(text[q..]);
      assert text[q..][n - 1] == text[q + n - 1];
      AsciiBoundary(s, base, q + n - 1);
      assert q + n - 1 + 1 == q + n;
    } else {
      InnerRune(s, base, q);
    }
  }

  lemma InnerRune(s: seq<byte>, base: int, q: nat)
    requires Decode(s, base).Some? && SourceAt(s, q).Some? && q < |Decode(s, base).value.out|
    requires Decode(s, base).value.out[q] >= 0x80 && UnquoteChar(Decode(s, base).value.out[q..]).Some?
    ensures SourceAt(s, q + CharLen(Decode(s, base).value.out[q..])).Some?
  {
    hide Decode, SourceAt, EncodeRune, DecodeRune;
    var text := Decode(s, base).value.out;
    var rune := RuneAt(s, base, q);
    var e := EncodeRune(rune);
    assert text[q..] == e + text[q..][|e|..];
    DecodeEncoded(rune, text[q..][|e|..]);
  }

  /** A boundary of a literal inside the text is a boundary of the string that holds the text. */
  lemma {:induction false} InnerBoundary(s: seq<byte>, base: int, q: nat, k: nat)
    requires Decode(s, base).Some? && SourceAt(s, q).Some? && q <= |Decode(s, base).value.out|
    requires SourceAt(Decode(s, base).value.out[q..], k).Some?
    ensures SourceAt(s, q + SourceAt(Decode(s, base).value.out[q..], k).value).Some?
    decreases |Decode(s, base).value.out| - q
  {
    hide *;
    var text := Decode(s, base).value.out;
    SourceStep(text[q..], k);
    if k > 0 {
      var n := CharLen(text[q..]);
      InnerChar(s, base, q);
      assert text[q..][n..] == text[q + n..];
      InnerBoundary(s, base, q + n, k - |CharText(text[q..])|);
      assert q + n + SourceAt(text[q + n..], k - |CharText(text[q..])|).value
          == q + (n + SourceAt(text[q + n..], k - |CharText(text[q..])|).value);
    }
  }

  // ----- Masking through one level of nesting

  /** The boundaries a and b of the inner string, as positions of the outer text. */
  lemma InnerOnOuter(data: seq<byte>, outer: JsonNode, inner: JsonNode, a: nat, b: nat) returns (ia: nat, ib: nat)
    requires outer.JString? && IsLiteral(outer, data) && inner.JString? && IsLiteral(inner, outer.text)
    requires outer.text[inner.rawStart] == QUOTE && a < b && OnBoundaries(outer.text, inner, a, b)
    ensures var t := outer.text[inner.rawContentStart..];
            ia == inner.rawContentStart + SourceAt(t, a).value && ib == inner.rawContentStart + SourceAt(t, b).value
    ensures inner.rawContentStart <= ia < ib <= |outer.text| && OnBoundaries(data, outer, ia, ib)
  {
    hide Decode, SourceAt;
    var c := inner.rawContentStart;
    var s, t := data[outer.rawContentStart..], outer.text[c..];
    BoundaryInText(outer.text, inner, b);
    BoundariesIncrease(t, c, a, b);
    AsciiBoundary(s, outer.rawContentStart, c - 1);
    InnerBoundary(s, outer.rawContentStart, c, a);
    InnerBoundary(s, outer.rawContentStart, c, b);
    ia, ib := c + SourceAt(t, a).value, c + SourceAt(t, b).value;
  }

  /** The composed raw span is the raw span in the outer string of the inner raw span. */
  lemma ComposedSpan(data: seq<byte>, outer: JsonNode, inner: JsonNode, a: nat, b: nat) returns (ia: nat, ib: nat)
    requires outer.JString? && ReadFrom(outer, data)
    requires (inner.JString? || inner.JNumber?) && ReadFrom(inner, outer.text) && a < b <= |inner.text|
    ensures |inner.ranges| == |inner.text| && inner.ranges[a].start == ia && inner.ranges[b - 1].end == ib
    ensures UnitOf(inner).rawContentStart <= ia < ib <= UnitOf(inner).rawContentEnd <= |outer.text|
    ensures RawSpan(ComposedUnit(inner, outer), a, b) == RawSpan(UnitOf(outer), ia, ib)
  {
    hide ReadFrom, WellRanged, Compose, Composable, ComposeByteBoundary;
    LeafSound(inner, outer.text);
    LeafSound(outer, data);
    OrderedSpan(inner.ranges, UnitOf(inner).rawContentStart, UnitOf(inner).rawContentEnd, a, b);
    ComposeWellRanged(outer.ranges, inner.ranges, outer.rawContentStart, outer.rawContentEnd,
                      UnitOf(inner).rawContentStart, UnitOf(inner).rawContentEnd);
    ia, ib := inner.ranges[a].start, inner.ranges[b - 1].end;
    ComposedAt(outer.ranges, inner.ranges, a);
    ComposedAt(outer.ranges, inner.ranges, b - 1);
  }

  /** In the body, a nested unit extends from where the source of its first byte begins to where that of its last byte ends; so
      does its content. */
  lemma NestedBounds(data: seq<byte>, outer: JsonNode, inner: JsonNode)
    requires outer.JString? && ReadFrom(outer, data)
    requires (inner.JString? || inner.JNumber?) && ReadFrom(inner, outer.text) && inner.text != []
    ensures var unit, r := UnitOf(inner), outer.ranges;
            var composed := ComposedUnit(inner, outer);
            && |r| == |outer.text| && 0 <= unit.rawStart <= unit.rawContentStart < unit.rawContentEnd <= unit.rawEnd <= |r|
            && composed.rawStart == r[unit.rawStart].start && composed.rawEnd == r[unit.rawEnd - 1].end
            && composed.rawContentStart == r[unit.rawContentStart].start
            && composed.rawContentEnd == r[unit.rawContentEnd - 1].end
  {
    hide *;
    var unit := UnitOf(inner);
    OuterLiteral(outer, data);
    InnerEnds(outer, inner, data);
    BoundsMeet(data, outer, unit.rawEnd);
    BoundsMeet(data, outer, unit.rawContentEnd);
    BoundBegins(outer.ranges, unit.rawStart);
    BoundBegins(outer.ranges, unit.rawContentStart);
    ComposedBounds(inner, outer);
  }

  lemma OuterLiteral(outer: JsonNode, data: seq<byte>)
    requires outer.JString? && ReadFrom(outer, data)
    ensures IsLiteral(outer, data)
  {
  }

  lemma BoundBegins(outer: seq<ByteRange>, k: nat)
    requires k < |outer|
    ensures ComposeByteBoundary(outer, k) == Some(outer[k].start)
  {
  }

  lemma ComposedBounds(inner: JsonNode, outer: JsonNode)
    requires (inner.JString? || inner.JNumber?) && outer.JString?
    requires var u := UnitOf(inner);
             && ComposeByteBoundary(outer.ranges, u.rawStart).Some? && ComposeByteBoundary(outer.ranges, u.rawEnd).Some?
             && ComposeByteBoundary(outer.ranges, u.rawContentStart).Some?
             && ComposeByteBoundary(outer.ranges, u.rawContentEnd).Some?
    ensures var u, composed := UnitOf(inner), ComposedUnit(inner, outer);
            Some(composed.rawStart) == ComposeByteBoundary(outer.ranges, u.rawStart)
            && Some(composed.rawEnd) == ComposeByteBoundary(outer.ranges, u.rawEnd)
            && Some(composed.rawContentStart) == ComposeByteBoundary(outer.ranges, u.rawContentStart)
            && Some(composed.rawContentEnd) == ComposeByteBoundary(outer.ranges, u.rawContentEnd)
  {
    hide ComposeByteBoundary, Compose, UnitOf;
  }

  lemma InnerEnds(outer: JsonNode, inner: JsonNode, data: seq<byte>)
    requires outer.JString? && IsLiteral(outer, data)
    requires (inner.JString? || inner.JNumber?) && ReadFrom(inner, outer.text) && inner.text != []
    ensures var u := UnitOf(inner);
            && 0 <= u.rawStart <= u.rawContentStart < u.rawContentEnd <= u.rawEnd <= |outer.text| == |outer.ranges|
            && AsciiAround(outer.text, u.rawEnd) && AsciiAround(outer.text, u.rawContentEnd)
  {
    LeafSound(inner, outer.text);
    UnitEnds(inner, outer.text);
    hide *;
    LiteralRanges(data, outer);
  }

  /** Of the bytes at and before k one is ASCII, if there is one at k. */
  predicate AsciiAround(text: seq<byte>, k: nat) { 0 < k < |text| ==> text[k] < 0x80 || text[k - 1] < 0x80 }

  lemma UnitEnds(inner: JsonNode, text: seq<byte>)
    requires (inner.JString? || inner.JNumber?) && ReadFrom(inner, text)
    ensures var u := UnitOf(inner);
            && 0 <= u.rawStart <= u.rawContentStart <= u.rawContentEnd <= u.rawEnd <= |text|
            && AsciiAround(text, u.rawEnd) && AsciiAround(text, u.rawContentEnd)
  {
    if inner.JString? {
      var s := text[inner.rawContentStart..];
      hide Decode;
      assert text[inner.rawContentEnd] == s[inner.rawContentEnd - inner.rawContentStart] == QUOTE;
    } else {
      hide Decode, WellRanged, SelfRanges;
      assert inner.rawEnd < |text| ==> IsValueDelimiter(text[inner.rawEnd]);
    }
  }

  /** Next to an ASCII byte of the text the source of one byte ends where that of the next begins. */
  lemma BoundsMeet(data: seq<byte>, outer: JsonNode, k: nat)
    requires outer.JString? && IsLiteral(outer, data) && 0 < k <= |outer.text|
    requires AsciiAround(outer.text, k)
    ensures |outer.ranges| == |outer.text|
    ensures ComposeByteBoundary(outer.ranges, k) == Some(outer.ranges[k - 1].end)
  {
    hide Decode;
    var s, base := data[outer.rawContentStart..], outer.rawContentStart;
    if k < |outer.text| {
      if outer.text[k] < 0x80 {
        BoundariesAre(s, base, k);
      } else {
        AsciiBoundary(s, base, k - 1);
      }
      RangeBefore(s, base, k);
      RangeAfter(s, base, k);
    }
  }

  lemma ComposedAt(outer: seq<ByteRange>, inner: seq<ByteRange>, i: nat)
    requires Composable(outer, inner) && i < |inner|
    ensures 0 <= inner[i].start < inner[i].end <= |outer| && |Compose(outer, inner)| == |inner|
    ensures Compose(outer, inner)[i] == ByteRange(outer[inner[i].start].start, outer[inner[i].end - 1].end)
  {
  }

  /** Masking any decoded range of a string inside the JSON that a string of the body holds: the body's string stays a literal.
      Between character boundaries the inner string also stays one, in the text the outer decodes to, with the stars where
      the range was. */
  lemma MaskNested(data: seq<byte>, outer: JsonNode, inner: JsonNode, a: nat, b: nat)
    requires outer.JString? && ReadFrom(outer, data) && inner.JString? && ReadFrom(inner, outer.text) && a < b <= |inner.text|
    ensures RawSpan(ComposedUnit(inner, outer), a, b).Some?
    ensures var span := RawSpan(ComposedUnit(inner, outer), a, b).value;
            && StringStays(data, outer, span.0, span.1)
            && (OnBoundaries(outer.text, inner, a, b) ==>
                  InnerStays(TextAfter(data, outer, span.0, span.1), inner,
                             inner.text[..a] + Stars(span.1 - span.0) + inner.text[b..]))
  {
    hide ReadFrom, IsLiteral, RawSpan, ComposedUnit, UnitOf, StringStays, InnerStays, OnBoundaries, Decode;
    var ia, ib := ComposedSpan(data, outer, inner, a, b);
    ReadIsLiteral(outer, data);
    ReadIsLiteral(inner, outer.text);
    LiteralDecodes(outer.text, inner);
    MaskString(data, outer, ia, ib);
    if OnBoundaries(outer.text, inner, a, b) {
      NestedBetween(data, outer, inner, a, b, ia, ib);
    }
  }

  lemma ReadIsLiteral(node: JsonNode, data: seq<byte>)
    requires node.JString? && ReadFrom(node, data)
    ensures IsLiteral(node, data)
  {
    hide IsLiteral;
  }

  lemma NestedBetween(data: seq<byte>, outer: JsonNode, inner: JsonNode, a: nat, b: nat, ia: nat, ib: nat)
    requires outer.JString? && ReadFrom(outer, data) && inner.JString? && ReadFrom(inner, outer.text) && a < b <= |inner.text|
    requires OnBoundaries(outer.text, inner, a, b)
    requires |inner.ranges| == |inner.text| && inner.ranges[a].start == ia && inner.ranges[b - 1].end == ib
    requires ia < ib <= |outer.text| && RawSpan(UnitOf(outer), ia, ib).Some?
    requires var span := RawSpan(UnitOf(outer), ia, ib).value;
             && StringStays(data, outer, span.0, span.1)
             && (OnBoundaries(data, outer, ia, ib) ==>
                   TextAfter(data, outer, span.0, span.1) == outer.text[..ia] + Stars(span.1 - span.0) + outer.text[ib..])
    ensures var span := RawSpan(UnitOf(outer), ia, ib).value;
            InnerStays(TextAfter(data, outer, span.0, span.1), inner,
                       inner.text[..a] + Stars(span.1 - span.0) + inner.text[b..])
  {
    hide ReadFrom, IsLiteral, Decode, SourceAt, RawSpan, InnerStays, MaskRaw, OnBoundaries, Stars;
    ReadIsLiteral(inner, outer.text);
    LiteralSpan(outer.text, inner, a, b);
    OuterBoundaries(data, outer, inner, a, b, ia, ib);
    var span := RawSpan(UnitOf(outer), ia, ib).value;
    InnerMasked(outer.text, inner, a, b, ia, ib, span.1 - span.0);
  }

  /** In this text the inner literal decodes to `out`. */
  ghost predicate InnerStays(text: seq<byte>, inner: JsonNode, out: seq<byte>)
    requires inner.JString?
  {
    && 0 <= inner.rawContentStart <= |text|
    && var read := Decode(text[inner.rawContentStart..], inner.rawContentStart); read.Some? && read.value.out == out
  }

  lemma OuterBoundaries(data: seq<byte>, outer: JsonNode, inner: JsonNode, a: nat, b: nat, ia: nat, ib: nat)
    requires outer.JString? && ReadFrom(outer, data) && inner.JString? && ReadFrom(inner, outer.text)
    requires a < b <= |inner.text| && OnBoundaries(outer.text, inner, a, b)
    requires RawSpan(UnitOf(inner), a, b) == Some((ia as int, ib as int))
    ensures OnBoundaries(data, outer, ia, ib)
    ensures var t := outer.text[inner.rawContentStart..];
            ia == inner.rawContentStart + SourceAt(t, a).value && ib == inner.rawContentStart + SourceAt(t, b).value
  {
    hide Decode, SourceAt, RawSpan;
    SpanOfBoundaries(outer.text, inner, a, b);
    var x, y := InnerOnOuter(data, outer, inner, a, b);
  }

  lemma InnerMasked(text: seq<byte>, inner: JsonNode, a: nat, b: nat, ia: nat, ib: nat, m: nat)
    requires inner.JString? && IsLiteral(inner, text) && a < b <= |inner.text| && OnBoundaries(text, inner, a, b) && m > 0
    requires ia == inner.rawContentStart + SourceAt(text[inner.rawContentStart..], a).value
    requires ib == inner.rawContentStart + SourceAt(text[inner.rawContentStart..], b).value
    requires ia < ib <= |text|
    ensures InnerStays(text[..ia] + Stars(m) + text[ib..], inner, inner.text[..a] + Stars(m) + inner.text[b..])
  {
    hide Decode, SourceAt, MasksTo;
    var c := inner.rawContentStart;
    var t := text[c..];
    MaskLiteral(t, c, a, b, m);
    MaskedAs(t, c, ia - c, ib - c, m, inner.text[..a] + Stars(m) + inner.text[b..],
             inner.rawContentEnd - c - (ib - ia) + m);
    assert (text[..ia] + Stars(m) + text[ib..])[c..] == t[..ia - c] + Stars(m) + t[ib - c..];
  }
}
