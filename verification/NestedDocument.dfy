/** A string that holds JSON still holds JSON after findings inside it are masked. */
module NestedDocument {
  import opened Bytes
  import opened Rules
  import opened SpanMask
  import opened Utf8
  import opened JsonString
  import opened JsonGrammar
  import opened RawMapping
  import opened Splice
  import opened LiteralSplice
  import opened LiteralMask
  import opened DocumentSplice
  import opened NestedMask
  import opened DocumentMask
  import opened JsonSyntax
  import opened SyntaxSplice

  // ----- What masking a literal does to its text

  ghost predicate Touched(cover: iset<int>, base: int, n: nat) { exists p :: base <= p < base + n && p in cover }

  /** What n bytes of a masked character read as: stars, and replacement characters for what is left of a split rune. */
  ghost function Junk(base: int, n: nat, cover: iset<int>): seq<byte>
    decreases n
  {
    if n == 0 then []
    else (if base in cover then [STAR] else EncodeRune(RUNE_ERROR)) + Junk(base + 1, n - 1, cover)
  }

  ghost function CharPieces(base: int, n: nat, e: nat, cover: iset<int>): (pieces: Pieces)
    ensures |pieces| == e
  {
    seq(e, i requires 0 <= i < e =>
      if !Touched(cover, base, n) then None else if i == 0 then Some(Junk(base, n, cover)) else Some([]))
  }

  /** For each byte of the text of the literal that s begins with, what takes its place. */
  ghost function TextPieces(s: seq<byte>, base: int, cover: iset<int>): Pieces
    decreases |s|
  {
    if s == [] || s[0] == QUOTE || UnquoteChar(s).None? then []
    else CharPieces(base, CharLen(s), |CharText(s)|, cover) + TextPieces(s[CharLen(s)..], base + CharLen(s), cover)
  }

  lemma PiecesStep(s: seq<byte>, base: int, cover: iset<int>)
    requires s != [] && s[0] != QUOTE && UnquoteChar(s).Some?
    ensures TextPieces(s, base, cover)
            == CharPieces(base, CharLen(s), |CharText(s)|, cover) + TextPieces(s[CharLen(s)..], base + CharLen(s), cover)
  {
    hide UnquoteChar, CharPieces, CharLen, CharText;
  }

  /** A star or a byte of a replacement character. */
  predicate JunkByte(b: byte) { b == STAR || b == 0xEF || b == 0xBF || b == 0xBD }

  predicate JunkBytes(x: seq<byte>) { forall i :: 0 <= i < |x| ==> JunkByte(x[i]) }

  lemma {:induction false} JunkIsBytes(base: int, n: nat, cover: iset<int>)
    ensures JunkBytes(Junk(base, n, cover)) && (n > 0 ==> Junk(base, n, cover) != [])
    decreases n
  {
    if n > 0 {
      JunkIsBytes(base + 1, n - 1, cover);
      assert EncodeRune(RUNE_ERROR) == [0xEF, 0xBF, 0xBD];
    }
  }

  /** Such bytes end neither strings nor numbers, but no number holds them. */
  lemma JunkMeans(x: seq<byte>)
    requires JunkBytes(x)
    ensures Harmless(x) && Printable(x) && RunsOn(x) && (x != [] ==> Spoils(x))
  {
    assert x != [] ==> !NumberByte(x[0]);
  }

  ghost predicate AllJunk(pieces: Pieces) { forall p :: 0 <= p < |pieces| && pieces[p].Some? ==> JunkBytes(pieces[p].value) }

  lemma {:induction false} PiecesAreJunk(s: seq<byte>, base: int, cover: iset<int>)
    ensures AllJunk(TextPieces(s, base, cover))
    decreases |s|
  {
    hide UnquoteChar, CharLen, CharText, JunkBytes, Junk;
    if s != [] && s[0] != QUOTE && UnquoteChar(s).Some? {
      PiecesAreJunk(s[CharLen(s)..], base + CharLen(s), cover);
      JunkIsBytes(base, CharLen(s), cover);
      NothingIsJunk();
    }
  }

  lemma NothingIsJunk()
    ensures JunkBytes([])
  {
  }

  /** What takes the place of an ASCII byte is not nothing. */
  lemma {:induction false} AsciiPiece(s: seq<byte>, base: int, cover: iset<int>, q: nat)
    requires Decode(s, base).Some? && q < |Decode(s, base).value.out| == |TextPieces(s, base, cover)|
    requires Decode(s, base).value.out[q] < 0x80 && TextPieces(s, base, cover)[q].Some?
    ensures TextPieces(s, base, cover)[q].value != []
    decreases |s|
  {
    hide *;
    NotClosed(s, base);
    DecodeStep(s, base);
    PiecesStep(s, base, cover);
    var n, e := CharLen(s), |CharText(s)|;
    if q < e {
      CharAlone(s, q);
      FirstPiece(base, n, e, cover);
      JunkIsBytes(base, n, cover);
    } else {
      AsciiPiece(s[n..], base + n, cover, q - e);
    }
  }

  lemma FirstPiece(base: int, n: nat, e: nat, cover: iset<int>)
    requires e > 0 && CharPieces(base, n, e, cover)[0].Some?
    ensures CharPieces(base, n, e, cover)[0] == Some(Junk(base, n, cover))
  {
    hide Junk;
  }

  // ----- Reading a masked character

  /** The masked byte at i is a star or cannot be read as part of a rune. */
  ghost predicate Breaks(masked: seq<byte>, base: int, cover: iset<int>, i: int)
    requires 0 <= i < |masked|
  {
    if base + i in cover then masked[i] == STAR else masked[i] >= 0x80 && DecodeRune(masked[i..]) == (RUNE_ERROR, 1)
  }

  lemma BrokenByte(masked: seq<byte>, base: int, cover: iset<int>)
    requires masked != [] && Breaks(masked, base, cover, 0) && Decode(masked[1..], base + 1).Some?
    ensures Decode(masked, base).Some?
    ensures var d, rest := Decode(masked, base).value, Decode(masked[1..], base + 1).value;
            d.out == Junk(base, 1, cover) + rest.out && d.len == 1 + rest.len
  {
    BrokenChar(masked, base, cover);
    hide *;
    DecodeOnce(masked, base);
  }

  lemma BrokenChar(masked: seq<byte>, base: int, cover: iset<int>)
    requires masked != [] && Breaks(masked, base, cover, 0)
    ensures masked[0] != QUOTE && UnquoteChar(masked).Some?
    ensures CharLen(masked) == 1 && CharText(masked) == Junk(base, 1, cover)
  {
    hide DecodeRune;
    assert masked[0..] == masked;
    assert Junk(base + 1, 0, cover) == [];
    assert base in cover ==> UnquoteChar(masked) == Some((42, 1)) && EncodeRune(42) == [STAR];
    assert base !in cover ==> UnquoteChar(masked) == Some((RUNE_ERROR, 1));
    hide EncodeRune;
  }

  lemma {:induction false} JunkReads(masked: seq<byte>, base: int, n: nat, cover: iset<int>)
    requires n <= |masked| && forall i :: 0 <= i < n ==> Breaks(masked, base, cover, i)
    requires Decode(masked[n..], base + n).Some?
    ensures Decode(masked, base).Some?
    ensures var d, rest := Decode(masked, base).value, Decode(masked[n..], base + n).value;
            d.out == Junk(base, n, cover) + rest.out && d.len == n + rest.len
    decreases n
  {
    hide Decode, Breaks;
    if n == 0 {
      assert masked[0..] == masked;
    } else {
      var rest, next := masked[1..], base + 1;
      forall i | 0 <= i < n - 1 ensures Breaks(rest, next, cover, i) {
        BreaksBehind(masked, base, cover, i + 1);
      }
      assert masked[1..][n - 1..] == masked[n..];
      JunkReads(masked[1..], base + 1, n - 1, cover);
      BrokenByte(masked, base, cover);
      JunkJoin(base, n, cover);
    }
  }

  lemma BreaksBehind(masked: seq<byte>, base: int, cover: iset<int>, i: int)
    requires 0 < i < |masked| && Breaks(masked, base, cover, i)
    ensures Breaks(masked[1..], base + 1, cover, i - 1)
  {
    assert masked[1..][i - 1..] == masked[i..];
  }

  lemma JunkJoin(base: int, n: nat, cover: iset<int>)
    requires n > 0
    ensures Junk(base, n, cover) == Junk(base, 1, cover) + Junk(base + 1, n - 1, cover)
  {
    assert Junk(base + 1, 0, cover) == [];
  }

  lemma BrokenLead(s: seq<byte>, masked: seq<byte>, j: nat)
    requires s != [] && |masked| == |s| && masked[0] == s[0] && 0 < j < DecodeRune(s).1 && masked[j] == STAR
    ensures masked[0] >= 0x80 && DecodeRune(masked) == (RUNE_ERROR, 1)
  {
  }

  lemma Continues(s: seq<byte>, i: nat)
    requires s != [] && 0 < i < DecodeRune(s).1
    ensures i < |s| && IsContinuation(s[i])
  {
  }

  lemma LoneContinuation(s: seq<byte>)
    requires s != [] && IsContinuation(s[0])
    ensures s[0] >= 0x80 && DecodeRune(s) == (RUNE_ERROR, 1)
  {
  }

  lemma RawLength(s: seq<byte>)
    requires s != [] && s[0] != QUOTE && s[0] != BACKSLASH && UnquoteChar(s).Some?
    ensures CharLen(s) == DecodeRune(s).1
  {
  }

  /** A touched character is broken up: escapes are covered as a whole, and a split rune cannot be put together again. */
  lemma TouchedBreaks(s: seq<byte>, base: int, cover: iset<int>)
    requires s != [] && s[0] != QUOTE && UnquoteChar(s).Some? && Touched(cover, base, CharLen(s))
    requires s[0] == BACKSLASH ==> forall p :: base <= p < base + CharLen(s) ==> (p in cover <==> base in cover)
    ensures |Masked(s, cover, base)| == |s|
    ensures forall i :: 0 <= i < CharLen(s) ==> Breaks(Masked(s, cover, base), base, cover, i)
  {
    hide UnquoteChar, CharLen, DecodeRune;
    var masked := Masked(s, cover, base);
    var p :| base <= p < base + CharLen(s) && p in cover;
    if s[0] != BACKSLASH { RawLength(s); }
    forall i | 0 <= i < CharLen(s) ensures Breaks(masked, base, cover, i) {
      if base + i !in cover {
        if i == 0 {
          BrokenLead(s, masked, p - base);
          assert masked[0..] == masked;
        } else {
          Continues(s, i);
          LoneContinuation(masked[i..]);
        }
      }
    }
  }

  // ----- The text of the masked literal

  /** From character to character. */
  lemma {:induction false} WholeAfter(s: seq<byte>, base: int, n: nat, cover: iset<int>)
    requires n <= |s| && Harmless(s[..n]) && WholeEscapes(s, base, cover)
    ensures WholeEscapes(s[n..], base + n, cover)
    decreases n
  {
    if n == 0 {
      assert s[0..] == s;
    } else {
      assert s[..n][0] == s[0];
      assert s[1..][..n - 1] == s[..n][1..] && s[1..][n - 1..] == s[n..];
      WholeAfter(s[1..], base + 1, n - 1, cover);
      hide UnquoteChar;
    }
  }

  lemma WholeNext(s: seq<byte>, base: int, cover: iset<int>)
    requires s != [] && s[0] != QUOTE && UnquoteChar(s).Some? && WholeEscapes(s, base, cover)
    ensures WholeEscapes(s[CharLen(s)..], base + CharLen(s), cover)
    ensures s[0] == BACKSLASH ==> forall p :: base <= p < base + CharLen(s) ==> (p in cover <==> base in cover)
  {
    if s[0] == BACKSLASH {
      hide UnquoteChar, CharLen;
      WholeOnce(s, base, cover);
    } else {
      RawChar(s);
      hide UnquoteChar, CharLen;
      WholeAfter(s, base, CharLen(s), cover);
    }
  }

  lemma TouchedSplice(text: seq<byte>, base: int, n: nat, cover: iset<int>)
    requires text != []
    ensures Spliced(text, CharPieces(base, n, |text|, cover))
            == if Touched(cover, base, n) then Junk(base, n, cover) else text
  {
    hide Junk, Touched;
    var pieces := CharPieces(base, n, |text|, cover);
    if Touched(cover, base, n) {
      Vanishes(text[1..], pieces[1..]);
    } else {
      AllKept(text, pieces);
    }
  }

  lemma {:induction false} Vanishes(text: seq<byte>, pieces: Pieces)
    requires |text| == |pieces| && forall i :: 0 <= i < |pieces| ==> pieces[i] == Some([])
    ensures Spliced(text, pieces) == []
  {
    if text != [] {
      Vanishes(text[1..], pieces[1..]);
    }
  }

  /** Masking any bytes of a literal, escapes as a whole, splices into its text. */
  lemma {:induction false} MaskedReads(s: seq<byte>, base: int, cover: iset<int>)
    requires Decode(s, base).Some? && WholeEscapes(s, base, cover) && base + Decode(s, base).value.len !in cover
    ensures |TextPieces(s, base, cover)| == |Decode(s, base).value.out|
    ensures var masked := Decode(Masked(s, cover, base), base);
            && masked.Some? && masked.value.len == Decode(s, base).value.len
            && masked.value.out == Spliced(Decode(s, base).value.out, TextPieces(s, base, cover))
    decreases |s|
  {
    hide *;
    ClosedReads(s, base, cover);
    if s[0] != QUOTE {
      DecodeStep(s, base);
      var n, text := CharLen(s), CharText(s);
      var rest := Decode(s[n..], base + n).value;
      WholeNext(s, base, cover);
      MaskedReads(s[n..], base + n, cover);
      PiecesStep(s, base, cover);
      SplicedAppend(text, CharPieces(base, n, |text|, cover), rest.out, TextPieces(s[n..], base + n, cover));
      TouchedSplice(text, base, n, cover);
      MaskedChar(s, base, cover, Decode(s, base).value.len);
    }
  }

  lemma ClosedReads(s: seq<byte>, base: int, cover: iset<int>)
    requires Decode(s, base).Some? && base + Decode(s, base).value.len !in cover
    ensures s != []
    ensures s[0] == QUOTE ==>
              && TextPieces(s, base, cover) == [] && Decode(s, base).value.out == []
              && var masked := Decode(Masked(s, cover, base), base);
                 && masked.Some? && masked.value.len == Decode(s, base).value.len
                 && masked.value.out == Spliced(Decode(s, base).value.out, TextPieces(s, base, cover))
  {
    ClosedText(s, base);
    if s[0] == QUOTE {
      NoPiecesAtQuote(s, base, cover);
      DecodeNothing(s, base);
      DecodeNothing(Masked(s, cover, base), base);
    }
    hide *;
  }

  lemma ClosedText(s: seq<byte>, base: int)
    requires Decode(s, base).Some?
    ensures s != [] && (s[0] == QUOTE ==> Decode(s, base) == Some(Unquoted([], [], 0)))
  {
  }

  lemma NoPiecesAtQuote(s: seq<byte>, base: int, cover: iset<int>)
    requires s != [] && s[0] == QUOTE
    ensures TextPieces(s, base, cover) == [] && Spliced([], TextPieces(s, base, cover)) == []
  {
  }

  /** The first character of the masked literal. */
  lemma MaskedChar(s: seq<byte>, base: int, cover: iset<int>, len: nat)
    requires Decode(s, base).Some? && s[0] != QUOTE && UnquoteChar(s).Some? && len == Decode(s, base).value.len
    requires base + len !in cover
    requires s[0] == BACKSLASH ==> forall p :: base <= p < base + CharLen(s) ==> (p in cover <==> base in cover)
    requires Decode(Masked(s[CharLen(s)..], cover, base + CharLen(s)), base + CharLen(s)).Some?
    ensures Decode(Masked(s, cover, base), base).Some?
    ensures var d, n := Decode(Masked(s, cover, base), base).value, CharLen(s);
            var rest := Decode(Masked(s[n..], cover, base + n), base + n).value;
            && d.len == n + rest.len
            && d.out == (if Touched(cover, base, n) then Junk(base, n, cover) else CharText(s)) + rest.out
  {
    hide *;
    var n := CharLen(s);
    MaskedTail(s, base, cover, n);
    MaskedLength(s, base, cover);
    CharInside(s, base, n);
    if Touched(cover, base, n) {
      TouchedBreaks(s, base, cover);
      JunkReads(Masked(s, cover, base), base, n, cover);
    } else {
      NotTouched(cover, base, n);
      UncoveredChar(s, base, cover, len);
      PrependChar(s, Masked(s, cover, base), base);
    }
  }

  lemma NotTouched(cover: iset<int>, base: int, n: nat)
    requires !Touched(cover, base, n)
    ensures forall p :: base <= p < base + n ==> p !in cover
  {
  }

  // ----- Which bytes of the text change

  /** The characters of the text before q0 come from source before p, those from q1 on from source behind p. */
  ghost predicate CharAt(d: Unquoted, q0: nat, q1: nat, p: int)
    requires |d.ranges| == |d.out|
  {
    && q0 < q1 <= |d.out|
    && (forall i :: 0 <= i < q0 ==> d.ranges[i].end <= p) && (forall i :: q1 <= i < |d.ranges| ==> p < d.ranges[i].start)
    && (q1 == q0 + 1 || forall i :: q0 <= i < q1 ==> d.out[i] >= 0x80)
  }

  lemma FirstCharAt(s: seq<byte>, base: int, p: int)
    requires Decode(s, base).Some? && s[0] != QUOTE && UnquoteChar(s).Some? && base <= p < base + CharLen(s)
    ensures CharAt(Decode(s, base).value, 0, |CharText(s)|, p)
  {
    hide Decode, UnquoteChar, EncodeRune;
    DecodeStep(s, base);
    var n, e, d := CharLen(s), |CharText(s)|, Decode(s, base).value;
    DecodeWellRanged(s[n..], base + n);
    if i: nat :| i < e && d.out[i] < 0x80 {
      CharAlone(s, i);
    }
  }

  lemma LaterCharAt(s: seq<byte>, base: int, q0: nat, q1: nat, p: int)
    requires Decode(s, base).Some? && s[0] != QUOTE && UnquoteChar(s).Some? && base + CharLen(s) <= p
    requires Decode(s[CharLen(s)..], base + CharLen(s)).Some?
    requires CharAt(Decode(s[CharLen(s)..], base + CharLen(s)).value, q0, q1, p)
    ensures CharAt(Decode(s, base).value, |CharText(s)| + q0, |CharText(s)| + q1, p)
  {
    hide Decode, UnquoteChar, CharText, CharLen, CharRanges;
    DecodeStep(s, base);
    FirstRanges(s[0], base, CharLen(s), |CharText(s)|);
  }

  /** A byte of the text changes only if a source byte of its character is covered. */
  lemma {:induction false} ChangedByCover(s: seq<byte>, base: int, cover: iset<int>, q: nat) returns (q0: nat, q1: nat, p: int)
    requires Decode(s, base).Some? && q < |TextPieces(s, base, cover)| && TextPieces(s, base, cover)[q].Some?
    ensures p in cover && base <= p < base + Decode(s, base).value.len && q0 <= q < q1
    ensures CharAt(Decode(s, base).value, q0, q1, p)
    decreases |s|
  {
    hide *;
    NoPieces(s, base, cover);
    DecodeStep(s, base);
    PiecesStep(s, base, cover);
    var n, e := CharLen(s), |CharText(s)|;
    CharInside(s, base, n);
    if q < e {
      p := TouchedAt(base, n, e, cover, q);
      q0, q1 := 0, e;
      FirstCharAt(s, base, p);
    } else {
      q0, q1, p := ChangedByCover(s[n..], base + n, cover, q - e);
      LaterCharAt(s, base, q0, q1, p);
      q0, q1 := e + q0, e + q1;
    }
  }

  lemma NoPieces(s: seq<byte>, base: int, cover: iset<int>)
    requires TextPieces(s, base, cover) != []
    ensures s != [] && s[0] != QUOTE
  {
  }

  lemma TouchedAt(base: int, n: nat, e: nat, cover: iset<int>, q: nat) returns (p: int)
    requires q < e && CharPieces(base, n, e, cover)[q].Some?
    ensures base <= p < base + n && p in cover
  {
    assert Touched(cover, base, n);
    p :| base <= p < base + n && p in cover;
  }

  lemma TouchedChanges(base: int, n: nat, e: nat, cover: iset<int>, p: int)
    requires base <= p < base + n && p in cover
    ensures forall q :: 0 <= q < e ==> CharPieces(base, n, e, cover)[q].Some?
  {
    assert Touched(cover, base, n);
  }

  /** A byte of the text changes if its source is covered. */
  lemma {:induction false} CoverChanges(s: seq<byte>, base: int, cover: iset<int>, q: nat)
    requires Decode(s, base).Some? && q < |Decode(s, base).value.out| == |TextPieces(s, base, cover)|
    requires |Decode(s, base).value.ranges| == |Decode(s, base).value.out|
    requires Decode(s, base).value.ranges[q].start in cover
    ensures TextPieces(s, base, cover)[q].Some?
    decreases |s|
  {
    hide *;
    NotClosed(s, base);
    DecodeStep(s, base);
    PiecesStep(s, base, cover);
    var n, e := CharLen(s), |CharText(s)|;
    if q < e {
      FirstRanges(s[0], base, n, e);
      TouchedChanges(base, n, e, cover, CharRanges(s[0], base, n, e)[q].start);
    } else {
      DecodedRanges(s[n..], base + n);
      CoverChanges(s[n..], base + n, cover, q - e);
    }
  }

  // ----- The JSON in the text

  /** Numbers are ASCII. */
  lemma {:induction false} NumberAscii(node: JsonNode, data: seq<byte>, p: int)
    requires ReadFrom(node, data) && Conforms(node, data) && InNumber(node, p)
    ensures 0 <= p < |data| && data[p] < 0x80
  {
    hide ReadFrom, IsNumber, ConformingEntry, ConformingNext, ConformingText;
    match node
    case JObject(_, _, members) =>
      var k :| 0 <= k < |members| && InNumber(members[k].value, p);
      MembersStart(node, data, k);
      NumberAscii(members[k].value, data, p);
    case JArray(_, _, values) =>
      var k :| 0 <= k < |values| && InNumber(values[k], p);
      ValuesStart(node, data, k);
      NumberAscii(values[k], data, p);
    case JNumber(start, end, text, _) =>
      NumberParts(node, data);
      NumberIsBytes(text);
      assert text[p - start] == data[p];
    case _ =>
  }

  /** Junk fits every number of a tree. */
  lemma {:induction false} JunkFits(node: JsonNode, data: seq<byte>, pieces: Pieces)
    requires ReadFrom(node, data) && Conforms(node, data) && |data| == |pieces| && AllJunk(pieces)
    requires forall p :: 0 <= p < |data| && data[p] < 0x80 && pieces[p].Some? ==> pieces[p].value != []
    ensures NumbersFit(node, pieces)
  {
    hide ReadFrom, IsNumber, ConformingEntry, ConformingNext, ConformingText, JunkBytes, RunsOn;
    match node
    case JObject(_, _, members) =>
      forall i | 0 <= i < |members| ensures NumbersFit(members[i].value, pieces) {
        MembersStart(node, data, i);
        JunkFits(members[i].value, data, pieces);
      }
    case JArray(_, _, values) =>
      forall i | 0 <= i < |values| ensures NumbersFit(values[i], pieces) {
        ValuesStart(node, data, i);
        JunkFits(values[i], data, pieces);
      }
    case JNumber(start, end, _, _) =>
      NumberParts(node, data);
      NumberAscii(node, data, start);
      forall p | start <= p < end && pieces[p].Some? ensures RunsOn(pieces[p].value) {
        JunkMeans(pieces[p].value);
      }
    case _ =>
  }

  /** A run of bytes that are not ASCII lies in one string or in none. */
  lemma {:induction false} StringRun(node: JsonNode, data: seq<byte>, from: int, end: int, p: int, q: int)
    requires ReadFrom(node, data) && Conforms(node, data) && InLeaf(node, p) && from <= p < end && from <= q < end
    requires 0 <= from && end <= |data| && forall i :: from <= i < end ==> data[i] >= 0x80
    ensures InLeaf(node, q)
  {
    hide ReadFrom, IsNumber, ConformingEntry, ConformingNext, ConformingText;
    match node
    case JObject(_, _, members) =>
      var k :| 0 <= k < |members| && InLeaf(members[k].value, p);
      MembersStart(node, data, k);
      StringRun(members[k].value, data, from, end, p, q);
    case JArray(_, _, values) =>
      var k :| 0 <= k < |values| && InLeaf(values[k], p);
      ValuesStart(node, data, k);
      StringRun(values[k], data, from, end, p, q);
    case JString(_, _, start, finish, _, _) =>
      StringParts(node, data);
      DecodedEnd(data[start..], start);
      assert data[start..][finish - start] == data[finish];
    case JNumber(_, _, _, _) =>
      NumberAscii(node, data, p);
    case _ =>
  }

  /** p lies in the source of a range of the text that changes. */
  ghost predicate HullAt(ranges: seq<ByteRange>, changed: iset<int>, p: int) {
    exists a, b :: 0 <= a < b <= |ranges| && ranges[a].start <= p < ranges[b - 1].end && Inside(Span(a, b)) <= changed
  }

  /** What is covered is the source of ranges that change, and the source of what changes is covered. */
  ghost predicate SourceOf(d: Unquoted, base: int, cover: iset<int>, changed: iset<int>) {
    && (forall p :: p in cover && base <= p < base + d.len ==> HullAt(d.ranges, changed, p))
    && (forall q :: 0 <= q < |d.ranges| && q in changed ==> d.ranges[q].start in cover)
  }

  /** A character one of whose source bytes is covered has a byte in the range. */
  lemma CharInRange(d: Unquoted, base: int, cover: iset<int>, changed: iset<int>, q0: nat, q1: nat, p: int) returns (q: nat)
    requires |d.ranges| == |d.out| && WellRanged(d.ranges, base, base + d.len) && SourceOf(d, base, cover, changed)
    requires CharAt(d, q0, q1, p) && p in cover && base <= p < base + d.len
    ensures q0 <= q < q1 && q in changed
  {
    CoveredHull(d, base, cover, changed, p);
    hide SourceOf;
    var a, b :| 0 <= a < b <= |d.ranges| && d.ranges[a].start <= p < d.ranges[b - 1].end && Inside(Span(a, b)) <= changed;
    q := if a <= q0 then q0 else a;
    hide HullAt;
    RangeMeets(d, base, a, b, q0, q1, p);
    assert q in Inside(Span(a, b));
  }

  lemma CoveredHull(d: Unquoted, base: int, cover: iset<int>, changed: iset<int>, p: int)
    requires SourceOf(d, base, cover, changed) && p in cover && base <= p < base + d.len
    ensures HullAt(d.ranges, changed, p)
  {
  }

  lemma RangeMeets(d: Unquoted, base: int, a: int, b: int, q0: nat, q1: nat, p: int)
    requires |d.ranges| == |d.out| && WellRanged(d.ranges, base, base + d.len) && CharAt(d, q0, q1, p)
    requires 0 <= a < b <= |d.ranges| && d.ranges[a].start <= p < d.ranges[b - 1].end
    ensures a < q1 && q0 < b
  {
  }

  /** What changes in the text: at ASCII bytes exactly the ranges, elsewhere only runs that begin or end in one. */
  lemma ChangedText(s: seq<byte>, base: int, cover: iset<int>, changed: iset<int>, root: JsonNode)
    requires Decode(s, base).Some? && |TextPieces(s, base, cover)| == |Decode(s, base).value.out|
    requires SourceOf(Decode(s, base).value, base, cover, changed)
    requires ReadFrom(root, Decode(s, base).value.out) && Conforms(root, Decode(s, base).value.out)
    requires forall q :: q in changed ==> InLeaf(root, q)
    ensures var text, pieces := Decode(s, base).value.out, TextPieces(s, base, cover);
            && (forall q :: 0 <= q < |pieces| && pieces[q].Some? ==> InLeaf(root, q))
            && (forall q :: 0 <= q < |text| && text[q] < 0x80 ==> (q in changed <==> q in Changed(pieces)))
  {
    hide Decode, TextPieces, ReadFrom, Conforms, InLeaf, CharAt, SourceOf, WellRanged;
    var d, pieces := Decode(s, base).value, TextPieces(s, base, cover);
    DecodedRanges(s, base);
    forall q | 0 <= q < |pieces| && pieces[q].Some?
      ensures InLeaf(root, q) && (d.out[q] < 0x80 ==> q in changed)
    {
      var q0, q1, p := ChangedByCover(s, base, cover, q);
      var r := CharInRange(d, base, cover, changed, q0, q1, p);
      InChar(d, q0, q1, p);
      if q1 != q0 + 1 {
        StringRun(root, d.out, q0, q1, r, q);
      }
    }
    forall q | 0 <= q < |d.out| && q in changed ensures pieces[q].Some? {
      assert d.ranges[q].start in cover by { SourceCovered(d, base, cover, changed, q); }
      CoverChanges(s, base, cover, q);
    }
  }

  lemma InChar(d: Unquoted, q0: nat, q1: nat, p: int)
    requires |d.ranges| == |d.out| && CharAt(d, q0, q1, p)
    ensures q1 <= |d.out| && (q1 == q0 + 1 || forall i :: q0 <= i < q1 ==> d.out[i] >= 0x80)
  {
  }

  lemma SourceCovered(d: Unquoted, base: int, cover: iset<int>, changed: iset<int>, q: nat)
    requires SourceOf(d, base, cover, changed) && q < |d.ranges| && q in changed
    ensures d.ranges[q].start in cover
  {
  }

  /** The JSON that the string holds, as it is read from the masked string. */
  ghost function MaskedInner(root: JsonNode, s: seq<byte>, base: int, cover: iset<int>, text: seq<byte>): JsonNode {
    Respliced(root, TextPieces(s, base, cover), text)
  }

  /** What takes the place of bytes of the text, as a splice of the JSON it is. */
  lemma PiecesFit(s: seq<byte>, base: int, cover: iset<int>, root: JsonNode)
    requires Decode(s, base).Some? && |TextPieces(s, base, cover)| == |Decode(s, base).value.out|
    requires ReadFrom(root, Decode(s, base).value.out) && Conforms(root, Decode(s, base).value.out)
    ensures var pieces := TextPieces(s, base, cover);
            && AllHarmless(pieces) && AllPrintable(pieces) && NumbersFit(root, pieces)
            && forall p :: 0 <= p < |pieces| && pieces[p].Some? && InNumber(root, p) ==> Spoils(pieces[p].value)
  {
    hide Decode, TextPieces, ReadFrom, Conforms, InNumber, JunkBytes, Harmless, Printable, RunsOn, Spoils, NumbersFit;
    var text, pieces := Decode(s, base).value.out, TextPieces(s, base, cover);
    PiecesAreJunk(s, base, cover);
    forall p | 0 <= p < |pieces| && pieces[p].Some? ensures Harmless(pieces[p].value) && Printable(pieces[p].value) {
      JunkMeans(pieces[p].value);
    }
    forall p | 0 <= p < |text| && text[p] < 0x80 && pieces[p].Some? ensures pieces[p].value != [] {
      AsciiPiece(s, base, cover, p);
    }
    JunkFits(root, text, pieces);
    forall p | 0 <= p < |pieces| && pieces[p].Some? && InNumber(root, p) ensures Spoils(pieces[p].value) {
      NumberAscii(root, text, p);
      JunkMeans(pieces[p].value);
    }
  }

  /** Masking sources of ranges that lie in strings and numbers of the JSON a literal holds leaves a literal that holds the same
      JSON. It passes the syntax check exactly if no number is touched. */
  lemma StaysDocument(s: seq<byte>, base: int, cover: iset<int>, changed: iset<int>, root: JsonNode)
    requires Decode(s, base).Some? && WholeEscapes(s, base, cover) && base + Decode(s, base).value.len !in cover
    requires Document(root, Decode(s, base).value.out) && Conforms(root, Decode(s, base).value.out)
    requires SourceOf(Decode(s, base).value, base, cover, changed)
    requires WholeStrings(root, Decode(s, base).value.out, changed) && forall q :: q in changed ==> InLeaf(root, q)
    ensures Decode(Masked(s, cover, base), base).Some?
    ensures var text := Decode(Masked(s, cover, base), base).value.out;
            && Document(MaskedInner(root, s, base, cover, text), text)
            && (ValidJSON(text) <==> forall q :: q in changed ==> !InNumber(root, q))
  {
    hide Decode, TextPieces, ReadFrom, Conforms, InLeaf, InNumber, SourceOf, Document, WholeEscapes, WholeStrings, AllHarmless,
         AllPrintable, NumbersFit, Spoils, Changed, Spliced, Respliced, Masked, ValidJSON;
    var text, pieces := Decode(s, base).value.out, TextPieces(s, base, cover);
    DocumentReads(root, text);
    MaskedReads(s, base, cover);
    PiecesFit(s, base, cover, root);
    ChangedText(s, base, cover, changed, root);
    WholeStringsAgree(root, text, changed, Changed(pieces));
    SplicedDocument(root, text, pieces);
    SplicedValid(root, text, pieces);
    forall q | InNumber(root, q) ensures q in changed <==> 0 <= q < |pieces| && pieces[q].Some? {
      NumberAscii(root, text, q);
      ChangedHere(pieces, q);
    }
  }

  lemma ChangedHere(pieces: Pieces, q: int)
    ensures q in Changed(pieces) <==> 0 <= q < |pieces| && pieces[q].Some?
  {
  }

  // ----- Findings in a string that holds JSON

  /** The range of the text lies in strings and numbers of the JSON and takes escapes whole. */
  ghost predicate FitsJSON(inner: JsonNode, text: seq<byte>, a: int, b: int) {
    WholeStrings(inner, text, Inside(Span(a, b))) && forall q :: a <= q < b ==> InLeaf(inner, q)
  }

  /** A range of the text that fits the JSON and whose source is all covered. */
  ghost predicate InnerSpan(outer: JsonNode, inner: JsonNode, cover: iset<int>, a: int, b: int, span: Span)
    requires outer.JString?
  {
    && 0 <= a < b <= |outer.text| && FitsJSON(inner, outer.text, a, b)
    && RawSpan(UnitOf(outer), a, b) == Some((span.start, span.end)) && Inside(span) <= cover
  }

  ghost predicate InnerSpanAt(outer: JsonNode, inner: JsonNode, cover: iset<int>, p: int)
    requires outer.JString?
  {
    exists a, b, span :: InnerSpan(outer, inner, cover, a, b, span) && Contains(span, p)
  }

  /** Up to its closing quote, what is covered of the string is the source of ranges that fit the JSON it holds. */
  ghost predicate FromInner(outer: JsonNode, inner: JsonNode, cover: iset<int>)
    requires outer.JString?
  {
    forall p :: p in cover && outer.rawContentStart <= p <= outer.rawContentEnd ==> InnerSpanAt(outer, inner, cover, p)
  }

  ghost predicate InnerAt(outer: JsonNode, inner: JsonNode, cover: iset<int>, q: int)
    requires outer.JString?
  {
    exists a, b, span :: InnerSpan(outer, inner, cover, a, b, span) && a <= q < b
  }

  /** The positions of the text in those ranges. */
  ghost function InnerCover(outer: JsonNode, inner: JsonNode, cover: iset<int>): iset<int>
    requires outer.JString?
  {
    iset q | InnerAt(outer, inner, cover, q)
  }

  /** A range of a string or number of the JSON fits it, and its composed source is that of the range it has in the text. */
  lemma NestedFits(data: seq<byte>, outer: JsonNode, inner: JsonNode, leaf: JsonNode, a: int, b: int) returns (ia: nat, ib: nat)
    requires outer.JString? && ReadFrom(outer, data) && ReadFrom(inner, outer.text)
    requires leaf in ScalarLeaves(inner) && (leaf.JString? || leaf.JNumber?) && 0 <= a < b <= |leaf.text|
    ensures ia < ib <= |outer.text| && FitsJSON(inner, outer.text, ia, ib)
    ensures RawSpan(ComposedUnit(leaf, outer), a, b) == RawSpan(UnitOf(outer), ia, ib)
  {
    hide ReadFrom, ComposedUnit, ScalarLeaves, InLeaf, WholeStrings, UnitOf, RawSpan;
    LeavesReadFrom(inner, outer.text);
    ia, ib := ComposedSpan(data, outer, leaf, a, b);
    LeafPlace(outer.text, leaf, a, b);
    OneSpanWhole(inner, outer.text, leaf, a, b);
    forall q | ia <= q < ib ensures InLeaf(inner, q) {
      LeafHolds(inner, leaf, q);
    }
  }

  lemma InnerFits(outer: JsonNode, inner: JsonNode, cover: iset<int>)
    requires outer.JString? && ReadFrom(inner, outer.text)
    ensures WholeStrings(inner, outer.text, InnerCover(outer, inner, cover))
    ensures forall q :: q in InnerCover(outer, inner, cover) ==> InLeaf(inner, q)
  {
    hide ReadFrom, WholeStrings, InLeaf;
    var changed := InnerCover(outer, inner, cover);
    forall q | q in changed ensures InLeaf(inner, q) && exists part :: TreePartAt(inner, outer.text, changed, part, q) {
      assert InnerAt(outer, inner, cover, q);
      var a, b, span :| InnerSpan(outer, inner, cover, a, b, span) && a <= q < b;
      RangeChanges(outer, inner, cover, a, b, span);
      assert TreePartAt(inner, outer.text, changed, Span(a, b), q);
    }
    TreeTogether(inner, outer.text, changed);
  }

  lemma RangeChanges(outer: JsonNode, inner: JsonNode, cover: iset<int>, a: int, b: int, span: Span)
    requires outer.JString? && InnerSpan(outer, inner, cover, a, b, span)
    ensures Inside(Span(a, b)) <= InnerCover(outer, inner, cover)
  {
    hide InnerSpan;
    forall r | r in Inside(Span(a, b)) ensures InnerAt(outer, inner, cover, r) { }
  }

  lemma InnerPlace(data: seq<byte>, outer: JsonNode, inner: JsonNode, cover: iset<int>, a: int, b: int, span: Span)
    requires outer.JString? && ReadFrom(outer, data) && InnerSpan(outer, inner, cover, a, b, span)
    ensures 0 <= a < b <= |outer.text| == |outer.ranges| && Inside(span) <= cover
    ensures span == Span(outer.ranges[a].start, outer.ranges[b - 1].end) && span.end <= outer.rawContentEnd
  {
    hide ReadFrom, IsLiteral, FitsJSON;
    ReadIsLiteral(outer, data);
    LiteralSpan(data, outer, a, b);
  }

  lemma InnerSource(data: seq<byte>, outer: JsonNode, inner: JsonNode, cover: iset<int>)
    requires outer.JString? && ReadFrom(outer, data) && FromInner(outer, inner, cover)
    ensures var d := Unquoted(outer.text, outer.ranges, outer.rawContentEnd - outer.rawContentStart);
            SourceOf(d, outer.rawContentStart, cover, InnerCover(outer, inner, cover))
  {
    hide ReadFrom, InnerSpan, WellRanged;
    var changed := InnerCover(outer, inner, cover);
    forall p | p in cover && outer.rawContentStart <= p < outer.rawContentEnd ensures HullAt(outer.ranges, changed, p) {
      assert InnerSpanAt(outer, inner, cover, p);
      var a, b, span :| InnerSpan(outer, inner, cover, a, b, span) && Contains(span, p);
      InnerPlace(data, outer, inner, cover, a, b, span);
      RangeChanges(outer, inner, cover, a, b, span);
    }
    forall q | 0 <= q < |outer.ranges| && q in changed ensures outer.ranges[q].start in cover {
      assert InnerAt(outer, inner, cover, q);
      var a, b, span :| InnerSpan(outer, inner, cover, a, b, span) && a <= q < b;
      InnerPlace(data, outer, inner, cover, a, b, span);
      OuterOrder(data, outer, a, q, b);
      assert outer.ranges[q].start in Inside(span);
    }
  }

  lemma OuterOrder(data: seq<byte>, outer: JsonNode, ia: nat, q: nat, ib: nat)
    requires outer.JString? && ReadFrom(outer, data) && ia <= q < ib <= |outer.text|
    ensures |outer.ranges| == |outer.text| && outer.ranges[ia].start <= outer.ranges[q].start < outer.ranges[ib - 1].end
  {
    hide ReadFrom, IsLiteral;
    ReadIsLiteral(outer, data);
    LiteralRanges(data, outer);
    assert outer.ranges[q].start < outer.ranges[q].end;
  }

  /** A cover that takes the escapes of all strings whole takes those of one string whole. */
  lemma {:induction false} WholeLeaf(node: JsonNode, data: seq<byte>, cover: iset<int>, leaf: JsonNode)
    requires WholeStrings(node, data, cover) && leaf in ScalarLeaves(node) && leaf.JString?
    ensures WholeStrings(leaf, data, cover)
    decreases node
  {
    hide WholeEscapes;
    if node.JObject? {
      var k := LeafInMember(node, leaf);
      WholeLeaf(node.members[k].value, data, cover, leaf);
    } else if node.JArray? {
      var k := LeafInValue(node, leaf);
      WholeLeaf(node.values[k], data, cover, leaf);
    }
  }

  /** A string of the masked body still holds a document, the one it held with masked strings and numbers, whatever findings
      there are in the leaves of that document and elsewhere in the body. It passes the syntax check exactly if no number of it
      is touched. */
  lemma MaskedInside(root: JsonNode, data: seq<byte>, cover: iset<int>, outer: JsonNode, inner: JsonNode)
    requires Document(root, data) && FromLeaves(root, data, cover) && outer in ScalarLeaves(root) && outer.JString?
    requires Document(inner, outer.text) && Conforms(inner, outer.text) && FromInner(outer, inner, cover)
    ensures 0 <= outer.rawContentStart <= |data|
    ensures var c := outer.rawContentStart;
            var text := MaskedNode(outer, data, cover).text;
            && Document(MaskedInner(inner, data[c..], c, cover, text), text)
            && (ValidJSON(text) <==> forall q :: q in InnerCover(outer, inner, cover) ==> !InNumber(inner, q))
  {
    hide Decode, TextPieces, ReadFrom, Conforms, IsLiteral, InLeaf, InNumber, SourceOf, Document, WholeEscapes, WholeStrings,
         FromLeaves, InnerCover, FromInner, MaskedInner, ScalarLeaves, ValidJSON;
    var c := outer.rawContentStart;
    DocumentReads(root, data);
    LeavesReadFrom(root, data);
    DocumentReads(inner, outer.text);
    ReadIsLiteral(outer, data);
    LiteralDecodes(data, outer);
    CoverFits(root, data, cover);
    WholeLeaf(root, data, cover, outer);
    StringEscapes(outer, data, cover);
    InnerFits(outer, inner, cover);
    InnerSource(data, outer, inner, cover);
    QuoteOpen(data, outer, inner, cover);
    StaysDocument(data[c..], c, cover, InnerCover(outer, inner, cover), inner);
    InnerText(data, outer, cover);
  }

  lemma QuoteOpen(data: seq<byte>, outer: JsonNode, inner: JsonNode, cover: iset<int>)
    requires outer.JString? && ReadFrom(outer, data) && FromInner(outer, inner, cover)
    requires outer.rawContentStart <= outer.rawContentEnd
    ensures outer.rawContentEnd !in cover
  {
    hide ReadFrom, InnerSpan;
    var p := outer.rawContentEnd;
    if p in cover {
      assert InnerSpanAt(outer, inner, cover, p);
      var a, b, span :| InnerSpan(outer, inner, cover, a, b, span) && Contains(span, p);
      InnerPlace(data, outer, inner, cover, a, b, span);
      assert false;
    }
  }

  lemma InnerText(data: seq<byte>, outer: JsonNode, cover: iset<int>)
    requires outer.JString? && 0 <= outer.rawContentStart <= |data|
    requires Decode(Masked(data[outer.rawContentStart..], cover, outer.rawContentStart), outer.rawContentStart).Some?
    ensures var c := outer.rawContentStart;
            MaskedNode(outer, data, cover).text == Decode(Masked(data[c..], cover, c), c).value.out
  {
    hide Decode, StarPieces, Respliced, At;
    var c := outer.rawContentStart;
    StarsMask(data, cover);
    MaskedTail(data, 0, cover, c);
    MaskedLength(data, 0, cover);
    ResplicedString(outer, StarPieces(|data|, cover), Masked(data, cover, 0));
  }
}
