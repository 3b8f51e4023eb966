/** Masking findings in a JSON document: the masked bytes spell the same tree with masked strings and numbers. */
module DocumentMask {
  import opened Bytes
  import opened Rules
  import opened SpanMask
  import opened JsonString
  import opened JsonGrammar
  import opened RawMapping
  import opened Splice
  import opened LiteralSplice
  import opened LiteralMask
  import opened DocumentSplice
  import opened NestedMask
  import opened JsonSyntax
  import opened SyntaxSplice

  // ----- The masked tree

  /** The node as it is read from the masked data: where it was, with its strings and numbers read again. */
  ghost function MaskedNode(node: JsonNode, data: seq<byte>, cover: iset<int>): JsonNode {
    Respliced(node, StarPieces(|data|, cover), Masked(data, cover, 0))
  }

  /** A string stays where it was; if it is covered by whole characters, each covered character is replaced by stars. */
  lemma MaskedStringNode(node: JsonNode, data: seq<byte>, cover: iset<int>)
    requires node.JString? && ReadFrom(node, data)
    ensures var m := MaskedNode(node, data, cover);
            && m.JString? && m.rawStart == node.rawStart && m.rawEnd == node.rawEnd
            && m.rawContentStart == node.rawContentStart && m.rawContentEnd == node.rawContentEnd
    ensures WholeChars(data[node.rawContentStart..], node.rawContentStart, cover) && node.rawContentEnd !in cover ==>
              MaskedNode(node, data, cover).text == MaskedText(data[node.rawContentStart..], node.rawContentStart, cover)
  {
    hide ReadFrom, Decode, WholeChars, MaskedText, At, Respliced, StarPieces, Masked;
    var c := node.rawContentStart;
    StringParts(node, data);
    StarsMask(data, cover);
    ResplicedString(node, StarPieces(|data|, cover), Masked(data, cover, 0));
    if WholeChars(data[c..], c, cover) && node.rawContentEnd !in cover {
      LiteralMasked(data, cover, c);
    }
  }

  /** A literal covered by whole characters is read from the masked bytes as the masked text. */
  lemma LiteralMasked(data: seq<byte>, cover: iset<int>, c: nat)
    requires c <= |data| && Decode(data[c..], c).Some? && WholeChars(data[c..], c, cover)
    requires c + Decode(data[c..], c).value.len !in cover
    ensures |Masked(data, cover, 0)| == |data|
    ensures var masked := Decode(Masked(data, cover, 0)[c..], c);
            && masked.Some? && masked.value.len == Decode(data[c..], c).value.len
            && masked.value.out == MaskedText(data[c..], c, cover)
  {
    MaskedLength(data, 0, cover);
    hide Decode, WholeChars, MaskedText;
    assert Masked(data, cover, 0)[c..] == Masked(data[c..], cover, c);
    MaskWholeChars(data[c..], c, cover);
  }

  /** A number stays where it was, with the covered bytes starred out. */
  lemma MaskedNumberNode(node: JsonNode, data: seq<byte>, cover: iset<int>)
    requires node.JNumber? && ReadFrom(node, data)
    ensures MaskedNode(node, data, cover)
         == JNumber(node.rawStart, node.rawEnd, Masked(node.text, cover, node.rawStart), SelfRanges(node.rawStart, |node.text|))
  {
    hide ReadFrom, At, Respliced, StarPieces;
    var start, end := node.rawStart, node.rawEnd;
    NumberParts(node, data);
    StarsMask(data, cover);
    MaskedLength(data, 0, cover);
    ResplicedNumber(node, StarPieces(|data|, cover), Masked(data, cover, 0));
    assert Masked(data, cover, 0)[start..end] == Masked(node.text, cover, start);
  }

  // ----- Covers that come from findings

  /** The source of a decoded range of one string or number of the tree, wherever the range begins and ends. */
  ghost predicate LeafSpan(root: JsonNode, data: seq<byte>, span: Span) {
    exists leaf, a: nat, b: nat :: leaf in ScalarLeaves(root) && SpanOfLeaf(leaf, data, a, b, span)
  }

  ghost predicate SpanOfLeaf(leaf: JsonNode, data: seq<byte>, a: nat, b: nat, span: Span) {
    && (leaf.JString? || leaf.JNumber?) && ReadFrom(leaf, data) && a < b <= |leaf.text|
    && RawSpan(UnitOf(leaf), a, b) == Some((span.start, span.end))
  }

  /** Where the source of a range of a leaf lies. */
  lemma LeafPlace(data: seq<byte>, leaf: JsonNode, a: nat, b: nat)
    requires (leaf.JString? || leaf.JNumber?) && ReadFrom(leaf, data) && a < b <= |leaf.text|
    ensures |leaf.ranges| == |leaf.text|
    ensures RawSpan(UnitOf(leaf), a, b) == Some((leaf.ranges[a].start, leaf.ranges[b - 1].end))
    ensures 0 <= UnitOf(leaf).rawContentStart <= leaf.ranges[a].start < leaf.ranges[b - 1].end <= UnitOf(leaf).rawContentEnd
    ensures UnitOf(leaf).rawContentEnd <= |data|
  {
    hide ReadFrom, WellRanged;
    LeafSound(leaf, data);
    OrderedSpan(leaf.ranges, UnitOf(leaf).rawContentStart, UnitOf(leaf).rawContentEnd, a, b);
  }

  lemma {:induction false} ValueOfLeaf(values: seq<JsonNode>, leaf: JsonNode) returns (k: nat)
    requires leaf in ValueLeaves(values)
    ensures k < |values| && leaf in ScalarLeaves(values[k])
  {
    if leaf in ScalarLeaves(values[0]) {
      k := 0;
    } else {
      k := ValueOfLeaf(values[1..], leaf);
      k := k + 1;
    }
  }

  lemma {:induction false} MemberOfLeaf(members: seq<Member>, leaf: JsonNode) returns (k: nat)
    requires leaf in MemberLeaves(members)
    ensures k < |members| && leaf in ScalarLeaves(members[k].value)
  {
    if leaf in ScalarLeaves(members[0].value) {
      k := 0;
    } else {
      k := MemberOfLeaf(members[1..], leaf);
      k := k + 1;
    }
  }

  /** The bytes of a leaf of the tree are bytes of strings and numbers of the tree. */
  lemma {:induction false} LeafHolds(node: JsonNode, leaf: JsonNode, p: int)
    requires leaf in ScalarLeaves(node) && (leaf.JString? || leaf.JNumber?)
    requires UnitOf(leaf).rawContentStart <= p < UnitOf(leaf).rawContentEnd
    ensures InLeaf(node, p)
  {
    match node
    case JObject(_, _, members) =>
      var k := MemberOfLeaf(members, leaf);
      LeafHolds(members[k].value, leaf, p);
    case JArray(_, _, values) =>
      var k := ValueOfLeaf(values, leaf);
      LeafHolds(values[k], leaf, p);
    case _ =>
  }

  ghost predicate Clear(cover: iset<int>, start: int, end: int) { forall p :: start <= p < end ==> p !in cover }

  /** A cover that does not reach a node takes its escapes whole: none is covered. */
  lemma {:induction false} Unreached(node: JsonNode, data: seq<byte>, cover: iset<int>)
    requires ReadFrom(node, data) && Clear(cover, node.rawStart, node.rawEnd)
    ensures WholeStrings(node, data, cover)
  {
    hide ReadFrom, WholeEscapes;
    match node
    case JObject(_, _, members) =>
      forall i | 0 <= i < |members| ensures WholeStrings(members[i].value, data, cover) {
        MembersBetween(node, data, i);
        MembersStart(node, data, i);
        Unreached(members[i].value, data, cover);
      }
    case JArray(_, _, values) =>
      forall i | 0 <= i < |values| ensures WholeStrings(values[i], data, cover) {
        ValuesBetween(node, data, i);
        ValuesStart(node, data, i);
        Unreached(values[i], data, cover);
      }
    case JString(_, _, start, _, _, _) =>
      StringParts(node, data);
      DecodeCloses(data[start..], start);
      WholeUncovered(data[start..], start, cover);
    case _ =>
  }

  lemma StringIsLiteral(node: JsonNode, data: seq<byte>)
    requires ReadFrom(node, data) && node.JString?
    ensures IsLiteral(node, data) && data[node.rawStart] == QUOTE
  {
    hide Decode;
  }

  /** The source of one range of one string or number takes the escapes of every string of the tree whole. */
  lemma {:induction false} OneSpanWhole(node: JsonNode, data: seq<byte>, leaf: JsonNode, a: nat, b: nat)
    requires ReadFrom(node, data) && leaf in ScalarLeaves(node) && (leaf.JString? || leaf.JNumber?) && ReadFrom(leaf, data)
    requires a < b <= |leaf.text|
    ensures |leaf.ranges| == |leaf.text|
    ensures WholeStrings(node, data, Inside(Span(leaf.ranges[a].start, leaf.ranges[b - 1].end)))
  {
    hide ReadFrom, WholeStrings, Clear, ScalarLeaves, UnitOf, RawSpan;
    LeafPlace(data, leaf, a, b);
    var span := Span(leaf.ranges[a].start, leaf.ranges[b - 1].end);
    if node.JObject? {
      var k := LeafInMember(node, leaf);
      MembersStart(node, data, k);
      OneSpanWhole(node.members[k].value, data, leaf, a, b);
      forall i | 0 <= i < |node.members| ensures WholeStrings(node.members[i].value, data, Inside(span)) {
        MembersStart(node, data, i);
        if i != k {
          MemberApart(node, data, i, k, leaf, span);
          Unreached(node.members[i].value, data, Inside(span));
        }
      }
      WholeParts(node, data, Inside(span));
    } else if node.JArray? {
      var k := LeafInValue(node, leaf);
      ValuesStart(node, data, k);
      OneSpanWhole(node.values[k], data, leaf, a, b);
      forall i | 0 <= i < |node.values| ensures WholeStrings(node.values[i], data, Inside(span)) {
        ValuesStart(node, data, i);
        if i != k {
          ValueApart(node, data, i, k, leaf, span);
          Unreached(node.values[i], data, Inside(span));
        }
      }
      WholeParts(node, data, Inside(span));
    } else {
      OwnSpanWhole(node, data, leaf, a, b);
    }
  }

  lemma WholeParts(node: JsonNode, data: seq<byte>, cover: iset<int>)
    requires node.JObject? ==> forall i :: 0 <= i < |node.members| ==> WholeStrings(node.members[i].value, data, cover)
    requires node.JArray? ==> forall i :: 0 <= i < |node.values| ==> WholeStrings(node.values[i], data, cover)
    ensures node.JObject? || node.JArray? ==> WholeStrings(node, data, cover)
  {
  }

  /** A leaf on its own. */
  lemma OwnSpanWhole(node: JsonNode, data: seq<byte>, leaf: JsonNode, a: nat, b: nat)
    requires leaf in ScalarLeaves(node) && !node.JObject? && !node.JArray? && (leaf.JString? || leaf.JNumber?)
    requires ReadFrom(leaf, data) && a < b <= |leaf.text| == |leaf.ranges|
    ensures WholeStrings(node, data, Inside(Span(leaf.ranges[a].start, leaf.ranges[b - 1].end)))
  {
    hide ReadFrom, Decode, WholeEscapes;
    if leaf.JString? {
      StringIsLiteral(leaf, data);
      hide IsLiteral;
      LiteralDecodes(data, leaf);
      HullWhole(data[leaf.rawContentStart..], leaf.rawContentStart, a, b);
    }
  }

  lemma LeafInMember(node: JsonNode, leaf: JsonNode) returns (k: nat)
    requires node.JObject? && leaf in ScalarLeaves(node)
    ensures k < |node.members| && leaf in ScalarLeaves(node.members[k].value)
  {
    k := MemberOfLeaf(node.members, leaf);
  }

  lemma LeafInValue(node: JsonNode, leaf: JsonNode) returns (k: nat)
    requires node.JArray? && leaf in ScalarLeaves(node)
    ensures k < |node.values| && leaf in ScalarLeaves(node.values[k])
  {
    k := ValueOfLeaf(node.values, leaf);
  }

  /** A part of a leaf lies inside the node the leaf belongs to. */
  lemma LeafInside(node: JsonNode, data: seq<byte>, leaf: JsonNode, span: Span)
    requires ReadFrom(node, data) && leaf in ScalarLeaves(node) && (leaf.JString? || leaf.JNumber?)
    requires UnitOf(leaf).rawContentStart <= span.start < span.end <= UnitOf(leaf).rawContentEnd
    ensures node.rawStart <= span.start && span.end <= node.rawEnd
  {
    hide ReadFrom, InLeaf, ScalarLeaves, UnitOf;
    LeafHolds(node, leaf, span.start);
    LeafHolds(node, leaf, span.end - 1);
    LeafBytesInside(node, data, span.start);
    LeafBytesInside(node, data, span.end - 1);
  }

  lemma ValueApart(node: JsonNode, data: seq<byte>, i: nat, k: nat, leaf: JsonNode, span: Span)
    requires ReadFrom(node, data) && node.JArray? && i < |node.values| && k < |node.values| && i != k
    requires leaf in ScalarLeaves(node.values[k]) && (leaf.JString? || leaf.JNumber?)
    requires UnitOf(leaf).rawContentStart <= span.start < span.end <= UnitOf(leaf).rawContentEnd
    ensures Clear(Inside(span), node.values[i].rawStart, node.values[i].rawEnd)
  {
    hide ReadFrom, ScalarLeaves, UnitOf;
    ValuesStart(node, data, k);
    LeafInside(node.values[k], data, leaf, span);
    ValuesBetween(node, data, i);
    ValuesBetween(node, data, k);
  }

  lemma MemberApart(node: JsonNode, data: seq<byte>, i: nat, k: nat, leaf: JsonNode, span: Span)
    requires ReadFrom(node, data) && node.JObject? && i < |node.members| && k < |node.members| && i != k
    requires leaf in ScalarLeaves(node.members[k].value) && (leaf.JString? || leaf.JNumber?)
    requires UnitOf(leaf).rawContentStart <= span.start < span.end <= UnitOf(leaf).rawContentEnd
    ensures Clear(Inside(span), node.members[i].value.rawStart, node.members[i].value.rawEnd)
  {
    hide ReadFrom, ScalarLeaves, UnitOf;
    MembersStart(node, data, k);
    LeafInside(node.members[k].value, data, leaf, span);
    MembersBetween(node, data, i);
    MembersBetween(node, data, k);
  }

  ghost predicate TreePartAt(node: JsonNode, data: seq<byte>, cover: iset<int>, part: Span, p: int) {
    Contains(part, p) && Inside(part) <= cover && WholeStrings(node, data, Inside(part))
  }

  lemma {:induction false} TreeTogether(node: JsonNode, data: seq<byte>, cover: iset<int>)
    requires ReadFrom(node, data)
    requires forall p :: p in cover ==> exists part :: TreePartAt(node, data, cover, part, p)
    ensures WholeStrings(node, data, cover)
  {
    hide ReadFrom, WholeEscapes;
    match node
    case JObject(_, _, members) =>
      forall i | 0 <= i < |members| ensures WholeStrings(members[i].value, data, cover) {
        MembersStart(node, data, i);
        forall p | p in cover ensures exists part :: TreePartAt(members[i].value, data, cover, part, p) {
          var part :| TreePartAt(node, data, cover, part, p);
          assert TreePartAt(members[i].value, data, cover, part, p);
        }
        TreeTogether(members[i].value, data, cover);
      }
    case JArray(_, _, values) =>
      forall i | 0 <= i < |values| ensures WholeStrings(values[i], data, cover) {
        ValuesStart(node, data, i);
        forall p | p in cover ensures exists part :: TreePartAt(values[i], data, cover, part, p) {
          var part :| TreePartAt(node, data, cover, part, p);
          assert TreePartAt(values[i], data, cover, part, p);
        }
        TreeTogether(values[i], data, cover);
      }
    case JString(_, _, start, _, _, _) =>
      StringParts(node, data);
      forall p | p in cover ensures exists part :: EscapePartAt(data[start..], start, cover, part, p) {
        var part :| TreePartAt(node, data, cover, part, p);
        assert EscapePartAt(data[start..], start, cover, part, p);
      }
      EscapesTogether(data[start..], start, cover);
    case _ =>
  }

  ghost predicate SpanAt(root: JsonNode, data: seq<byte>, cover: iset<int>, span: Span, p: int) {
    Contains(span, p) && Inside(span) <= cover && LeafSpan(root, data, span)
  }

  /** Every covered byte lies in the source, all of it covered, of some range of some string or number. */
  ghost predicate FromLeaves(root: JsonNode, data: seq<byte>, cover: iset<int>) {
    forall p :: p in cover ==> exists span :: SpanAt(root, data, cover, span, p)
  }

  lemma SpanIsPart(root: JsonNode, data: seq<byte>, cover: iset<int>, span: Span, p: int)
    requires ReadFrom(root, data) && SpanAt(root, data, cover, span, p)
    ensures TreePartAt(root, data, cover, span, p) && InLeaf(root, p)
  {
    hide ReadFrom, WholeStrings, InLeaf, UnitOf, RawSpan, ScalarLeaves;
    var leaf, a: nat, b: nat :| leaf in ScalarLeaves(root) && SpanOfLeaf(leaf, data, a, b, span);
    LeafPlace(data, leaf, a, b);
    OneSpanWhole(root, data, leaf, a, b);
    LeafHolds(root, leaf, p);
  }

  /** What covers that come from findings in strings and numbers mean for the tree. */
  lemma CoverFits(root: JsonNode, data: seq<byte>, cover: iset<int>)
    requires ReadFrom(root, data) && FromLeaves(root, data, cover)
    ensures WholeStrings(root, data, cover) && forall p :: p in cover ==> InLeaf(root, p)
  {
    hide ReadFrom, SpanAt, WholeStrings, InLeaf;
    forall p | p in cover ensures (exists part :: TreePartAt(root, data, cover, part, p)) && InLeaf(root, p) {
      var span :| SpanAt(root, data, cover, span, p);
      SpanIsPart(root, data, cover, span, p);
    }
    TreeTogether(root, data, cover);
  }

  /** Only the ASCII bytes of the text matter. */
  lemma {:induction false} WholeStringsAgree(node: JsonNode, data: seq<byte>, cover: iset<int>, other: iset<int>)
    requires WholeStrings(node, data, cover)
    requires forall p :: 0 <= p < |data| && data[p] < 0x80 ==> (p in cover <==> p in other)
    ensures WholeStrings(node, data, other)
  {
    hide WholeEscapes;
    match node
    case JObject(_, _, members) =>
      forall i | 0 <= i < |members| ensures WholeStrings(members[i].value, data, other) {
        WholeStringsAgree(members[i].value, data, cover, other);
      }
    case JArray(_, _, values) =>
      forall i | 0 <= i < |values| ensures WholeStrings(values[i], data, other) {
        WholeStringsAgree(values[i], data, cover, other);
      }
    case JString(_, _, start, _, _, _) =>
      forall p ensures AgreeAt(data[start..], start, cover, other, p) { }
      AgreeOnASCII(data[start..], start, cover, other);
    case _ =>
  }

  /** Stars run on. */
  lemma {:induction false} StarsFit(node: JsonNode, n: nat, cover: iset<int>)
    ensures NumbersFit(node, StarPieces(n, cover))
  {
    match node
    case JObject(_, _, members) =>
      forall i | 0 <= i < |members| ensures NumbersFit(members[i].value, StarPieces(n, cover)) {
        StarsFit(members[i].value, n, cover);
      }
    case JArray(_, _, values) =>
      forall i | 0 <= i < |values| ensures NumbersFit(values[i], StarPieces(n, cover)) {
        StarsFit(values[i], n, cover);
      }
    case _ =>
  }

  /** Masking findings never changes how a document is taken apart: whatever the findings in its strings and numbers,
      overlapping or not, on character boundaries or not, the masked bytes spell the same tree with its strings and numbers
      read again. */
  lemma MaskedDocument(root: JsonNode, data: seq<byte>, cover: iset<int>)
    requires Document(root, data) && FromLeaves(root, data, cover)
    ensures Document(MaskedNode(root, data, cover), Masked(data, cover, 0))
  {
    hide ReadFrom, WholeStrings, InLeaf, Spliced, Respliced, Blank, Document, FromLeaves, AllHarmless, At, NumbersFit;
    var pieces := StarPieces(|data|, cover);
    DocumentReads(root, data);
    CoverFits(root, data, cover);
    StarsMask(data, cover);
    StarsFit(root, |data|, cover);
    WholeStringsAgree(root, data, cover, Changed(pieces));
    SplicedDocument(root, data, pieces);
  }

  lemma StarsSpoil(n: nat, cover: iset<int>)
    ensures AllPrintable(StarPieces(n, cover))
    ensures forall p :: 0 <= p < n && StarPieces(n, cover)[p].Some? ==> Spoils(StarPieces(n, cover)[p].value)
  {
    assert !NumberByte([STAR][0]);
  }

  /** What is sent on passes the syntax check, if the body did, exactly when no finding that is masked touches a number. */
  lemma MaskedValid(root: JsonNode, data: seq<byte>, cover: iset<int>)
    requires Document(root, data) && Conforms(root, data) && FromLeaves(root, data, cover)
    ensures ValidJSON(Masked(data, cover, 0)) <==> forall p :: p in cover ==> !InNumber(root, p)
  {
    hide ReadFrom, WholeStrings, InLeaf, InNumber, Spliced, Respliced, Blank, Document, FromLeaves, AllHarmless, AllPrintable, At,
         NumbersFit, Conforms, Spoils, ValidJSON;
    var pieces := StarPieces(|data|, cover);
    DocumentReads(root, data);
    CoverFits(root, data, cover);
    StarsMask(data, cover);
    StarsSpoil(|data|, cover);
    StarsFit(root, |data|, cover);
    WholeStringsAgree(root, data, cover, Changed(pieces));
    forall p | p in cover ensures 0 <= p < |data| && pieces[p].Some? {
      FirstByte(root, data);
      LeafBytesInside(root, data, p);
    }
    SplicedValid(root, data, pieces);
  }

  lemma DocumentReads(root: JsonNode, data: seq<byte>)
    requires Document(root, data)
    ensures ReadFrom(root, data)
  {
    hide ReadFrom, Blank;
  }
}
