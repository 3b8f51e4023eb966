/** From findings in decoded text back to the bytes of the body, directly and through one level of nested JSON. */
module RawMapping {
  import opened Bytes
  import opened Rules
  import opened JsonString
  import opened JsonGrammar

  /** A decoded text to scan, with one source range for each of its bytes. */
  datatype ScanUnit = ScanUnit(text: seq<byte>, rawStart: int, rawEnd: int, rawContentStart: int, rawContentEnd: int,
                               ranges: seq<ByteRange>)

  function RawSpan(u: ScanUnit, decodedStart: int, decodedEnd: int): Option<(int, int)> {
    if decodedStart < 0 || decodedEnd < decodedStart || decodedEnd > |u.text| then None
    else if decodedStart == decodedEnd || |u.ranges| != |u.text| then None
    else Some((u.ranges[decodedStart].start, u.ranges[decodedEnd - 1].end))
  }

  /** Every byte of the text has a source range, in order, inside from..to of the body. */
  ghost predicate Sound(u: ScanUnit, from: int, to: int) {
    u.text != [] && |u.ranges| == |u.text| && WellRanged(u.ranges, from, to)
  }

  /** For a sound unit the raw span is the exact hull of the finding's source ranges: no fallback is ever needed. */
  lemma RawSpanIsHull(u: ScanUnit, from: int, to: int, start: int, end: int)
    requires Sound(u, from, to) && 0 <= start < end <= |u.text|
    ensures RawSpan(u, start, end).Some?
    ensures var span := RawSpan(u, start, end).value;
            && from <= span.0 < span.1 <= to
            && (forall i :: start <= i < end ==> span.0 <= u.ranges[i].start && u.ranges[i].end <= span.1)
            && (exists i :: start <= i < end && u.ranges[i].start == span.0)
            && (exists i :: start <= i < end && u.ranges[i].end == span.1)
  {
    assert u.ranges[start].start < u.ranges[start].end <= u.ranges[end - 1].end;
  }

  // ----- Units of a parsed body

  /** The unit of a string or number node. */
  function UnitOf(node: JsonNode): ScanUnit
    requires node.JString? || node.JNumber?
  {
    if node.JString? then
      ScanUnit(node.text, node.rawStart, node.rawEnd, node.rawContentStart, node.rawContentEnd, node.ranges)
    else ScanUnit(node.text, node.rawStart, node.rawEnd, node.rawStart, node.rawEnd, node.ranges)
  }

  /** The non-empty strings and numbers of a tree, in the order they are extracted. */
  function ScalarLeaves(node: JsonNode): (leaves: seq<JsonNode>)
    ensures forall i :: 0 <= i < |leaves| ==> (leaves[i].JString? || leaves[i].JNumber?) && leaves[i].text != []
    decreases node, 0
  {
    match node
    case JObject(_, _, members) => MemberLeaves(members)
    case JArray(_, _, values) => ValueLeaves(values)
    case JString(_, _, _, _, text, _) => if text == [] then [] else [node]
    case JNumber(_, _, text, _) => if text == [] then [] else [node]
    case JBool(_, _) => []
    case JNull(_, _) => []
  }

  function ValueLeaves(values: seq<JsonNode>): (leaves: seq<JsonNode>)
    ensures forall i :: 0 <= i < |leaves| ==> (leaves[i].JString? || leaves[i].JNumber?) && leaves[i].text != []
    decreases values, 0
  {
    if values == [] then [] else ScalarLeaves(values[0]) + ValueLeaves(values[1..])
  }

  function MemberLeaves(members: seq<Member>): (leaves: seq<JsonNode>)
    ensures forall i :: 0 <= i < |leaves| ==> (leaves[i].JString? || leaves[i].JNumber?) && leaves[i].text != []
    decreases members, 0
  {
    if members == [] then [] else ScalarLeaves(members[0].value) + MemberLeaves(members[1..])
  }

  lemma {:induction false} LeavesReadFrom(node: JsonNode, data: seq<byte>)
    requires ReadFrom(node, data)
    ensures forall i :: 0 <= i < |ScalarLeaves(node)| ==> ReadFrom(ScalarLeaves(node)[i], data)
    decreases node, 0
  {
    match node
    case JObject(_, _, members) => MemberLeavesReadFrom(members, data);
    case JArray(_, _, values) => ValueLeavesReadFrom(values, data);
    case _ =>
  }

  lemma {:induction false} ValueLeavesReadFrom(values: seq<JsonNode>, data: seq<byte>)
    requires forall i :: 0 <= i < |values| ==> ReadFrom(values[i], data)
    ensures forall i :: 0 <= i < |ValueLeaves(values)| ==> ReadFrom(ValueLeaves(values)[i], data)
    decreases values, 0
  {
    hide ReadFrom;
    if values != [] {
      LeavesReadFrom(values[0], data);
      ValueLeavesReadFrom(values[1..], data);
    }
  }

  lemma {:induction false} MemberLeavesReadFrom(members: seq<Member>, data: seq<byte>)
    requires forall i :: 0 <= i < |members| ==> ReadFrom(members[i].value, data)
    ensures forall i :: 0 <= i < |MemberLeaves(members)| ==> ReadFrom(MemberLeaves(members)[i], data)
    decreases members, 0
  {
    hide ReadFrom;
    if members != [] {
      LeavesReadFrom(members[0].value, data);
      MemberLeavesReadFrom(members[1..], data);
    }
  }

  lemma LeafSound(leaf: JsonNode, data: seq<byte>)
    requires (leaf.JString? || leaf.JNumber?) && leaf.text != [] && ReadFrom(leaf, data)
    ensures Sound(UnitOf(leaf), UnitOf(leaf).rawContentStart, UnitOf(leaf).rawContentEnd)
    ensures 0 <= UnitOf(leaf).rawContentStart < UnitOf(leaf).rawContentEnd <= |data|
  {
    hide Decode;
    if leaf.JString? {
      DecodeWellRanged(data[leaf.rawContentStart..], leaf.rawContentStart);
      NonEmptyRange(leaf.ranges, leaf.rawContentStart, leaf.rawContentEnd);
    } else {
      hide WellRanged;
      SelfWellRanged(leaf.rawStart, |leaf.text|);
    }
  }

  lemma NonEmptyRange(ranges: seq<ByteRange>, from: int, to: int)
    requires WellRanged(ranges, from, to) && ranges != []
    ensures from < to
  {
    assert from <= ranges[0].start < ranges[0].end <= to;
  }

  lemma SelfWellRanged(start: int, n: nat)
    ensures WellRanged(SelfRanges(start, n), start, start + n)
  {
  }

  // ----- Strings that hold JSON themselves

  predicate Composable(outer: seq<ByteRange>, inner: seq<ByteRange>) {
    forall i :: 0 <= i < |inner| ==> 0 <= inner[i].start < inner[i].end <= |outer|
  }

  function Compose(outer: seq<ByteRange>, inner: seq<ByteRange>): seq<ByteRange> {
    if !Composable(outer, inner) then []
    else seq(|inner|, i requires 0 <= i < |inner| => ByteRange(outer[inner[i].start].start, outer[inner[i].end - 1].end))
  }

  method ComposeByteRanges(outer: seq<ByteRange>, inner: seq<ByteRange>) returns (ranges: seq<ByteRange>)
    ensures ranges == Compose(outer, inner)
  {
    ranges := [];
    for i := 0 to |inner|
      invariant Composable(outer, inner[..i]) && ranges == Compose(outer, inner[..i])
    {
      assert inner[..i + 1] == inner[..i] + [inner[i]];
      if inner[i].start < 0 || inner[i].end <= inner[i].start || inner[i].end > |outer| {
        return [];
      }
      ranges := ranges + [ByteRange(outer[inner[i].start].start, outer[inner[i].end - 1].end)];
    }
    assert inner[..|inner|] == inner;
  }

  function ComposeByteBoundary(outer: seq<ByteRange>, offset: int): Option<int> {
    if outer == [] || offset < 0 || offset > |outer| then None
    else if offset == |outer| then Some(outer[|outer| - 1].end)
    else Some(outer[offset].start)
  }

  /** The unit of a leaf of the JSON text that a string of the body holds. */
  function ComposedUnit(inner: JsonNode, outer: JsonNode): ScanUnit
    requires (inner.JString? || inner.JNumber?) && outer.JString?
  {
    var unit := UnitOf(inner);
    var start, end := ComposeByteBoundary(outer.ranges, unit.rawStart), ComposeByteBoundary(outer.ranges, unit.rawEnd);
    var contentStart := ComposeByteBoundary(outer.ranges, unit.rawContentStart);
    var contentEnd := ComposeByteBoundary(outer.ranges, unit.rawContentEnd);
    var rawStart := if start.None? || end.None? then outer.rawStart else start.value;
    var rawEnd := if start.None? || end.None? then outer.rawEnd else end.value;
    ScanUnit(unit.text, rawStart, rawEnd,
             if contentStart.None? || contentEnd.None? then rawStart else contentStart.value,
             if contentStart.None? || contentEnd.None? then rawEnd else contentEnd.value,
             Compose(outer.ranges, unit.ranges))
  }

  /** Composing keeps one non-empty range for each byte, in order, inside the outer ranges. */
  lemma ComposeWellRanged(outer: seq<ByteRange>, inner: seq<ByteRange>, from: int, to: int, start: nat, end: nat)
    requires WellRanged(outer, from, to) && WellRanged(inner, start, end) && end <= |outer|
    ensures Composable(outer, inner) && |Compose(outer, inner)| == |inner|
    ensures WellRanged(Compose(outer, inner), from, to)
  {
    InOrder(inner, start, end);
    hide WellRanged;
    var ranges := Compose(outer, inner);
    forall i | 0 <= i < |ranges| ensures from <= ranges[i].start < ranges[i].end <= to {
      ComposeOne(outer, from, to, inner[i]);
    }
    forall i, j | 0 <= i < j < |ranges| ensures ranges[i].start <= ranges[j].start && ranges[i].end <= ranges[j].end {
      ComposeTwo(outer, from, to, inner[i], inner[j]);
    }
    hide Compose, Composable;
    InOrderIsWellRanged(ranges, from, to);
  }

  lemma InOrder(ranges: seq<ByteRange>, from: int, to: int)
    requires WellRanged(ranges, from, to)
    ensures forall i :: 0 <= i < |ranges| ==> from <= ranges[i].start < ranges[i].end <= to
    ensures forall i, j :: 0 <= i < j < |ranges| ==> ranges[i].start <= ranges[j].start && ranges[i].end <= ranges[j].end
  {
  }

  lemma InOrderIsWellRanged(ranges: seq<ByteRange>, from: int, to: int)
    requires forall i :: 0 <= i < |ranges| ==> from <= ranges[i].start < ranges[i].end <= to
    requires forall i, j :: 0 <= i < j < |ranges| ==> ranges[i].start <= ranges[j].start && ranges[i].end <= ranges[j].end
    ensures WellRanged(ranges, from, to)
  {
  }

  lemma ComposeOne(outer: seq<ByteRange>, from: int, to: int, r: ByteRange)
    requires WellRanged(outer, from, to) && 0 <= r.start < r.end <= |outer|
    ensures from <= outer[r.start].start < outer[r.end - 1].end <= to
  {
    assert outer[r.start].start < outer[r.start].end <= outer[r.end - 1].end;
  }

  lemma ComposeTwo(outer: seq<ByteRange>, from: int, to: int, r: ByteRange, q: ByteRange)
    requires WellRanged(outer, from, to) && 0 <= r.start < r.end <= |outer| && 0 <= q.start < q.end <= |outer|
    requires r.start <= q.start && r.end <= q.end
    ensures outer[r.start].start <= outer[q.start].start && outer[r.end - 1].end <= outer[q.end - 1].end
  {
  }

  /** A leaf of the JSON held by a string of the body is sound inside that string. */
  lemma ComposedSound(inner: JsonNode, outer: JsonNode, data: seq<byte>)
    requires ReadFrom(outer, data) && outer.JString?
    requires (inner.JString? || inner.JNumber?) && inner.text != [] && ReadFrom(inner, outer.text)
    ensures Sound(ComposedUnit(inner, outer), outer.rawContentStart, outer.rawContentEnd)
    ensures 0 <= outer.rawContentStart < outer.rawContentEnd <= |data|
  {
    LeafSound(inner, outer.text);
    assert outer.text != [];
    LeafSound(outer, data);
    hide WellRanged, ReadFrom, Compose;
    ComposeWellRanged(outer.ranges, UnitOf(inner).ranges, outer.rawContentStart, outer.rawContentEnd,
                      UnitOf(inner).rawContentStart, UnitOf(inner).rawContentEnd);
  }
}
