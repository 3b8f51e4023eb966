/** Requests of the form {"input":{...}}, and what masking a number in one of them does. */
module JsonExample {
  import opened Bytes
  import opened Rules
  import opened SpanMask
  import opened Utf8
  import opened JsonString
  import opened JsonGrammar
  import opened LiteralSplice
  import opened RawMapping
  import opened DocumentMask
  import opened JsonSyntax
  import opened SyntaxSplice

  // ----- A small document

  predicate IsLower(b: byte) { 97 <= b <= 122 }

  /** A literal of small letters. */
  lemma {:induction false} PlainKey(s: seq<byte>, base: int, key: seq<byte>)
    requires |key| < |s| && s[..|key|] == key && s[|key|] == QUOTE && forall i :: 0 <= i < |key| ==> IsLower(key[i])
    ensures Decode(s, base).Some? && Decode(s, base).value.out == key && Decode(s, base).value.len == |key|
    ensures ConformingText(s)
    decreases |key|
  {
    hide Decode, ConformingText;
    TextOnce(s);
    if key == [] {
      DecodeNothing(s, base);
    } else {
      assert s[0] == s[..|key|][0] == key[0];
      assert s[1..][..|key| - 1] == s[..|key|][1..] == key[1..];
      PlainKey(s[1..], base + 1, key[1..]);
      DecodeOnce(s, base);
      assert UnquoteChar(s) == Some((s[0] as int, 1)) && EncodeRune(s[0] as int) == [s[0]];
    }
  }

  /** An object with one member and no white space. */
  lemma OneMember(data: seq<byte>, start: nat, key: seq<byte>, value: JsonNode)
    requires start + 4 + |key| == value.rawStart && ReadFrom(value, data) && Conforms(value, data) && value.rawEnd < |data|
    requires data[start] == 123 && data[start + 1] == QUOTE && data[start + 2..start + 2 + |key|] == key
    requires data[start + 2 + |key|] == QUOTE && data[start + 3 + |key|] == 58 && data[value.rawEnd] == 125
    requires forall i :: 0 <= i < |key| ==> IsLower(key[i])
    ensures var node := JObject(start, value.rawEnd + 1, [Member(key, value)]); ReadFrom(node, data) && Conforms(node, data)
  {
    hide *;
    var m := Member(key, value);
    FirstByte(value, data);
    MemberKey(data, start, key, value);
    OneEntry(data, start, m);
    ObjectRead(data, start, value.rawEnd, [m]);
    OneConforms(JObject(start, value.rawEnd + 1, [m]), data);
  }

  lemma OneEntry(data: seq<byte>, start: nat, m: Member)
    requires start + 1 < |data| && data[start + 1] == QUOTE && KeyAt(data, start + 1, m) && ConformingText(data[start + 2..])
    requires 0 <= m.value.rawEnd <= |data|
    ensures EntriesFrom(data, start + 1, [m]) && ConformingEntry(data, start + 1, m)
    ensures Blank(data, LastMemberEnd(start + 1, [m]), m.value.rawEnd)
  {
    hide KeyAt, ConformingText;
    assert Blank(data, start + 1, start + 1) && Entry(data, start + 1, m);
    forall q ensures !(Blank(data, start + 1, q) && q < |data| && data[q] == 125) {
      assert Blank(data, start + 1, q) && q > start + 1 ==> IsSpace(data[start + 1]);
    }
  }

  lemma OneConforms(node: JsonNode, data: seq<byte>)
    requires node.JObject? && |node.members| == 1 && ConformingEntry(data, node.rawStart + 1, node.members[0])
    requires Conforms(node.members[0].value, data)
    ensures Conforms(node, data)
  {
    hide ConformingEntry;
  }

  lemma MemberKey(data: seq<byte>, start: nat, key: seq<byte>, value: JsonNode)
    requires start + 4 + |key| == value.rawStart < |data|
    requires data[start + 1] == QUOTE && data[start + 2..start + 2 + |key|] == key
    requires data[start + 2 + |key|] == QUOTE && data[start + 3 + |key|] == 58
    requires forall i :: 0 <= i < |key| ==> IsLower(key[i])
    ensures KeyAt(data, start + 1, Member(key, value)) && ConformingText(data[start + 2..])
  {
    hide Decode, ConformingText;
    var s := data[start + 2..];
    assert s[..|key|] == data[start + 2..start + 2 + |key|];
    PlainKey(s, start + 2, key);
    assert Blank(data, start + 3 + |key|, start + 3 + |key|) && Blank(data, start + 4 + |key|, start + 4 + |key|);
    assert Separated(data, start + 3 + |key|, 58, value.rawStart);
  }

  /** An object with one member whose value is an object with one member, v. */
  function TwoLevels(k: seq<byte>, l: seq<byte>, v: seq<byte>): seq<byte> {
    [123, 34] + k + [34, 58, 123, 34] + l + [34, 58] + v + [125, 125]
  }

  function TwoLevelTree(k: seq<byte>, l: seq<byte>, value: JsonNode): JsonNode {
    JObject(0, value.rawEnd + 2, [Member(k, JObject(4 + |k|, value.rawEnd + 1, [Member(l, value)]))])
  }

  /** What stands where. */
  lemma Layout(k: seq<byte>, l: seq<byte>, v: seq<byte>)
    ensures var data, n, at := TwoLevels(k, l, v), |k|, 8 + |k| + |l|;
            && |data| == at + |v| + 2
            && data[0] == 123 && data[1] == 34 && data[2..2 + n] == k && data[2 + n] == 34 && data[3 + n] == 58
            && data[4 + n] == 123 && data[5 + n] == 34 && data[6 + n..at - 2] == l && data[at - 2] == 34 && data[at - 1] == 58
            && data[at..at + |v|] == v && data[at + |v|] == 125 && data[at + |v| + 1] == 125
            && data[at..] == v + [125, 125]
  {
    var data, n, at := TwoLevels(k, l, v), |k|, 8 + |k| + |l|;
    var a, b, c, d := [123, 34] + k, [34, 58, 123, 34] + l, [34, 58] + v, [125 as byte, 125];
    assert data == a + b + c + d;
    forall i | 0 <= i < n ensures data[2..2 + n][i] == k[i] { assert a[2 + i] == k[i]; }
    forall i | 0 <= i < 4 ensures data[2 + n + i] == [34, 58, 123, 34][i] { assert b[i] == [34, 58, 123, 34][i]; }
    forall i | 0 <= i < |l| ensures data[6 + n..at - 2][i] == l[i] { assert b[4 + i] == l[i]; }
    forall i | 0 <= i < 2 ensures data[at - 2 + i] == [34, 58][i] { assert c[i] == [34, 58][i]; }
    forall i | 0 <= i < |v| ensures data[at..at + |v|][i] == v[i] { assert c[2 + i] == v[i]; }
    assert data[at..] == v + d;
  }

  /** A value in its place makes the whole a document that passes the syntax check. */
  lemma TwoLevelsRead(k: seq<byte>, l: seq<byte>, v: seq<byte>, value: JsonNode)
    requires (forall i :: 0 <= i < |k| ==> IsLower(k[i])) && (forall i :: 0 <= i < |l| ==> IsLower(l[i]))
    requires value.rawStart == 8 + |k| + |l| && value.rawEnd == value.rawStart + |v|
    requires ReadFrom(value, TwoLevels(k, l, v)) && Conforms(value, TwoLevels(k, l, v))
    ensures Document(TwoLevelTree(k, l, value), TwoLevels(k, l, v)) && Conforms(TwoLevelTree(k, l, value), TwoLevels(k, l, v))
  {
    var data := TwoLevels(k, l, v);
    Layout(k, l, v);
    hide TwoLevels, ReadFrom, Conforms;
    OneMember(data, 4 + |k|, l, value);
    OneMember(data, 0, k, JObject(4 + |k|, value.rawEnd + 1, [Member(l, value)]));
  }

  /** Its only leaf is that value. */
  lemma TwoLevelLeaf(k: seq<byte>, l: seq<byte>, value: JsonNode)
    requires (value.JString? || value.JNumber?) && value.text != []
    ensures value in ScalarLeaves(TwoLevelTree(k, l, value))
  {
    var root := TwoLevelTree(k, l, value);
    var mid := root.members[0].value;
    assert root.members[1..] == [] && mid.members[1..] == [];
    assert ScalarLeaves(value) == [value];
    assert MemberLeaves(mid.members) == [value] + MemberLeaves([]);
    assert value in ScalarLeaves(mid);
  }

  const INPUT: seq<byte> := [105, 110, 112, 117, 116]
  const OUTPUT: seq<byte> := [111, 117, 116, 112, 117, 116]

  /** The request {"input":{"output":7}}. */
  function Seven(): seq<byte> { TwoLevels(INPUT, OUTPUT, [55]) }

  const DIGIT: JsonNode := JNumber(19, 20, [55], [ByteRange(19, 20)])

  lemma DigitReads()
    ensures ReadFrom(DIGIT, Seven()) && Conforms(DIGIT, Seven())
  {
    Layout(INPUT, OUTPUT, [55]);
    hide TwoLevels;
    assert BehindDigits([55]) == [] by { assert [55 as byte][1..] == []; }
    assert Seven()[19] == Seven()[19..20][0] == 55;
  }

  lemma SevenReads()
    ensures Document(TwoLevelTree(INPUT, OUTPUT, DIGIT), Seven()) && Conforms(TwoLevelTree(INPUT, OUTPUT, DIGIT), Seven())
  {
    DigitReads();
    hide TwoLevels, TwoLevelTree, ReadFrom, Conforms;
    TwoLevelsRead(INPUT, OUTPUT, [55], DIGIT);
  }

  lemma DigitInNumber()
    ensures 19 in Inside(Span(19, 20)) && InNumber(TwoLevelTree(INPUT, OUTPUT, DIGIT), 19)
  {
    var root := TwoLevelTree(INPUT, OUTPUT, DIGIT);
    assert InNumber(root.members[0].value.members[0].value, 19);
    assert InNumber(root.members[0].value, 19);
  }

  lemma DigitIsLeaf()
    ensures var root, cover := TwoLevelTree(INPUT, OUTPUT, DIGIT), Inside(Span(19, 20));
            && DIGIT in ScalarLeaves(root) && RawSpan(UnitOf(DIGIT), 0, 1) == Some((19, 20))
            && FromLeaves(root, Seven(), cover)
  {
    var root, cover := TwoLevelTree(INPUT, OUTPUT, DIGIT), Inside(Span(19, 20));
    DigitReads();
    TwoLevelLeaf(INPUT, OUTPUT, DIGIT);
    hide Seven, ReadFrom, ScalarLeaves, TwoLevelTree;
    assert SpanOfLeaf(DIGIT, Seven(), 0, 1, Span(19, 20));
    forall p | p in cover ensures SpanAt(root, Seven(), cover, Span(19, 20), p) { }
  }

  /** Masking a number: the request is a document that passes the syntax check, its number is one of the texts that are
      extracted, and with the number starred out it is still taken apart as before but no longer passes. */
  lemma NumberBreaks()
    ensures var root, cover := TwoLevelTree(INPUT, OUTPUT, DIGIT), Inside(Span(19, 20));
            && Document(root, Seven()) && Conforms(root, Seven())
            && DIGIT in ScalarLeaves(root) && RawSpan(UnitOf(DIGIT), 0, 1) == Some((19, 20))
            && Document(MaskedNode(root, Seven(), cover), Masked(Seven(), cover, 0)) && !ValidJSON(Masked(Seven(), cover, 0))
  {
    hide *;
    var root, cover := TwoLevelTree(INPUT, OUTPUT, DIGIT), Inside(Span(19, 20));
    SevenReads();
    DigitIsLeaf();
    MaskedDocument(root, Seven(), cover);
    MaskedValid(root, Seven(), cover);
    DigitInNumber();
  }
}
