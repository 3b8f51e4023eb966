/** The JSON parser of the request adapter: a tree whose strings and numbers remember where each byte came from. */
module JsonTree {
  import opened Bytes
  import opened Rules
  import opened JsonString
  import opened JsonGrammar

  /** Decoding a literal one character at a time from the front. */
  lemma DecodeOn(data: seq<byte>, start: nat, pos: nat, out: seq<byte>, ranges: seq<ByteRange>)
    requires start <= pos < |data| && data[pos] != QUOTE
    requires Accumulated(data, start, pos, out, ranges)
    ensures UnquoteChar(data[pos..]).None? ==> Decode(data[start..], start).None?
    ensures UnquoteChar(data[pos..]).Some? ==>
              var n, text := CharLen(data[pos..]), CharText(data[pos..]);
              && pos + n <= |data|
              && Accumulated(data, start, pos + n, out + text, ranges + CharRanges(data[pos], pos, n, |text|))
  {
    hide Decode, UnquoteChar, CharLen, CharText, CharRanges;
    var s := data[pos..];
    DecodeOnce(s, pos);
    if UnquoteChar(s).Some? {
      var n, text := CharLen(s), CharText(s);
      assert data[pos + n..] == s[n..];
      var rest := Decode(s[n..], pos + n);
      if rest.Some? {
        var first := CharRanges(data[pos], pos, n, |text|);
        assert out + (text + rest.value.out) == (out + text) + rest.value.out;
        assert ranges + (first + rest.value.ranges) == (ranges + first) + rest.value.ranges;
      }
    }
  }

  /** out and ranges are what the literal that starts at `start` has given up to pos. */
  ghost predicate Accumulated(data: seq<byte>, start: nat, pos: nat, out: seq<byte>, ranges: seq<ByteRange>)
    requires start <= pos <= |data|
  {
    Decode(data[start..], start) ==
      match Decode(data[pos..], pos)
      case None => None
      case Some(rest) => Some(Unquoted(out + rest.out, ranges + rest.ranges, pos - start + rest.len))
  }

  lemma AccumulatedStart(data: seq<byte>, start: nat)
    requires start <= |data|
    ensures Accumulated(data, start, start, [], [])
  {
    if Decode(data[start..], start).Some? {
      var d := Decode(data[start..], start).value;
      assert [] + d.out == d.out && [] + d.ranges == d.ranges;
    }
  }

  class JsonParser {
    const data: seq<byte>
    var pos: nat

    constructor (data: seq<byte>)
      ensures this.data == data && pos == 0
    {
      this.data, pos := data, 0;
    }

    method SkipWhitespace()
      requires pos <= |data|
      modifies this
      ensures old(pos) <= pos <= |data|
      ensures pos < |data| ==> !IsSpace(data[pos])
      ensures Blank(data, old(pos), pos)
    {
      while pos < |data| && IsSpace(data[pos])
        invariant old(pos) <= pos <= |data|
        invariant forall i :: old(pos) <= i < pos ==> IsSpace(data[i])
        decreases |data| - pos
      {
        pos := pos + 1;
      }
    }

    method Consume(ch: byte) returns (ok: bool)
      modifies this
      ensures ok <==> old(pos) < |data| && data[old(pos)] == ch
      ensures pos == if ok then old(pos) + 1 else old(pos)
    {
      ok := pos < |data| && data[pos] == ch;
      if ok {
        pos := pos + 1;
      }
    }

    /** Reads the literal whose opening quote is at pos. */
    method ParseString() returns (r: Option<JsonNode>)
      requires pos <= |data|
      modifies this
      ensures r.Some? <==> old(pos) < |data| && Decode(data[old(pos) + 1..], old(pos) + 1).Some?
      ensures r.Some? ==> IsLiteral(r.value, data) && r.value.rawStart == old(pos) && pos == r.value.rawEnd
      ensures r.Some? ==> old(pos) < pos <= |data| && (data[old(pos)] == QUOTE ==> ReadFrom(r.value, data))
    {
      hide *;
      var start := pos;
      pos := pos + 1;
      if pos > |data| {
        return None;
      }
      var contentStart := pos;
      var decoded, out, ranges := ParseCharacters();
      if !decoded || pos >= |data| {
        return None;
      }
      var contentEnd := pos;
      pos := pos + 1;
      r := Some(JString(start, pos, contentStart, contentEnd, out, ranges));
      LiteralNode(r.value, data);
    }

    /** The loop of ParseString: stops at the closing quote, at the end of the data or at a character it cannot read. */
    method ParseCharacters() returns (decoded: bool, out: seq<byte>, ranges: seq<ByteRange>)
      requires pos <= |data|
      modifies this
      ensures decoded ==> old(pos) <= pos <= |data|
      ensures decoded && pos < |data| ==>
                data[pos] == QUOTE && Decode(data[old(pos)..], old(pos)) == Some(Unquoted(out, ranges, pos - old(pos)))
      ensures !decoded || pos == |data| ==> Decode(data[old(pos)..], old(pos)).None?
    {
      hide *;
      ghost var start := pos;
      out, ranges := [], [];
      AccumulatedStart(data, start);
      while pos < |data| && data[pos] != QUOTE
        invariant start <= pos <= |data|
        invariant Accumulated(data, start, pos, out, ranges)
        decreases |data| - pos
      {
        DecodeOn(data, start, pos, out, ranges);
        var rest := data[pos..];
        if UnquoteChar(rest).None? {
          return false, out, ranges;
        }
        ranges := ranges + CharRanges(data[pos], pos, CharLen(rest), |CharText(rest)|);
        out := out + CharText(rest);
        pos := pos + CharLen(rest);
      }
      Closed(data, start, pos, out, ranges);
      decoded := true;
    }

    method ParseLiteral(literal: seq<byte>, node: JsonNode) returns (r: Option<JsonNode>)
      requires pos <= |data| && literal != []
      requires node.rawStart == pos && node.rawEnd == pos + |literal|
      requires if node.JBool? then literal == TRUE || literal == FALSE else node.JNull? && literal == NULL
      modifies this
      ensures r.Some? <==> literal <= data[old(pos)..]
      ensures r.Some? ==> r.value == node && ReadFrom(node, data) && pos == node.rawEnd <= |data|
    {
      if literal <= data[pos..] {
        assert data[pos..pos + |literal|] == data[pos..][..|literal|];
        pos := pos + |literal|;
        r := Some(node);
      } else {
        r := None;
      }
    }

    method ParseNumber() returns (r: Option<JsonNode>)
      requires pos <= |data|
      modifies this
      ensures r.Some? <==> old(pos) < |data| && !IsValueDelimiter(data[old(pos)])
      ensures r.Some? ==> IsNumeral(r.value, data) && r.value.rawStart == old(pos) && pos == r.value.rawEnd
      ensures r.Some? ==> old(pos) < pos <= |data| && (!Opens(data[old(pos)]) ==> ReadFrom(r.value, data))
    {
      var start := pos;
      while pos < |data| && !IsValueDelimiter(data[pos])
        invariant start <= pos <= |data|
        invariant forall i :: start <= i < pos ==> !IsValueDelimiter(data[i])
        decreases |data| - pos
      {
        pos := pos + 1;
      }
      if start == pos {
        return None;
      }
      var ranges: seq<ByteRange> := [];
      for i := start to pos
        invariant ranges == SelfRanges(start, i - start)
      {
        ranges := ranges + [ByteRange(i, i + 1)];
      }
      r := Some(JNumber(start, pos, data[start..pos], ranges));
    }

    /** Reads a key, a colon and a value. */
    method ParseMember() returns (r: Option<Member>)
      requires pos <= |data|
      modifies this
      ensures r.Some? ==> Entry(data, old(pos), r.value) && ReadFrom(r.value.value, data)
                          && old(pos) < pos == r.value.value.rawEnd <= |data|
      ensures r.None? ==> forall m :: !MemberAt(data, old(pos), m)
      decreases |data| - pos, 2
    {
      hide *;
      ghost var from := pos;
      SkipWhitespace();
      ghost var q := pos;
      var key := ParseString();
      if key.None? {
        NoKey(data, from, q);
        return None;
      }
      ghost var keyEnd := pos;
      LiteralKey(data, q, key.value);
      SkipWhitespace();
      ghost var c := pos;
      var colon := Consume(58);
      if !colon {
        NoColon(data, from, q, keyEnd, c);
        return None;
      }
      var value := ParseValue();
      if value.None? {
        NoMemberValue(data, from, q, keyEnd, c);
        return None;
      }
      r := Some(Member(key.value.text, value.value));
      MemberRead(data, from, q, keyEnd, c, r.value);
    }

    method ParseObject() returns (r: Option<JsonNode>)
      requires pos < |data| && data[pos] == 123
      modifies this
      ensures r.Some? ==> ReadFrom(r.value, data) && r.value.rawStart == old(pos) && pos == r.value.rawEnd
      ensures r.None? ==> NoObjectAt(data, old(pos))
      decreases |data| - pos, 0
    {
      hide *;
      var start := pos;
      pos := pos + 1;
      SkipWhitespace();
      ghost var end := pos;
      var closed := Consume(125);
      NoEntries(data, start + 1);
      if closed {
        ObjectRead(data, start, end, []);
        return Some(JObject(start, pos, []));
      }
      ObjectOpen(data, start, end);
      var members: seq<Member> := [];
      while true
        invariant start < pos <= |data|
        invariant EntriesFrom(data, start + 1, members) && AfterComma(data, LastMemberEnd(start + 1, members), members == [], pos)
        invariant forall i :: 0 <= i < |members| ==> ReadFrom(members[i].value, data)
        invariant members == [] ==> !NextIs(data, start + 1, 125)
        invariant MoreMembers(data, start, members)
        decreases |data| - pos
      {
        ghost var before := pos;
        var member := ParseMember();
        if member.None? {
          ObjectNoMember(data, start, members, before);
          return None;
        }
        EntryRead(data, start + 1, members, before, member.value);
        ObjectNext(data, start, members, before, member.value);
        members := members + [member.value];
        ghost var last := pos;
        SkipWhitespace();
        end := pos;
        closed := Consume(125);
        if closed {
          ObjectRead(data, start, end, members);
          return Some(JObject(start, pos, members));
        }
        var comma := Consume(44);
        if !comma {
          ObjectStuck(data, start, members, end);
          return None;
        }
        CommaRead(data, last, end);
        ObjectAnother(data, start, members, end);
      }
    }

    method ParseArray() returns (r: Option<JsonNode>)
      requires pos < |data| && data[pos] == 91
      modifies this
      ensures r.Some? ==> ReadFrom(r.value, data) && r.value.rawStart == old(pos) && pos == r.value.rawEnd
      ensures r.None? ==> NoArrayAt(data, old(pos))
      decreases |data| - pos, 0
    {
      hide *;
      var start := pos;
      pos := pos + 1;
      SkipWhitespace();
      ghost var end := pos;
      var closed := Consume(93);
      NoValues(data, start + 1);
      if closed {
        ArrayRead(data, start, end, []);
        return Some(JArray(start, pos, []));
      }
      ArrayOpen(data, start, end);
      var values: seq<JsonNode> := [];
      while true
        invariant start < pos <= |data|
        invariant ValuesFrom(data, start + 1, values) && AfterComma(data, LastEnd(start + 1, values), values == [], pos)
        invariant forall i :: 0 <= i < |values| ==> ReadFrom(values[i], data)
        invariant MoreValues(data, start, values)
        decreases |data| - pos
      {
        ghost var before := pos;
        var value := ParseValue();
        if value.None? {
          ArrayNoValue(data, start, values, before);
          return None;
        }
        ValueRead(data, start + 1, values, before, value.value);
        ArrayNext(data, start, values, before, value.value);
        values := values + [value.value];
        ghost var last := pos;
        SkipWhitespace();
        end := pos;
        closed := Consume(93);
        if closed {
          ArrayRead(data, start, end, values);
          return Some(JArray(start, pos, values));
        }
        var comma := Consume(44);
        if !comma {
          ArrayStuck(data, start, values, end);
          return None;
        }
        CommaRead(data, last, end);
        ArrayAnother(data, start, values, end);
      }
    }

    /** Reads a value: the one tree that spells the bytes it was read from, and nothing only if there is none. */
    method ParseValue() returns (r: Option<JsonNode>)
      requires pos <= |data|
      modifies this
      ensures r.Some? ==> ReadFrom(r.value, data) && Blank(data, old(pos), r.value.rawStart)
                          && old(pos) < pos == r.value.rawEnd <= |data|
      ensures r.None? ==> NoValueAt(data, old(pos))
      decreases |data| - pos, 1
    {
      assert |TRUE| == |NULL| == 4 && |FALSE| == 5;
      hide *;
      ghost var from := pos;
      SkipWhitespace();
      if pos >= |data| {
        NothingLeft(data, from);
        return None;
      }
      ghost var start := pos;
      var b := data[pos];
      Dispatch(b);
      if b == 123 {
        r := ParseObject();
      } else if b == 91 {
        r := ParseArray();
      } else if b == QUOTE {
        r := ParseString();
      } else if b == 116 {
        r := ParseLiteral(TRUE, JBool(pos, pos + 4));
      } else if b == 102 {
        r := ParseLiteral(FALSE, JBool(pos, pos + 5));
      } else if b == 110 {
        r := ParseLiteral(NULL, JNull(pos, pos + 4));
      } else {
        r := ParseNumber();
      }
      if r.Some? {
        ReadNonEmpty(r.value, data);
      } else {
        NoValue(data, from, start);
      }
    }
  }

  lemma ReadNonEmpty(node: JsonNode, data: seq<byte>)
    requires ReadFrom(node, data)
    ensures 0 <= node.rawStart < node.rawEnd <= |data|
  {
  }

  // ----- How the pieces fit together

  lemma LiteralKey(data: seq<byte>, q: nat, key: JsonNode)
    requires IsLiteral(key, data) && key.rawStart == q
    ensures key.JString? && Decode(data[q + 1..], q + 1).Some?
    ensures Decode(data[q + 1..], q + 1).value.out == key.text && key.rawEnd == q + 2 + Decode(data[q + 1..], q + 1).value.len
  {
  }

  lemma MemberRead(data: seq<byte>, from: nat, q: nat, keyEnd: nat, c: nat, m: Member)
    requires Blank(data, from, q) && q < |data| && !IsSpace(data[q])
    requires Decode(data[q + 1..], q + 1).Some?
    requires Decode(data[q + 1..], q + 1).value.out == m.key && keyEnd == q + 2 + Decode(data[q + 1..], q + 1).value.len
    requires Blank(data, keyEnd, c) && c < |data| && data[c] == 58 && Blank(data, c + 1, m.value.rawStart)
    ensures Entry(data, from, m)
  {
    hide Decode, Blank;
    assert KeyAt(data, q, m);
  }

  /** Where the next element may begin: right after the opening bracket or right after a comma. */
  ghost predicate AfterComma(data: seq<byte>, last: int, first: bool, pos: int) {
    if first then Blank(data, last, pos)
    else 0 < pos <= |data| && data[pos - 1] == 44 && Blank(data, last, pos - 1)
  }

  lemma CommaRead(data: seq<byte>, last: int, comma: int)
    requires Blank(data, last, comma) && comma < |data| && data[comma] == 44
    ensures AfterComma(data, last, false, comma + 1)
  {
  }

  lemma NoEntries(data: seq<byte>, from: int)
    ensures EntriesFrom(data, from, []) && LastMemberEnd(from, []) == from
    ensures forall pos :: Blank(data, from, pos) ==> AfterComma(data, from, true, pos)
  {
  }

  lemma NoValues(data: seq<byte>, from: int)
    ensures ValuesFrom(data, from, []) && LastEnd(from, []) == from
    ensures forall pos :: Blank(data, from, pos) ==> AfterComma(data, from, true, pos)
  {
  }

  lemma EntryRead(data: seq<byte>, from: int, members: seq<Member>, pos: int, m: Member)
    requires EntriesFrom(data, from, members) && AfterComma(data, LastMemberEnd(from, members), members == [], pos)
    requires Entry(data, pos, m) && (members == [] ==> !NextIs(data, from, 125))
    ensures EntriesFrom(data, from, members + [m]) && LastMemberEnd(from, members + [m]) == m.value.rawEnd
  {
    hide KeyAt, NextIs;
    var all := members + [m];
    if members == [] {
      var q :| Blank(data, pos, q) && KeyAt(data, q, m);
      assert Blank(data, from, q);
    } else {
      assert NextEntry(data, LastMemberEnd(from, members), m);
    }
    forall i | 0 < i < |all| ensures NextEntry(data, all[i - 1].value.rawEnd, all[i]) {
      if i < |members| { assert all[i] == members[i] && all[i - 1] == members[i - 1]; }
    }
  }

  lemma ValueRead(data: seq<byte>, from: int, values: seq<JsonNode>, pos: int, v: JsonNode)
    requires ValuesFrom(data, from, values) && AfterComma(data, LastEnd(from, values), values == [], pos)
    requires Blank(data, pos, v.rawStart)
    ensures ValuesFrom(data, from, values + [v]) && LastEnd(from, values + [v]) == v.rawEnd
  {
  }

  // ----- Why nothing was read

  ghost predicate NoValueAt(data: seq<byte>, from: int) {
    forall t :: ReadFrom(t, data) ==> !Blank(data, from, t.rawStart)
  }

  ghost predicate NoArrayAt(data: seq<byte>, start: int) {
    forall t :: ReadFrom(t, data) ==> !(t.JArray? && t.rawStart == start)
  }

  ghost predicate NoObjectAt(data: seq<byte>, start: int) {
    forall t :: ReadFrom(t, data) ==> !(t.JObject? && t.rawStart == start)
  }

  lemma NothingLeft(data: seq<byte>, from: int)
    requires Blank(data, from, |data|)
    ensures NoValueAt(data, from)
  {
    hide ReadFrom;
    forall t | ReadFrom(t, data) ensures !Blank(data, from, t.rawStart) {
      FirstByte(t, data);
      if Blank(data, from, t.rawStart) {
        BlankWithin(data, from, |data|, t.rawStart);
      }
    }
  }

  lemma Dispatch(b: byte)
    ensures Opens(b) <==> KindOf(b) < 5
    ensures (b == 123 <==> KindOf(b) == 0) && (b == 91 <==> KindOf(b) == 1) && (b == QUOTE <==> KindOf(b) == 2)
    ensures (b == 116 || b == 102 <==> KindOf(b) == 3) && (b == 110 <==> KindOf(b) == 4)
  {
  }

  /** What ParseValue has found out when the reader for the first byte gives up. */
  ghost predicate GivenUp(data: seq<byte>, start: int)
    requires 0 <= start < |data|
  {
    match KindOf(data[start])
    case 0 => NoObjectAt(data, start)
    case 1 => NoArrayAt(data, start)
    case 2 => Decode(data[start + 1..], start + 1).None?
    case 3 => !((if data[start] == 116 then TRUE else FALSE) <= data[start..])
    case 4 => !(NULL <= data[start..])
    case _ => IsValueDelimiter(data[start])
  }

  lemma NoValue(data: seq<byte>, from: int, start: int)
    requires Blank(data, from, start) && start < |data| && !IsSpace(data[start])
    requires GivenUp(data, start)
    ensures NoValueAt(data, from)
  {
    hide ReadFrom, GivenUp, KindOf, IsSpace, IsValueDelimiter;
    forall t | ReadFrom(t, data) ensures !Blank(data, from, t.rawStart) {
      FirstByte(t, data);
      if Blank(data, from, t.rawStart) {
        BlankWithin(data, from, start, t.rawStart);
        KindAt(t, data);
        Contradicted(t, data);
      }
    }
  }

  lemma Contradicted(t: JsonNode, data: seq<byte>)
    requires ReadFrom(t, data) && Kind(t) == KindOf(data[t.rawStart])
    ensures !GivenUp(data, t.rawStart)
  {
  }

  lemma Spelled(data: seq<byte>, from: int, to: int)
    requires 0 <= from <= to <= |data|
    ensures data[from..to] <= data[from..]
  {
    assert data[from..to] == data[from..][..to - from];
  }

  /** Every array that begins at `start` begins with the values read so far and has another one. */
  ghost predicate MoreValues(data: seq<byte>, start: int, values: seq<JsonNode>) {
    forall t :: ReadFrom(t, data) && t.JArray? && t.rawStart == start ==> values <= t.values && |values| < |t.values|
  }

  ghost predicate FirstValues(data: seq<byte>, start: int, values: seq<JsonNode>) {
    forall t :: ReadFrom(t, data) && t.JArray? && t.rawStart == start ==> values <= t.values
  }

  lemma ArrayOpen(data: seq<byte>, start: nat, q: int)
    requires Blank(data, start + 1, q) && (q < |data| ==> !IsSpace(data[q]) && data[q] != 93)
    ensures MoreValues(data, start, [])
  {
  }

  /** The next value of every such array begins where the parser looks for it. */
  lemma NextValueAt(data: seq<byte>, start: int, values: seq<JsonNode>, pos: int, t: JsonNode)
    requires ReadFrom(t, data) && t.JArray? && t.rawStart == start && values <= t.values && |values| < |t.values|
    requires AfterComma(data, LastEnd(start + 1, values), values == [], pos)
    ensures ReadFrom(t.values[|values|], data) && Blank(data, pos, t.values[|values|].rawStart)
  {
    hide ReadFrom, Blank, Separated;
    var n := |values|;
    ValuesStart(t, data, n);
    FirstByte(t.values[n], data);
    if n == 0 {
      BlankWithin(data, start + 1, pos, t.values[0].rawStart);
    } else {
      assert values[n - 1] == t.values[n - 1];
      SeparatorAt(data, values[n - 1].rawEnd, 44, t.values[n].rawStart, pos - 1);
    }
  }

  lemma ArrayNoValue(data: seq<byte>, start: int, values: seq<JsonNode>, pos: int)
    requires MoreValues(data, start, values) && AfterComma(data, LastEnd(start + 1, values), values == [], pos)
    requires NoValueAt(data, pos)
    ensures NoArrayAt(data, start)
  {
    hide ReadFrom, AfterComma, Blank;
    forall t | ReadFrom(t, data) ensures !(t.JArray? && t.rawStart == start) {
      if t.JArray? && t.rawStart == start {
        NextValueAt(data, start, values, pos, t);
      }
    }
  }

  lemma ArrayNext(data: seq<byte>, start: int, values: seq<JsonNode>, pos: int, v: JsonNode)
    requires MoreValues(data, start, values) && AfterComma(data, LastEnd(start + 1, values), values == [], pos)
    requires ReadFrom(v, data) && Blank(data, pos, v.rawStart)
    ensures FirstValues(data, start, values + [v])
  {
    hide ReadFrom, AfterComma, Blank;
    forall t | ReadFrom(t, data) && t.JArray? && t.rawStart == start ensures values + [v] <= t.values {
      NextValueAt(data, start, values, pos, t);
      SameStart(data, pos, v, t.values[|values|]);
      Unambiguous(v, t.values[|values|], data);
    }
  }

  /** What follows the values read: the end of the array, or a comma. */
  lemma BehindValues(data: seq<byte>, start: int, values: seq<JsonNode>, c: int, t: JsonNode)
    requires ReadFrom(t, data) && t.JArray? && t.rawStart == start && values <= t.values && values != []
    requires Blank(data, LastEnd(start + 1, values), c) && (c < |data| ==> !IsSpace(data[c]))
    ensures c < |data| && if |values| < |t.values| then data[c] == 44 else data[c] == 93
  {
    hide ReadFrom, Separated;
    var n := |values|;
    if n < |t.values| {
      ValuesStart(t, data, n);
      assert values[n - 1] == t.values[n - 1];
      var q := CommaBetween(data, values[n - 1].rawEnd, t.values[n].rawStart);
      BlankWithin(data, values[n - 1].rawEnd, c, q);
    } else {
      assert values == t.values;
      ArrayEnd(t, data);
      BlankWithin(data, LastEnd(start + 1, values), c, t.rawEnd - 1);
    }
  }

  lemma CommaBetween(data: seq<byte>, from: int, to: int) returns (q: int)
    requires Separated(data, from, 44, to)
    ensures Blank(data, from, q) && q < |data| && data[q] == 44
  {
    q :| Blank(data, from, q) && q < |data| && data[q] == 44 && Blank(data, q + 1, to);
  }

  lemma ArrayStuck(data: seq<byte>, start: int, values: seq<JsonNode>, c: int)
    requires FirstValues(data, start, values) && values != []
    requires Blank(data, LastEnd(start + 1, values), c) && (c < |data| ==> !IsSpace(data[c]) && data[c] != 93 && data[c] != 44)
    ensures NoArrayAt(data, start)
  {
    hide ReadFrom, Blank;
    forall t | ReadFrom(t, data) ensures !(t.JArray? && t.rawStart == start) {
      if t.JArray? && t.rawStart == start {
        BehindValues(data, start, values, c, t);
      }
    }
  }

  lemma ArrayAnother(data: seq<byte>, start: int, values: seq<JsonNode>, c: int)
    requires FirstValues(data, start, values) && values != []
    requires Blank(data, LastEnd(start + 1, values), c) && c < |data| && data[c] == 44
    ensures MoreValues(data, start, values)
  {
    hide ReadFrom, Blank;
    forall t | ReadFrom(t, data) && t.JArray? && t.rawStart == start ensures |values| < |t.values| {
      BehindValues(data, start, values, c, t);
    }
  }

  /** Every object that begins at `start` begins with the members read so far and has another one. */
  ghost predicate MoreMembers(data: seq<byte>, start: int, members: seq<Member>) {
    forall t :: ReadFrom(t, data) && t.JObject? && t.rawStart == start ==> members <= t.members && |members| < |t.members|
  }

  ghost predicate FirstMembers(data: seq<byte>, start: int, members: seq<Member>) {
    forall t :: ReadFrom(t, data) && t.JObject? && t.rawStart == start ==> members <= t.members
  }

  lemma ObjectOpen(data: seq<byte>, start: nat, q: int)
    requires Blank(data, start + 1, q) && (q < |data| ==> !IsSpace(data[q]) && data[q] != 125)
    ensures MoreMembers(data, start, []) && !NextIs(data, start + 1, 125)
  {
  }

  lemma NextMemberAt(data: seq<byte>, start: int, members: seq<Member>, pos: int, t: JsonNode)
    requires ReadFrom(t, data) && t.JObject? && t.rawStart == start && members <= t.members && |members| < |t.members|
    requires AfterComma(data, LastMemberEnd(start + 1, members), members == [], pos)
    ensures MemberAt(data, pos, t.members[|members|])
  {
    hide ReadFrom, Blank, Entry, NextEntry;
    var n := |members|;
    MembersStart(t, data, n);
    if n == 0 {
      EntryLater(data, start + 1, pos, t.members[0]);
    } else {
      assert members[n - 1] == t.members[n - 1];
      NextMember(data, members[n - 1].value.rawEnd, t.members[n], pos - 1);
    }
  }

  lemma EntryLater(data: seq<byte>, from: int, pos: int, m: Member)
    requires Entry(data, from, m) && Blank(data, from, pos)
    ensures Entry(data, pos, m)
  {
  }

  lemma ObjectNoMember(data: seq<byte>, start: int, members: seq<Member>, pos: int)
    requires MoreMembers(data, start, members) && AfterComma(data, LastMemberEnd(start + 1, members), members == [], pos)
    requires forall m :: !MemberAt(data, pos, m)
    ensures NoObjectAt(data, start)
  {
    hide ReadFrom, AfterComma, MemberAt;
    forall t | ReadFrom(t, data) ensures !(t.JObject? && t.rawStart == start) {
      if t.JObject? && t.rawStart == start {
        NextMemberAt(data, start, members, pos, t);
      }
    }
  }

  lemma ObjectNext(data: seq<byte>, start: int, members: seq<Member>, pos: int, m: Member)
    requires MoreMembers(data, start, members) && AfterComma(data, LastMemberEnd(start + 1, members), members == [], pos)
    requires Entry(data, pos, m) && ReadFrom(m.value, data)
    ensures FirstMembers(data, start, members + [m])
  {
    hide ReadFrom, AfterComma, Entry;
    forall t | ReadFrom(t, data) && t.JObject? && t.rawStart == start ensures members + [m] <= t.members {
      NextMemberAt(data, start, members, pos, t);
      var k := t.members[|members|];
      SameMember(data, pos, m, k);
      Unambiguous(m.value, k.value, data);
    }
  }

  lemma BehindMembers(data: seq<byte>, start: int, members: seq<Member>, c: int, t: JsonNode)
    requires ReadFrom(t, data) && t.JObject? && t.rawStart == start && members <= t.members && members != []
    requires Blank(data, LastMemberEnd(start + 1, members), c) && (c < |data| ==> !IsSpace(data[c]))
    ensures c < |data| && if |members| < |t.members| then data[c] == 44 else data[c] == 125
  {
    hide ReadFrom, Entry, NextEntry;
    var n := |members|;
    if n < |t.members| {
      MembersStart(t, data, n);
      assert members[n - 1] == t.members[n - 1];
      var q := CommaBefore(data, members[n - 1].value.rawEnd, t.members[n]);
      BlankWithin(data, members[n - 1].value.rawEnd, c, q);
    } else {
      assert members == t.members;
      ObjectEnd(t, data);
      BlankWithin(data, LastMemberEnd(start + 1, members), c, t.rawEnd - 1);
    }
  }

  lemma CommaBefore(data: seq<byte>, from: int, m: Member) returns (q: int)
    requires NextEntry(data, from, m)
    ensures Blank(data, from, q) && q < |data| && data[q] == 44
  {
    hide Entry;
    q :| Blank(data, from, q) && q < |data| && data[q] == 44 && Entry(data, q + 1, m);
  }

  lemma ObjectStuck(data: seq<byte>, start: int, members: seq<Member>, c: int)
    requires FirstMembers(data, start, members) && members != []
    requires Blank(data, LastMemberEnd(start + 1, members), c)
    requires c < |data| ==> !IsSpace(data[c]) && data[c] != 125 && data[c] != 44
    ensures NoObjectAt(data, start)
  {
    hide ReadFrom, Blank;
    forall t | ReadFrom(t, data) ensures !(t.JObject? && t.rawStart == start) {
      if t.JObject? && t.rawStart == start {
        BehindMembers(data, start, members, c, t);
      }
    }
  }

  lemma ObjectAnother(data: seq<byte>, start: int, members: seq<Member>, c: int)
    requires FirstMembers(data, start, members) && members != []
    requires Blank(data, LastMemberEnd(start + 1, members), c) && c < |data| && data[c] == 44
    ensures MoreMembers(data, start, members)
  {
    hide ReadFrom, Blank;
    forall t | ReadFrom(t, data) && t.JObject? && t.rawStart == start ensures |members| < |t.members| {
      BehindMembers(data, start, members, c, t);
    }
  }

  lemma NoKey(data: seq<byte>, from: int, q: int)
    requires Blank(data, from, q) && (q < |data| ==> !IsSpace(data[q]) && Decode(data[q + 1..], q + 1).None?)
    ensures forall m :: !MemberAt(data, from, m)
  {
    forall m ensures !MemberAt(data, from, m) {
      if MemberAt(data, from, m) {
        KeyFound(data, from, m, q);
      }
    }
  }

  /** The key of a member begins at the first byte that is not white space. */
  lemma KeyFound(data: seq<byte>, from: int, m: Member, q: int)
    requires MemberAt(data, from, m) && Blank(data, from, q) && (q < |data| ==> !IsSpace(data[q]))
    ensures KeyAt(data, q, m) && ReadFrom(m.value, data)
  {
    hide KeyAt, ReadFrom;
    var p :| Blank(data, from, p) && KeyAt(data, p, m);
    KeyInside(data, p, m);
    BlankWithin(data, from, q, p);
  }

  lemma NoColon(data: seq<byte>, from: int, q: int, keyEnd: int, c: int)
    requires Blank(data, from, q) && q < |data| && !IsSpace(data[q]) && Decode(data[q + 1..], q + 1).Some?
    requires keyEnd == q + 2 + Decode(data[q + 1..], q + 1).value.len
    requires Blank(data, keyEnd, c) && (c < |data| ==> !IsSpace(data[c]) && data[c] != 58)
    ensures forall m :: !MemberAt(data, from, m)
  {
    hide Decode, ReadFrom;
    forall m ensures !MemberAt(data, from, m) {
      if MemberAt(data, from, m) {
        KeyFound(data, from, m, q);
        var p :| Blank(data, keyEnd, p) && p < |data| && data[p] == 58 && Blank(data, p + 1, m.value.rawStart);
        BlankWithin(data, keyEnd, c, p);
      }
    }
  }

  lemma NoMemberValue(data: seq<byte>, from: int, q: int, keyEnd: int, c: int)
    requires Blank(data, from, q) && q < |data| && !IsSpace(data[q]) && Decode(data[q + 1..], q + 1).Some?
    requires keyEnd == q + 2 + Decode(data[q + 1..], q + 1).value.len
    requires Blank(data, keyEnd, c) && c < |data| && data[c] == 58 && NoValueAt(data, c + 1)
    ensures forall m :: !MemberAt(data, from, m)
  {
  }

  /** Parses a whole document: finds the one tree that spells the data, if there is one. `valid` is the library's own check. */
  method ParseJSON(data: seq<byte>, valid: seq<byte> -> bool) returns (r: Option<JsonNode>)
    ensures r.Some? <==> valid(data) && exists t :: Document(t, data)
    ensures r.Some? ==> forall t :: Document(t, data) <==> t == r.value
  {
    hide ReadFrom, Blank;
    if !valid(data) {
      return None;
    }
    var p := new JsonParser(data);
    r := p.ParseValue();
    if r.Some? {
      ghost var t := r.value;
      p.SkipWhitespace();
      if p.pos != |data| {
        NotWhole(data, t, p.pos);
        r := None;
      } else {
        assert Document(t, data);
        OnlyDocument(data, t);
      }
    } else {
      NoDocument(data);
    }
  }

  lemma NotWhole(data: seq<byte>, t: JsonNode, pos: int)
    requires ReadFrom(t, data) && Blank(data, 0, t.rawStart)
    requires t.rawEnd <= pos < |data| && !IsSpace(data[pos])
    ensures forall s :: !Document(s, data)
  {
    OnlyDocument(data, t);
    hide ReadFrom;
    assert !Document(t, data);
  }

  lemma NoDocument(data: seq<byte>)
    requires NoValueAt(data, 0)
    ensures forall s :: !Document(s, data)
  {
    hide ReadFrom, Blank;
  }

  lemma LiteralNode(node: JsonNode, data: seq<byte>)
    requires node.JString? && 0 <= node.rawStart && node.rawContentStart == node.rawStart + 1 <= node.rawContentEnd < |data|
    requires node.rawEnd == node.rawContentEnd + 1
    requires Decode(data[node.rawContentStart..], node.rawContentStart)
             == Some(Unquoted(node.text, node.ranges, node.rawContentEnd - node.rawContentStart))
    ensures IsLiteral(node, data) && (data[node.rawStart] == QUOTE ==> ReadFrom(node, data))
  {
  }

  lemma Closed(data: seq<byte>, start: nat, pos: nat, out: seq<byte>, ranges: seq<ByteRange>)
    requires start <= pos <= |data| && Accumulated(data, start, pos, out, ranges)
    requires pos < |data| ==> data[pos] == QUOTE
    ensures pos == |data| ==> Decode(data[start..], start).None?
    ensures pos < |data| ==> Decode(data[start..], start) == Some(Unquoted(out, ranges, pos - start))
  {
    assert out + [] == out && ranges + [] == ranges;
  }
}
