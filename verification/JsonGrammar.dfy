/** What it means that a tree spells a JSON document, and that no document has two trees. */
module JsonGrammar {
  import opened Bytes
  import opened Rules
  import opened JsonString

  datatype JsonNode =
    | JObject(rawStart: int, rawEnd: int, members: seq<Member>)
    | JArray(rawStart: int, rawEnd: int, values: seq<JsonNode>)
    | JString(rawStart: int, rawEnd: int, rawContentStart: int, rawContentEnd: int, text: seq<byte>, ranges: seq<ByteRange>)
    | JNumber(rawStart: int, rawEnd: int, text: seq<byte>, ranges: seq<ByteRange>)
    | JBool(rawStart: int, rawEnd: int)
    | JNull(rawStart: int, rawEnd: int)

  datatype Member = Member(key: seq<byte>, value: JsonNode)

  /** A string node is the decoding of the literal it was read from. */
  ghost predicate IsLiteral(node: JsonNode, data: seq<byte>) {
    && node.JString?
    && 0 <= node.rawStart && node.rawContentStart == node.rawStart + 1 <= node.rawContentEnd < |data|
    && node.rawEnd == node.rawContentEnd + 1
    && Decode(data[node.rawContentStart..], node.rawContentStart)
       == Some(Unquoted(node.text, node.ranges, node.rawContentEnd - node.rawContentStart))
  }

  function SelfRanges(start: int, n: nat): (r: seq<ByteRange>)
    ensures |r| == n
  {
    seq(n, i requires 0 <= i < n => ByteRange(start + i, start + i + 1))
  }

  /** A number node is its own source. */
  ghost predicate IsNumeral(node: JsonNode, data: seq<byte>) {
    && node.JNumber?
    && 0 <= node.rawStart < node.rawEnd <= |data|
    && node.text == data[node.rawStart..node.rawEnd]
    && node.ranges == SelfRanges(node.rawStart, |node.text|)
    && Run(data, node.rawStart, node.rawEnd)
  }

  /** The bytes up to the next delimiter. */
  predicate Run(data: seq<byte>, from: int, to: int) {
    && 0 <= from <= to <= |data| && (forall i :: from <= i < to ==> !IsValueDelimiter(data[i]))
    && (to < |data| ==> IsValueDelimiter(data[to]))
  }

  /** A byte that decides that a value is not a number. */
  predicate Opens(b: byte) { b == 123 || b == 91 || b == QUOTE || b == 116 || b == 102 || b == 110 }

  predicate IsSpace(b: byte) { b == 32 || b == 10 || b == 13 || b == 9 }

  predicate IsValueDelimiter(b: byte) { IsSpace(b) || b == 44 || b == 125 || b == 93 }

  predicate Blank(data: seq<byte>, from: int, to: int) {
    0 <= from <= to <= |data| && forall i :: from <= i < to ==> IsSpace(data[i])
  }

  /** Between `from` and `to` stands ch, with nothing but white space around it. */
  ghost predicate Separated(data: seq<byte>, from: int, ch: byte, to: int) {
    exists q :: Blank(data, from, q) && q < |data| && data[q] == ch && Blank(data, q + 1, to)
  }

  /** From q on the data spell the member's key, a colon, and its value begins. */
  ghost predicate KeyAt(data: seq<byte>, q: int, m: Member) {
    && 0 <= q < |data| && !IsSpace(data[q])
    && var key := Decode(data[q + 1..], q + 1);
       key.Some? && key.value.out == m.key && Separated(data, q + 2 + key.value.len, 58, m.value.rawStart)
  }

  ghost predicate Entry(data: seq<byte>, from: int, m: Member) {
    exists q :: Blank(data, from, q) && KeyAt(data, q, m)
  }

  ghost predicate NextEntry(data: seq<byte>, from: int, m: Member) {
    exists q :: Blank(data, from, q) && q < |data| && data[q] == 44 && Entry(data, q + 1, m)
  }

  /** Behind white space, the next byte is ch. */
  ghost predicate NextIs(data: seq<byte>, from: int, ch: byte) {
    exists q :: Blank(data, from, q) && q < |data| && data[q] == ch
  }

  ghost predicate EntriesFrom(data: seq<byte>, from: int, members: seq<Member>) {
    && (members != [] ==> Entry(data, from, members[0]) && !NextIs(data, from, 125))
    && forall i :: 0 < i < |members| ==> NextEntry(data, members[i - 1].value.rawEnd, members[i])
  }

  ghost predicate ValuesFrom(data: seq<byte>, from: int, values: seq<JsonNode>) {
    && (values != [] ==> Blank(data, from, values[0].rawStart))
    && forall i :: 0 < i < |values| ==> Separated(data, values[i - 1].rawEnd, 44, values[i].rawStart)
  }

  function LastEnd(from: int, values: seq<JsonNode>): int {
    if values == [] then from else values[|values| - 1].rawEnd
  }

  function LastMemberEnd(from: int, members: seq<Member>): int {
    if members == [] then from else members[|members| - 1].value.rawEnd
  }

  /** The tree spells the data: every byte between rawStart and rawEnd is accounted for, at every level. */
  ghost predicate ReadFrom(node: JsonNode, data: seq<byte>) {
    && 0 <= node.rawStart < node.rawEnd <= |data|
    && match node
       case JObject(start, end, members) =>
         && data[start] == 123 && data[end - 1] == 125
         && EntriesFrom(data, start + 1, members) && Blank(data, LastMemberEnd(start + 1, members), end - 1)
         && forall i :: 0 <= i < |members| ==> ReadFrom(members[i].value, data)
       case JArray(start, end, values) =>
         && data[start] == 91 && data[end - 1] == 93
         && ValuesFrom(data, start + 1, values) && Blank(data, LastEnd(start + 1, values), end - 1)
         && forall i :: 0 <= i < |values| ==> ReadFrom(values[i], data)
       case JString(start, _, _, _, _, _) => data[start] == QUOTE && IsLiteral(node, data)
       case JNumber(start, _, _, _) => !Opens(data[start]) && IsNumeral(node, data)
       case JBool(start, end) => data[start..end] == TRUE || data[start..end] == FALSE
       case JNull(start, end) => data[start..end] == NULL
  }

  const TRUE: seq<byte> := [116, 114, 117, 101]
  const FALSE: seq<byte> := [102, 97, 108, 115, 101]
  const NULL: seq<byte> := [110, 117, 108, 108]

  /** A tree spells the whole of the data, but for white space at both ends. */
  ghost predicate Document(t: JsonNode, data: seq<byte>) {
    ReadFrom(t, data) && Blank(data, 0, t.rawStart) && Blank(data, t.rawEnd, |data|)
  }

  // ----- No document has two trees

  /** White space is skipped in one way only. */
  lemma BlankWithin(data: seq<byte>, from: int, p: int, q: int)
    requires Blank(data, from, p) && Blank(data, from, q) && q < |data| && !IsSpace(data[q])
    ensures p <= q && Blank(data, p, q)
    ensures p < |data| && !IsSpace(data[p]) ==> p == q
  {
  }

  lemma SeparatorAt(data: seq<byte>, from: int, ch: byte, to: int, c: int)
    requires Separated(data, from, ch, to) && !IsSpace(ch)
    requires Blank(data, from, c) && c < |data| && !IsSpace(data[c])
    ensures data[c] == ch && Blank(data, c + 1, to)
  {
    var q :| Blank(data, from, q) && q < |data| && data[q] == ch && Blank(data, q + 1, to);
    BlankWithin(data, from, c, q);
  }

  lemma FirstByte(node: JsonNode, data: seq<byte>)
    requires ReadFrom(node, data)
    ensures 0 <= node.rawStart < node.rawEnd <= |data|
    ensures !IsValueDelimiter(data[node.rawStart]) && !IsSpace(data[node.rawStart])
  {
  }

  /** Which byte begins which kind of value. */
  function KindOf(b: byte): int {
    if b == 123 then 0 else if b == 91 then 1 else if b == QUOTE then 2 else if b == 116 || b == 102 then 3
    else if b == 110 then 4 else 5
  }

  function Kind(node: JsonNode): int {
    match node
    case JObject(_, _, _) => 0
    case JArray(_, _, _) => 1
    case JString(_, _, _, _, _, _) => 2
    case JBool(_, _) => 3
    case JNull(_, _) => 4
    case JNumber(_, _, _, _) => 5
  }

  lemma KindAt(node: JsonNode, data: seq<byte>)
    requires ReadFrom(node, data)
    ensures Kind(node) == KindOf(data[node.rawStart])
  {
  }

  /** Strings, numbers and literals have one reading. */
  lemma SameScalar(a: JsonNode, b: JsonNode, data: seq<byte>)
    requires ReadFrom(a, data) && ReadFrom(b, data) && a.rawStart == b.rawStart && Kind(a) == Kind(b) && Kind(a) >= 2
    ensures a == b
  {
    if a.JNumber? {
      SameRun(data, a.rawStart, a.rawEnd, b.rawEnd);
    } else if a.JBool? {
      assert data[a.rawStart] == data[a.rawStart..a.rawEnd][0] == data[b.rawStart..b.rawEnd][0];
    }
  }

  lemma SameRun(data: seq<byte>, from: int, p: int, q: int)
    requires Run(data, from, p) && Run(data, from, q)
    ensures p == q
  {
  }

  /** A member that begins at `from`, with a value that spells the data. */
  ghost predicate MemberAt(data: seq<byte>, from: int, m: Member) { Entry(data, from, m) && ReadFrom(m.value, data) }

  lemma KeyBegin(data: seq<byte>, from: int, m: Member, q: int)
    requires MemberAt(data, from, m) && Blank(data, from, q) && q < |data| && !IsSpace(data[q])
    ensures KeyAt(data, q, m)
  {
  }

  lemma KeyInside(data: seq<byte>, q: int, m: Member)
    requires KeyAt(data, q, m)
    ensures 0 <= q < |data| && !IsSpace(data[q])
  {
  }

  lemma SameKeyAt(data: seq<byte>, q: int, m: Member, k: Member)
    requires KeyAt(data, q, m) && KeyAt(data, q, k) && ReadFrom(m.value, data) && ReadFrom(k.value, data)
    ensures m.key == k.key && m.value.rawStart == k.value.rawStart
  {
    hide ReadFrom, Decode, Separated;
    FirstByte(m.value, data);
    FirstByte(k.value, data);
    var keyEnd := q + 2 + Decode(data[q + 1..], q + 1).value.len;
    SameSeparated(data, keyEnd, 58, m.value.rawStart, k.value.rawStart);
  }

  lemma SameMember(data: seq<byte>, from: int, m: Member, k: Member)
    requires MemberAt(data, from, m) && MemberAt(data, from, k)
    ensures m.key == k.key && m.value.rawStart == k.value.rawStart
  {
    hide ReadFrom, KeyAt;
    var q :| Blank(data, from, q) && KeyAt(data, q, m);
    KeyInside(data, q, m);
    KeyBegin(data, from, k, q);
    SameKeyAt(data, q, m, k);
  }

  /** An element that follows an element: behind a comma. */
  lemma NextMember(data: seq<byte>, from: int, m: Member, c: int)
    requires NextEntry(data, from, m) && Blank(data, from, c) && c < |data| && !IsSpace(data[c])
    ensures data[c] == 44 && Entry(data, c + 1, m)
  {
  }

  /** The first n elements of two arrays that begin at the same byte are the same. */
  lemma {:induction false} SameValues(a: JsonNode, b: JsonNode, data: seq<byte>, n: nat)
    requires ReadFrom(a, data) && ReadFrom(b, data) && a.rawStart == b.rawStart && a.JArray? && b.JArray?
    requires n <= |a.values| && n <= |b.values|
    ensures a.values[..n] == b.values[..n]
    decreases a, 0, n
  {
    hide ReadFrom, Blank, Separated, IsValueDelimiter;
    if n > 0 {
      SameValues(a, b, data, n - 1);
      var x, y := a.values[n - 1], b.values[n - 1];
      ValuesStart(a, data, n - 1);
      ValuesStart(b, data, n - 1);
      FirstByte(x, data);
      FirstByte(y, data);
      if n == 1 {
        BlankWithin(data, a.rawStart + 1, x.rawStart, y.rawStart);
      } else {
        assert a.values[n - 2] == a.values[..n - 1][n - 2] == b.values[..n - 1][n - 2] == b.values[n - 2];
        SameSeparated(data, a.values[n - 2].rawEnd, 44, x.rawStart, y.rawStart);
      }
      Unambiguous(x, y, data);
      assert a.values[..n] == a.values[..n - 1] + [x] && b.values[..n] == b.values[..n - 1] + [y];
    }
  }

  lemma ValuesStart(a: JsonNode, data: seq<byte>, i: nat)
    requires ReadFrom(a, data) && a.JArray? && i < |a.values|
    ensures ReadFrom(a.values[i], data)
    ensures if i == 0 then Blank(data, a.rawStart + 1, a.values[i].rawStart)
            else Separated(data, a.values[i - 1].rawEnd, 44, a.values[i].rawStart)
  {
    hide Separated, Blank;
  }

  lemma SameSeparated(data: seq<byte>, from: int, ch: byte, p: int, q: int)
    requires Separated(data, from, ch, p) && Separated(data, from, ch, q) && !IsSpace(ch)
    requires 0 <= p < |data| && 0 <= q < |data| && !IsSpace(data[p]) && !IsSpace(data[q])
    ensures p == q
  {
  }

  lemma ArrayEnd(a: JsonNode, data: seq<byte>)
    requires ReadFrom(a, data) && a.JArray?
    ensures Blank(data, LastEnd(a.rawStart + 1, a.values), a.rawEnd - 1)
    ensures a.rawStart + 1 < a.rawEnd <= |data| && data[a.rawStart] == 91 && data[a.rawEnd - 1] == 93
  {
    hide Separated, Blank;
  }

  /** An array cannot go on where another one ends. */
  lemma NotLonger(a: JsonNode, b: JsonNode, data: seq<byte>)
    requires ReadFrom(a, data) && ReadFrom(b, data) && a.rawStart == b.rawStart && a.JArray? && b.JArray?
    requires |a.values| < |b.values| ==> a.values == b.values[..|a.values|]
    ensures |b.values| <= |a.values|
  {
    hide ReadFrom, Blank, Separated;
    var n := |a.values|;
    if n < |b.values| {
      ArrayEnd(a, data);
      ValuesStart(b, data, n);
      FirstByte(b.values[n], data);
      if n == 0 {
        BlankWithin(data, a.rawStart + 1, a.rawEnd - 1, b.values[0].rawStart);
      } else {
        SeparatorAt(data, a.values[n - 1].rawEnd, 44, b.values[n].rawStart, a.rawEnd - 1);
      }
    }
  }

  /** The first n members of two objects that begin at the same byte are the same. */
  lemma {:induction false} SameMembers(a: JsonNode, b: JsonNode, data: seq<byte>, n: nat)
    requires ReadFrom(a, data) && ReadFrom(b, data) && a.rawStart == b.rawStart && a.JObject? && b.JObject?
    requires n <= |a.members| && n <= |b.members|
    ensures a.members[..n] == b.members[..n]
    decreases a, 0, n
  {
    hide ReadFrom, MemberAt, NextEntry, NextIs;
    if n > 0 {
      SameMembers(a, b, data, n - 1);
      var x, y := a.members[n - 1], b.members[n - 1];
      MembersStart(a, data, n - 1);
      MembersStart(b, data, n - 1);
      if n == 1 {
        SameMember(data, a.rawStart + 1, x, y);
      } else {
        assert a.members[n - 2] == a.members[..n - 1][n - 2] == b.members[..n - 1][n - 2] == b.members[n - 2];
        SameNext(data, a.members[n - 2].value.rawEnd, x, y);
      }
      Unambiguous(x.value, y.value, data);
      assert a.members[..n] == a.members[..n - 1] + [x] && b.members[..n] == b.members[..n - 1] + [y];
    }
  }

  lemma MembersStart(a: JsonNode, data: seq<byte>, i: nat)
    requires ReadFrom(a, data) && a.JObject? && i < |a.members|
    ensures ReadFrom(a.members[i].value, data)
    ensures if i == 0 then MemberAt(data, a.rawStart + 1, a.members[i]) && !NextIs(data, a.rawStart + 1, 125)
            else NextEntry(data, a.members[i - 1].value.rawEnd, a.members[i])
  {
    hide Entry, NextEntry, NextIs;
  }

  lemma SameNext(data: seq<byte>, from: int, m: Member, k: Member)
    requires NextEntry(data, from, m) && NextEntry(data, from, k) && ReadFrom(m.value, data) && ReadFrom(k.value, data)
    ensures m.key == k.key && m.value.rawStart == k.value.rawStart
  {
    hide Entry, ReadFrom;
    var c :| Blank(data, from, c) && c < |data| && data[c] == 44 && Entry(data, c + 1, m);
    NextMember(data, from, k, c);
    SameMember(data, c + 1, m, k);
  }

  lemma ObjectEnd(a: JsonNode, data: seq<byte>)
    requires ReadFrom(a, data) && a.JObject?
    ensures Blank(data, LastMemberEnd(a.rawStart + 1, a.members), a.rawEnd - 1)
    ensures a.rawStart + 1 < a.rawEnd <= |data| && data[a.rawStart] == 123 && data[a.rawEnd - 1] == 125
  {
    hide Entry, NextEntry, Blank, NextIs;
  }

  lemma NotNext(data: seq<byte>, from: int, ch: byte, q: int)
    requires !NextIs(data, from, ch) && Blank(data, from, q) && q < |data|
    ensures data[q] != ch
  {
  }

  lemma NoMoreMembers(a: JsonNode, b: JsonNode, data: seq<byte>)
    requires ReadFrom(a, data) && ReadFrom(b, data) && a.rawStart == b.rawStart && a.JObject? && b.JObject?
    requires |a.members| < |b.members| ==> a.members == b.members[..|a.members|]
    ensures |b.members| <= |a.members|
  {
    hide ReadFrom, Blank, MemberAt, NextEntry, NextIs;
    var n := |a.members|;
    if n < |b.members| {
      ObjectEnd(a, data);
      MembersStart(b, data, n);
      if n == 0 {
        NotNext(data, a.rawStart + 1, 125, a.rawEnd - 1);
      } else {
        NextMember(data, a.members[n - 1].value.rawEnd, b.members[n], a.rawEnd - 1);
      }
    }
  }

  lemma ObjectRead(data: seq<byte>, start: nat, end: nat, members: seq<Member>)
    requires start < end < |data| && data[start] == 123 && data[end] == 125
    requires members == [] || EntriesFrom(data, start + 1, members)
    requires Blank(data, LastMemberEnd(start + 1, members), end)
    requires forall i :: 0 <= i < |members| ==> ReadFrom(members[i].value, data)
    ensures ReadFrom(JObject(start, end + 1, members), data)
  {
    hide Entry, NextEntry, Blank;
  }

  lemma ArrayRead(data: seq<byte>, start: nat, end: nat, values: seq<JsonNode>)
    requires start < end < |data| && data[start] == 91 && data[end] == 93
    requires values == [] || ValuesFrom(data, start + 1, values)
    requires Blank(data, LastEnd(start + 1, values), end)
    requires forall i :: 0 <= i < |values| ==> ReadFrom(values[i], data)
    ensures ReadFrom(JArray(start, end + 1, values), data)
  {
    hide Separated, Blank;
  }

  /** Two trees that spell the same data from the same byte on are the same tree. */
  lemma {:induction false} Unambiguous(a: JsonNode, b: JsonNode, data: seq<byte>)
    requires ReadFrom(a, data) && ReadFrom(b, data) && a.rawStart == b.rawStart
    ensures a == b
    decreases a, 1, 0
  {
    hide ReadFrom, Blank;
    KindAt(a, data);
    KindAt(b, data);
    if Kind(a) >= 2 {
      SameScalar(a, b, data);
    } else if a.JArray? {
      var n := if |a.values| < |b.values| then |a.values| else |b.values|;
      SameValues(a, b, data, n);
      assert a.values[..|a.values|] == a.values && b.values[..|b.values|] == b.values;
      NotLonger(a, b, data);
      NotLonger(b, a, data);
      ArrayEnd(a, data);
      ArrayEnd(b, data);
      BlankWithin(data, LastEnd(a.rawStart + 1, a.values), a.rawEnd - 1, b.rawEnd - 1);
    } else {
      var n := if |a.members| < |b.members| then |a.members| else |b.members|;
      SameMembers(a, b, data, n);
      assert a.members[..|a.members|] == a.members && b.members[..|b.members|] == b.members;
      NoMoreMembers(a, b, data);
      NoMoreMembers(b, a, data);
      ObjectEnd(a, data);
      ObjectEnd(b, data);
      BlankWithin(data, LastMemberEnd(a.rawStart + 1, a.members), a.rawEnd - 1, b.rawEnd - 1);
    }
  }

  lemma SameStart(data: seq<byte>, pos: int, a: JsonNode, b: JsonNode)
    requires ReadFrom(a, data) && ReadFrom(b, data) && Blank(data, pos, a.rawStart) && Blank(data, pos, b.rawStart)
    ensures a.rawStart == b.rawStart
  {
    hide ReadFrom;
    FirstByte(a, data);
    FirstByte(b, data);
    BlankWithin(data, pos, a.rawStart, b.rawStart);
  }

  /** A document has one tree. */
  lemma OnlyDocument(data: seq<byte>, t: JsonNode)
    requires ReadFrom(t, data) && Blank(data, 0, t.rawStart)
    ensures forall s :: Document(s, data) ==> s == t
  {
    hide ReadFrom, Blank;
    forall s | Document(s, data) ensures s == t {
      SameStart(data, 0, s, t);
      Unambiguous(s, t, data);
    }
  }
}
