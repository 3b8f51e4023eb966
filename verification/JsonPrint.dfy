/** Writing JSON values as RFC 8259 spells them, and that the parser takes what is written apart into the same values. */
module JsonPrint {
  import opened Bytes
  import opened JsonString
  import opened JsonGrammar
  import opened DocumentSplice
  import opened JsonSyntax
  import opened JsonQuote

  datatype Json = Obj(members: seq<Pair>) | Arr(values: seq<Json>) | Str(text: seq<byte>) | Num(text: seq<byte>) | Bool(b: bool) | Null

  datatype Pair = Pair(key: seq<byte>, value: Json)

  // ----- Writing

  /** Space, tab, line feed and carriage return. */
  predicate IsGap(gap: seq<byte>) { forall i :: 0 <= i < |gap| ==> gap[i] in {0x20, 0x09, 0x0A, 0x0D} }

  function Literal(t: seq<byte>): seq<byte> { Ascii("\"") + Quote(t) + Ascii("\"") }

  /** The value with this white space in every place where white space may stand. */
  function Print(v: Json, gap: seq<byte>): seq<byte>
    decreases v, 0
  {
    match v
    case Obj(members) => Ascii("{") + PrintMembers(members, gap) + Ascii("}")
    case Arr(values) => Ascii("[") + PrintValues(values, gap) + Ascii("]")
    case Str(t) => Literal(t)
    case Num(t) => t
    case Bool(b) => if b then Ascii("true") else Ascii("false")
    case Null => Ascii("null")
  }

  function PrintValues(values: seq<Json>, gap: seq<byte>): seq<byte>
    decreases values, 0
  {
    if values == [] then gap
    else gap + (Print(values[0], gap) + (gap + if |values| == 1 then [] else Ascii(",") + PrintValues(values[1..], gap)))
  }

  function PrintMembers(members: seq<Pair>, gap: seq<byte>): seq<byte>
    decreases members, 0
  {
    if members == [] then gap
    else
      gap + (Literal(members[0].key) + (gap + (Ascii(":") + (gap
      + (Print(members[0].value, gap) + (gap + if |members| == 1 then [] else Ascii(",") + PrintMembers(members[1..], gap)))))))
  }

  /** Texts are texts, and numbers have the syntax of numbers. */
  ghost predicate Sound(v: Json) {
    match v
    case Obj(members) => forall i :: 0 <= i < |members| ==> IsText(members[i].key) && Sound(members[i].value)
    case Arr(values) => forall i :: 0 <= i < |values| ==> Sound(values[i])
    case Str(t) => IsText(t)
    case Num(t) => IsNumber(t)
    case _ => true
  }

  // ----- Reading

  /** The tree, read from the data, has this value. */
  ghost predicate Means(t: JsonNode, data: seq<byte>, v: Json)
    decreases v
  {
    match v
    case Obj(members) =>
      && t.JObject? && |t.members| == |members|
      && forall i :: 0 <= i < |members| ==> t.members[i].key == members[i].key && Means(t.members[i].value, data, members[i].value)
    case Arr(values) => t.JArray? && |t.values| == |values| && forall i :: 0 <= i < |values| ==> Means(t.values[i], data, values[i])
    case Str(text) => t.JString? && t.text == text
    case Num(text) => t.JNumber? && t.text == text
    case Bool(b) => t.JBool? && 0 <= t.rawStart <= t.rawEnd <= |data|
                    && data[t.rawStart..t.rawEnd] == if b then Ascii("true") else Ascii("false")
    case Null => t.JNull?
  }

  /** x stands in the data at this place. */
  predicate Stands(x: seq<byte>, data: seq<byte>, at: int) {
    0 <= at && at + |x| <= |data| && data[at..at + |x|] == x
  }

  lemma StandsBoth(x: seq<byte>, y: seq<byte>, data: seq<byte>, at: int)
    requires Stands(x + y, data, at)
    ensures Stands(x, data, at) && Stands(y, data, at + |x|)
  {
    assert data[at..at + |x|] == data[at..at + |x + y|][..|x|];
    assert data[at + |x|..at + |x + y|] == data[at..at + |x + y|][|x|..];
  }

  lemma GapStands(gap: seq<byte>, data: seq<byte>, at: int)
    requires IsGap(gap) && Stands(gap, data, at)
    ensures Blank(data, at, at + |gap|)
  {
    forall i | at <= i < at + |gap| ensures IsSpace(data[i]) {
      assert data[at..at + |gap|][i - at] == gap[i - at];
    }
  }

  lemma ByteStands(c: string, data: seq<byte>, at: int)
    requires |c| == 1 && c[0] < 128 as char && Stands(Ascii(c), data, at)
    ensures at < |data| && data[at] as int == c[0] as int
  {
    assert data[at..at + 1][0] == data[at];
  }

  /** A literal is read where it stands. */
  lemma LiteralStands(t: seq<byte>, data: seq<byte>, at: int)
    requires IsText(t) && Stands(Literal(t), data, at)
    ensures at + 1 < |data| && data[at] == QUOTE && Decode(data[at + 1..], at + 1).Some? && ConformingText(data[at + 1..])
    ensures var d := Decode(data[at + 1..], at + 1).value; d.out == t && at + 2 + d.len == at + |Literal(t)|
  {
    hide Quote, Decode, ConformingText, IsText;
    StandsBoth(Ascii("\"") + Quote(t), Ascii("\""), data, at);
    StandsBoth(Ascii("\""), Quote(t), data, at);
    ByteStands("\"", data, at);
    ByteStands("\"", data, at + 1 + |Quote(t)|);
    var rest := data[at + 2 + |Quote(t)|..];
    assert data[at + 1..] == Quote(t) + [QUOTE] + rest;
    QuoteRoundTrip(t, rest, at + 1);
    QuoteConforms(t, rest);
  }

  lemma StringReads(t: seq<byte>, data: seq<byte>, at: int) returns (node: JsonNode)
    requires IsText(t) && Stands(Literal(t), data, at)
    ensures ReadFrom(node, data) && Conforms(node, data) && node.rawStart == at && node.rawEnd == at + |Literal(t)|
    ensures Means(node, data, Str(t))
  {
    LiteralStands(t, data, at);
    hide *;
    var d := Decode(data[at + 1..], at + 1).value;
    node := JString(at, at + 2 + d.len, at + 1, at + 1 + d.len, d.out, d.ranges);
    Closed(data[at + 1..], at + 1);
    StringRead(data, at, d);
    StringMeans(node, data);
  }

  lemma StringMeans(node: JsonNode, data: seq<byte>)
    requires node.JString? && 0 <= node.rawContentStart <= |data| && ConformingText(data[node.rawContentStart..])
    ensures Conforms(node, data) && Means(node, data, Str(node.text))
  {
    hide ConformingText;
  }

  lemma Closed(s: seq<byte>, base: int)
    requires Decode(s, base).Some?
    ensures Decode(s, base).value.len < |s|
  {
  }

  /** A number stands where its run ends. */
  predicate EndsRun(data: seq<byte>, end: int) { 0 <= end <= |data| && (end < |data| ==> IsValueDelimiter(data[end])) }

  lemma NumberReads(t: seq<byte>, data: seq<byte>, at: int) returns (node: JsonNode)
    requires IsNumber(t) && Stands(t, data, at) && EndsRun(data, at + |t|)
    ensures ReadFrom(node, data) && Conforms(node, data) && node.rawStart == at && node.rawEnd == at + |t|
    ensures Means(node, data, Num(t))
  {
    NumberIsBytes(t);
    hide IsNumber;
    node := JNumber(at, at + |t|, t, SelfRanges(at, |t|));
    forall i | at <= i < at + |t| ensures !IsValueDelimiter(data[i]) && !Opens(data[i]) {
      assert data[at..at + |t|][i - at] == data[i] == t[i - at];
      assert NumberByte(t[i - at]);
    }
  }

  lemma WordReads(v: Json, data: seq<byte>, at: int) returns (node: JsonNode)
    requires v.Bool? || v.Null?
    requires Stands(Print(v, []), data, at)
    ensures ReadFrom(node, data) && Conforms(node, data) && node.rawStart == at && node.rawEnd == at + |Print(v, [])|
    ensures Means(node, data, v)
  {
    assert Ascii("true") == TRUE && Ascii("false") == FALSE && Ascii("null") == NULL;
    var end := at + |Print(v, [])|;
    node := if v.Bool? then JBool(at, end) else JNull(at, end);
  }

  // ----- Arrays

  /** The trees are the values, one after the other, with nothing but white space and commas between from and end. */
  ghost predicate ValuesRead(trees: seq<JsonNode>, values: seq<Json>, data: seq<byte>, from: int, end: int) {
    && |trees| == |values| && 0 <= from <= end <= |data|
    && (forall i :: 0 <= i < |trees| ==> ReadFrom(trees[i], data) && Conforms(trees[i], data) && Means(trees[i], data, values[i]))
    && (trees != [] ==> Blank(data, from, trees[0].rawStart))
    && (forall i :: 0 < i < |trees| ==> Separated(data, trees[i - 1].rawEnd, 44, trees[i].rawStart))
    && Blank(data, LastEnd(from, trees), end)
  }

  /** The first value stands between white space, and behind it nothing more or a comma and the other values. */
  lemma ValuesLayout(values: seq<Json>, gap: seq<byte>, data: seq<byte>, from: int)
    requires IsGap(gap) && values != [] && Stands(PrintValues(values, gap), data, from)
    requires from + |PrintValues(values, gap)| < |data| && data[from + |PrintValues(values, gap)|] == 93
    ensures var p, at, end := Print(values[0], gap), from + |gap|, from + |PrintValues(values, gap)|;
            var comma := at + |p| + |gap|;
            && Stands(p, data, at) && EndsRun(data, at + |p|) && Blank(data, from, at) && Blank(data, at + |p|, comma)
            && 0 <= from <= comma < |data|
            && if |values| == 1 then comma == end
               else data[comma] == 44 && Stands(PrintValues(values[1..], gap), data, comma + 1)
                    && comma + 1 + |PrintValues(values[1..], gap)| == end
  {
    hide *;
    Signs();
    var p, at, rest := Print(values[0], gap), from + |gap|, PrintValues(values[1..], gap);
    var behind := if |values| == 1 then [] else Ascii(",") + rest;
    ValuesOnce(values, gap);
    StandsBoth(gap, p + (gap + behind), data, from);
    StandsBoth(p, gap + behind, data, at);
    StandsBoth(gap, behind, data, at + |p|);
    GapStands(gap, data, from);
    GapStands(gap, data, at + |p|);
    if |values| > 1 {
      StandsBoth(Ascii(","), rest, data, at + |p| + |gap|);
      ByteStands(",", data, at + |p| + |gap|);
    }
    BehindGap(gap, data, at + |p|, if |values| == 1 then 93 else 44);
    StandsInside(gap, data, from);
  }

  lemma StandsInside(x: seq<byte>, data: seq<byte>, at: int)
    requires Stands(x, data, at)
    ensures 0 <= at <= at + |x| <= |data|
  {
  }

  lemma {:induction false} ValuesStand(values: seq<Json>, gap: seq<byte>, data: seq<byte>, from: int) returns (trees: seq<JsonNode>)
    requires IsGap(gap) && (forall i :: 0 <= i < |values| ==> Sound(values[i]))
    requires Stands(PrintValues(values, gap), data, from)
    requires from + |PrintValues(values, gap)| < |data| && data[from + |PrintValues(values, gap)|] == 93
    ensures ValuesRead(trees, values, data, from, from + |PrintValues(values, gap)|)
    decreases values, 0
  {
    hide *;
    var end := from + |PrintValues(values, gap)|;
    if values == [] {
      NoValues(gap, data, from);
      trees := [];
    } else {
      var v, rest := values[0], values[1..];
      var at := from + |gap|;
      var comma := at + |Print(v, gap)| + |gap|;
      ValuesLayout(values, gap, data, from);
      SoundParts(values);
      var t := PrintReads(v, gap, data, at);
      if |values| == 1 {
        trees := [t];
        OneValue(t, v, data, from, end);
        assert values == [v];
      } else {
        var more := ValuesStand(rest, gap, data, comma + 1);
        trees := [t] + more;
        MoreValues(t, more, v, rest, data, from, comma, end);
        assert values == [v] + rest;
      }
    }
  }

  lemma Signs()
    ensures |Ascii(",")| == |Ascii(":")| == 1
  {
  }

  lemma NoValues(gap: seq<byte>, data: seq<byte>, from: int)
    requires IsGap(gap) && Stands(PrintValues([], gap), data, from)
    ensures ValuesRead([], [], data, from, from + |PrintValues([], gap)|)
  {
    GapStands(gap, data, from);
  }

  lemma ValuesOnce(values: seq<Json>, gap: seq<byte>)
    requires values != []
    ensures PrintValues(values, gap)
         == gap + (Print(values[0], gap) + (gap + if |values| == 1 then [] else Ascii(",") + PrintValues(values[1..], gap)))
  {
  }

  lemma SoundParts(values: seq<Json>)
    requires values != [] && forall i :: 0 <= i < |values| ==> Sound(values[i])
    ensures Sound(values[0]) && forall i :: 0 <= i < |values[1..]| ==> Sound(values[1..][i])
  {
  }

  /** Behind a value there is white space, or the byte that stands behind the gap: either ends a number. */
  lemma BehindGap(gap: seq<byte>, data: seq<byte>, at: int, b: byte)
    requires IsGap(gap) && Stands(gap, data, at) && at + |gap| < |data| && data[at + |gap|] == b && b in {44, 93, 125}
    ensures EndsRun(data, at)
  {
    if gap != [] {
      assert data[at..at + |gap|][0] == data[at] == gap[0];
    }
  }

  lemma OneValue(t: JsonNode, v: Json, data: seq<byte>, from: int, end: int)
    requires ReadFrom(t, data) && Conforms(t, data) && Means(t, data, v) && 0 <= from <= end <= |data|
    requires Blank(data, from, t.rawStart) && Blank(data, t.rawEnd, end)
    ensures ValuesRead([t], [v], data, from, end)
  {
    hide ReadFrom, Conforms, Means, Blank;
  }

  lemma MoreValues(t: JsonNode, more: seq<JsonNode>, v: Json, rest: seq<Json>, data: seq<byte>, from: int, comma: int, end: int)
    requires ReadFrom(t, data) && Conforms(t, data) && Means(t, data, v) && rest != [] && 0 <= from <= comma
    requires Blank(data, from, t.rawStart) && Blank(data, t.rawEnd, comma) && comma < |data| && data[comma] == 44
    requires ValuesRead(more, rest, data, comma + 1, end)
    ensures ValuesRead([t] + more, [v] + rest, data, from, end)
  {
    hide ReadFrom, Conforms, Means, Separated;
    var trees, values := [t] + more, [v] + rest;
    CommaBetween(data, t.rawEnd, comma, more[0].rawStart);
    hide Blank;
    forall i | 0 < i < |trees| ensures Separated(data, trees[i - 1].rawEnd, 44, trees[i].rawStart) {
      if i > 1 { assert trees[i - 1] == more[i - 2] && trees[i] == more[i - 1]; }
    }
    forall i | 0 <= i < |trees| ensures ReadFrom(trees[i], data) && Conforms(trees[i], data) && Means(trees[i], data, values[i]) {
      if i > 0 { assert trees[i] == more[i - 1] && values[i] == rest[i - 1]; }
    }
    BlankOrder(data, LastEnd(comma + 1, more), end);
  }

  lemma CommaBetween(data: seq<byte>, from: int, comma: int, next: int)
    requires Blank(data, from, comma) && comma < |data| && data[comma] == 44 && Blank(data, comma + 1, next)
    ensures Separated(data, from, 44, next)
  {
    hide Blank;
  }

  // ----- Objects

  ghost predicate MembersRead(trees: seq<Member>, members: seq<Pair>, data: seq<byte>, from: int, end: int) {
    && |trees| == |members| && 0 <= from <= end <= |data|
    && (forall i :: 0 <= i < |trees| ==>
          && ReadFrom(trees[i].value, data) && Conforms(trees[i].value, data)
          && trees[i].key == members[i].key && Means(trees[i].value, data, members[i].value))
    && (trees != [] ==> Entry(data, from, trees[0]) && ConformingEntry(data, from, trees[0]) && !NextIs(data, from, 125))
    && (forall i :: 0 < i < |trees| ==>
          NextEntry(data, trees[i - 1].value.rawEnd, trees[i]) && ConformingNext(data, trees[i - 1].value.rawEnd, trees[i]))
    && Blank(data, LastMemberEnd(from, trees), end)
  }

  /** The first key and value stand between white space, and behind them nothing more or a comma and the other members. */
  lemma MembersLayout(members: seq<Pair>, gap: seq<byte>, data: seq<byte>, from: int) returns (at: int)
    requires IsGap(gap) && members != [] && IsText(members[0].key) && Stands(PrintMembers(members, gap), data, from)
    requires from + |PrintMembers(members, gap)| < |data| && data[from + |PrintMembers(members, gap)|] == 125
    ensures var p, end := Print(members[0].value, gap), from + |PrintMembers(members, gap)|;
            var comma := at + |p| + |gap|;
            && KeyPlace(members[0].key, data, from, from + |gap|, at)
            && Stands(p, data, at) && EndsRun(data, at + |p|) && Blank(data, at + |p|, comma) && 0 <= from <= comma < |data|
            && if |members| == 1 then comma == end
               else data[comma] == 44 && Stands(PrintMembers(members[1..], gap), data, comma + 1)
                    && comma + 1 + |PrintMembers(members[1..], gap)| == end
  {
    hide *;
    var p, rest := Print(members[0].value, gap), PrintMembers(members[1..], gap);
    var behind := if |members| == 1 then [] else Ascii(",") + rest;
    MembersOnce(members, gap);
    at := KeyLayout(members[0].key, gap, p + (gap + behind), data, from);
    ValueLayout(p, gap, behind, data, at);
    Signs();
    if |members| > 1 {
      StandsBoth(Ascii(","), rest, data, at + |p| + |gap|);
      ByteStands(",", data, at + |p| + |gap|);
    }
    StandsInside(gap, data, at + |p|);
    BehindGap(gap, data, at + |p|, if |members| == 1 then 125 else 44);
  }

  lemma KeyLayout(key: seq<byte>, gap: seq<byte>, value: seq<byte>, data: seq<byte>, from: int) returns (at: int)
    requires IsGap(gap) && IsText(key) && Stands(gap + (Literal(key) + (gap + (Ascii(":") + (gap + value)))), data, from)
    ensures at == from + |gap| + |Literal(key)| + |gap| + 1 + |gap| && 0 <= from
    ensures KeyPlace(key, data, from, from + |gap|, at) && Stands(value, data, at)
  {
    hide *;
    Signs();
    var k := Literal(key);
    var q := from + |gap|;
    var colon := q + |k| + |gap|;
    at := colon + 1 + |gap|;
    StandsBoth(gap, k + (gap + (Ascii(":") + (gap + value))), data, from);
    StandsBoth(k, gap + (Ascii(":") + (gap + value)), data, q);
    StandsBoth(gap, Ascii(":") + (gap + value), data, q + |k|);
    StandsBoth(Ascii(":"), gap + value, data, colon);
    ByteStands(":", data, colon);
    StandsBoth(gap, value, data, colon + 1);
    GapStands(gap, data, from);
    GapStands(gap, data, q + |k|);
    GapStands(gap, data, colon + 1);
    StandsInside(gap, data, from);
    StandsInside(gap, data, q + |k|);
    KeyStands(key, data, from, q, colon, at);
  }

  lemma ValueLayout(p: seq<byte>, gap: seq<byte>, behind: seq<byte>, data: seq<byte>, at: int)
    requires IsGap(gap) && Stands(p + (gap + behind), data, at)
    ensures Stands(p, data, at) && Stands(gap, data, at + |p|) && Stands(behind, data, at + |p| + |gap|)
    ensures Blank(data, at + |p|, at + |p| + |gap|)
  {
    hide Stands, Blank;
    StandsBoth(p, gap + behind, data, at);
    StandsBoth(gap, behind, data, at + |p|);
    GapStands(gap, data, at + |p|);
  }

  lemma {:induction false} MembersStand(members: seq<Pair>, gap: seq<byte>, data: seq<byte>, from: int) returns (trees: seq<Member>)
    requires IsGap(gap) && (forall i :: 0 <= i < |members| ==> IsText(members[i].key) && Sound(members[i].value))
    requires Stands(PrintMembers(members, gap), data, from)
    requires from + |PrintMembers(members, gap)| < |data| && data[from + |PrintMembers(members, gap)|] == 125
    ensures MembersRead(trees, members, data, from, from + |PrintMembers(members, gap)|)
    decreases members, 0
  {
    hide *;
    var end := from + |PrintMembers(members, gap)|;
    if members == [] {
      NoMembers(gap, data, from);
      trees := [];
    } else {
      var m, rest := members[0], members[1..];
      SoundMembers(members);
      var at := MembersLayout(members, gap, data, from);
      var comma := at + |Print(m.value, gap)| + |gap|;
      var t := PrintReads(m.value, gap, data, at);
      KeyFirst(Member(m.key, t), data, from, from + |gap|);
      if |members| == 1 {
        trees := [Member(m.key, t)];
        OneMemberRead(t, m, data, from, end);
        assert members == [m];
      } else {
        var more := MembersStand(rest, gap, data, comma + 1);
        trees := [Member(m.key, t)] + more;
        MoreMembers(t, more, m, rest, data, from, comma, end);
        assert members == [m] + rest;
      }
    }
  }

  lemma NoMembers(gap: seq<byte>, data: seq<byte>, from: int)
    requires IsGap(gap) && Stands(PrintMembers([], gap), data, from)
    ensures MembersRead([], [], data, from, from + |PrintMembers([], gap)|)
  {
    GapStands(gap, data, from);
  }

  lemma MembersOnce(members: seq<Pair>, gap: seq<byte>)
    requires members != []
    ensures PrintMembers(members, gap)
         == gap + (Literal(members[0].key) + (gap + (Ascii(":") + (gap
            + (Print(members[0].value, gap) + (gap + if |members| == 1 then [] else Ascii(",") + PrintMembers(members[1..], gap)))))))
  {
    hide Literal;
  }

  lemma SoundMembers(members: seq<Pair>)
    requires members != [] && forall i :: 0 <= i < |members| ==> IsText(members[i].key) && Sound(members[i].value)
    ensures IsText(members[0].key) && Sound(members[0].value)
    ensures forall i :: 0 <= i < |members[1..]| ==> IsText(members[1..][i].key) && Sound(members[1..][i].value)
  {
    hide IsText, Sound;
  }

  /** The key at q, and the value behind its colon at `at`. */
  ghost predicate KeyPlace(key: seq<byte>, data: seq<byte>, from: int, q: int, at: int) {
    && Blank(data, from, q) && q < |data| && data[q] == QUOTE && ConformingText(data[q + 1..])
    && Decode(data[q + 1..], q + 1).Some? && Decode(data[q + 1..], q + 1).value.out == key
    && Separated(data, q + 2 + Decode(data[q + 1..], q + 1).value.len, 58, at)
  }

  lemma KeyStands(key: seq<byte>, data: seq<byte>, from: int, q: int, colon: int, at: int)
    requires IsText(key) && Stands(Literal(key), data, q) && Blank(data, from, q) && Blank(data, q + |Literal(key)|, colon)
    requires 0 <= colon < |data| && data[colon] == 58 && Blank(data, colon + 1, at)
    ensures KeyPlace(key, data, from, q, at)
  {
    LiteralStands(key, data, q);
    hide Decode, ConformingText, Literal, IsText, Blank;
  }

  lemma KeyFirst(m: Member, data: seq<byte>, from: int, q: int)
    requires KeyPlace(m.key, data, from, q, m.value.rawStart)
    ensures Entry(data, from, m) && ConformingEntry(data, from, m) && !NextIs(data, from, 125)
  {
    hide Decode, ConformingText, Separated;
    assert KeyAt(data, q, m);
    assert !IsSpace(data[q]);
    forall p | Blank(data, from, p) && p < |data| ensures data[p] != 125 {
      BlankWithin(data, from, p, q);
    }
  }

  lemma OneMemberRead(t: JsonNode, m: Pair, data: seq<byte>, from: int, end: int)
    requires ReadFrom(t, data) && Conforms(t, data) && Means(t, data, m.value) && 0 <= from <= end <= |data|
    requires Entry(data, from, Member(m.key, t)) && ConformingEntry(data, from, Member(m.key, t)) && !NextIs(data, from, 125)
    requires Blank(data, t.rawEnd, end)
    ensures MembersRead([Member(m.key, t)], [m], data, from, end)
  {
    hide ReadFrom, Conforms, Means, Blank, Entry, ConformingEntry, NextIs;
  }

  lemma MoreMembers(t: JsonNode, more: seq<Member>, m: Pair, rest: seq<Pair>, data: seq<byte>, from: int, comma: int, end: int)
    requires ReadFrom(t, data) && Conforms(t, data) && Means(t, data, m.value) && rest != []
    requires 0 <= from <= comma && Entry(data, from, Member(m.key, t)) && ConformingEntry(data, from, Member(m.key, t))
    requires !NextIs(data, from, 125) && Blank(data, t.rawEnd, comma) && comma < |data| && data[comma] == 44
    requires MembersRead(more, rest, data, comma + 1, end)
    ensures MembersRead([Member(m.key, t)] + more, [m] + rest, data, from, end)
  {
    hide ReadFrom, Conforms, Means, Entry, ConformingEntry, NextIs;
    var trees, members := [Member(m.key, t)] + more, [m] + rest;
    assert NextEntry(data, t.rawEnd, more[0]) && ConformingNext(data, t.rawEnd, more[0]);
    hide NextEntry, ConformingNext;
    forall i | 0 < i < |trees|
      ensures NextEntry(data, trees[i - 1].value.rawEnd, trees[i]) && ConformingNext(data, trees[i - 1].value.rawEnd, trees[i])
    {
      if i > 1 { assert trees[i - 1] == more[i - 2] && trees[i] == more[i - 1]; }
    }
    assert forall i :: 0 < i < |trees| ==> trees[i] == more[i - 1] && members[i] == rest[i - 1];
  }

  // ----- Values

  /** What is written for a value is read as that value, wherever it stands. */
  lemma {:induction false} PrintReads(v: Json, gap: seq<byte>, data: seq<byte>, at: int) returns (t: JsonNode)
    requires IsGap(gap) && Sound(v) && Stands(Print(v, gap), data, at) && EndsRun(data, at + |Print(v, gap)|)
    ensures ReadFrom(t, data) && Conforms(t, data) && Means(t, data, v)
    ensures t.rawStart == at && t.rawEnd == at + |Print(v, gap)|
    decreases v, 1
  {
    hide *;
    Printed(v, gap);
    match v
    case Obj(members) =>
      var inside := PrintMembers(members, gap);
      var end := at + 1 + |inside|;
      StandsBoth(Ascii("{") + inside, Ascii("}"), data, at);
      StandsBoth(Ascii("{"), inside, data, at);
      ByteStands("{", data, at);
      ByteStands("}", data, end);
      var trees := MembersStand(members, gap, data, at + 1);
      t := JObject(at, end + 1, trees);
      ObjectMeans(trees, members, data, at, end);
    case Arr(values) =>
      var inside := PrintValues(values, gap);
      var end := at + 1 + |inside|;
      StandsBoth(Ascii("[") + inside, Ascii("]"), data, at);
      StandsBoth(Ascii("["), inside, data, at);
      ByteStands("[", data, at);
      ByteStands("]", data, end);
      var trees := ValuesStand(values, gap, data, at + 1);
      t := JArray(at, end + 1, trees);
      ArrayMeans(trees, values, data, at, end);
    case Str(text) => t := StringReads(text, data, at);
    case Num(text) => t := NumberReads(text, data, at);
    case Bool(_) => t := WordReads(v, data, at);
    case Null => t := WordReads(v, data, at);
  }

  lemma Printed(v: Json, gap: seq<byte>)
    ensures v.Obj? ==> Print(v, gap) == Ascii("{") + PrintMembers(v.members, gap) + Ascii("}")
    ensures v.Obj? && Sound(v) ==> forall i :: 0 <= i < |v.members| ==> IsText(v.members[i].key) && Sound(v.members[i].value)
    ensures v.Arr? ==> Print(v, gap) == Ascii("[") + PrintValues(v.values, gap) + Ascii("]")
    ensures v.Arr? && Sound(v) ==> forall i :: 0 <= i < |v.values| ==> Sound(v.values[i])
    ensures v.Str? ==> Print(v, gap) == Literal(v.text) && (Sound(v) ==> IsText(v.text))
    ensures v.Num? ==> Print(v, gap) == v.text && (Sound(v) ==> IsNumber(v.text))
    ensures v.Bool? || v.Null? ==> Print(v, gap) == Print(v, [])
    ensures |Ascii("{")| == |Ascii("[")| == |Ascii("]")| == |Ascii("}")| == 1
  {
    hide IsText, IsNumber, Literal, PrintMembers, PrintValues;
  }

  lemma ArrayMeans(trees: seq<JsonNode>, values: seq<Json>, data: seq<byte>, at: int, end: int)
    requires ValuesRead(trees, values, data, at + 1, end) && 0 <= at < end < |data| && data[at] == 91 && data[end] == 93
    ensures var t := JArray(at, end + 1, trees); ReadFrom(t, data) && Conforms(t, data) && Means(t, data, Arr(values))
  {
    assert trees != [] ==> ValuesFrom(data, at + 1, trees);
    hide ReadFrom, Conforms, Means, Blank, Separated;
    ArrayRead(data, at, end, trees);
    ArrayParts(JArray(at, end + 1, trees), data, Arr(values));
  }

  lemma ArrayParts(t: JsonNode, data: seq<byte>, v: Json)
    requires t.JArray? && v.Arr? && |t.values| == |v.values|
    requires forall i :: 0 <= i < |t.values| ==> Conforms(t.values[i], data) && Means(t.values[i], data, v.values[i])
    ensures Conforms(t, data) && Means(t, data, v)
  {
  }

  lemma ObjectMeans(trees: seq<Member>, members: seq<Pair>, data: seq<byte>, at: int, end: int)
    requires MembersRead(trees, members, data, at + 1, end) && 0 <= at < end < |data| && data[at] == 123 && data[end] == 125
    ensures var t := JObject(at, end + 1, trees); ReadFrom(t, data) && Conforms(t, data) && Means(t, data, Obj(members))
  {
    assert trees != [] ==> EntriesFrom(data, at + 1, trees) by {
      hide Entry, NextEntry, NextIs, ReadFrom, Conforms, Means, Blank, ConformingEntry, ConformingNext;
    }
    hide ReadFrom, Conforms, Means, Blank, Entry, NextEntry, NextIs, EntriesFrom, ConformingEntry, ConformingNext;
    ObjectRead(data, at, end, trees);
    ObjectParts(JObject(at, end + 1, trees), data, Obj(members));
  }

  lemma ObjectParts(t: JsonNode, data: seq<byte>, v: Json)
    requires t.JObject? && v.Obj? && |t.members| == |v.members|
    requires forall i :: 0 <= i < |t.members| ==>
               Conforms(t.members[i].value, data) && t.members[i].key == v.members[i].key
               && Means(t.members[i].value, data, v.members[i].value)
    requires t.members != [] ==> ConformingEntry(data, t.rawStart + 1, t.members[0])
    requires forall i :: 0 < i < |t.members| ==> ConformingNext(data, t.members[i - 1].value.rawEnd, t.members[i])
    ensures Conforms(t, data) && Means(t, data, v)
  {
    hide ConformingEntry, ConformingNext;
  }

  /** Round trip: what is written for a value is valid JSON, and the one tree that spells it has that value. */
  lemma PrintRoundTrip(v: Json, gap: seq<byte>) returns (t: JsonNode)
    requires IsGap(gap) && Sound(v)
    ensures var data := gap + Print(v, gap) + gap;
            Document(t, data) && ValidJSON(data) && Means(t, data, v) && forall s :: Document(s, data) ==> s == t
  {
    hide *;
    var p := Print(v, gap);
    var data := gap + p + gap;
    var at, end := |gap|, |gap| + |p|;
    Around(gap, p);
    RunBefore(gap, data, end);
    t := PrintReads(v, gap, data, at);
    Whole(t, data);
  }

  lemma Around(gap: seq<byte>, p: seq<byte>)
    requires IsGap(gap)
    ensures var data := gap + p + gap;
            && Stands(p, data, |gap|) && Stands(gap, data, |gap| + |p|)
            && Blank(data, 0, |gap|) && Blank(data, |gap| + |p|, |data|)
  {
    var data := gap + p + gap;
    assert data[..|gap|] == gap && data[0..|gap|] == gap && data[|gap|..|gap| + |p|] == p;
    assert data[|gap| + |p|..|gap| + |p| + |gap|] == gap;
    GapStands(gap, data, 0);
    GapStands(gap, data, |gap| + |p|);
  }

  lemma RunBefore(gap: seq<byte>, data: seq<byte>, end: int)
    requires IsGap(gap) && Stands(gap, data, end) && end + |gap| == |data|
    ensures EndsRun(data, end)
  {
    if gap != [] {
      assert data[end..end + |gap|][0] == data[end] == gap[0];
    }
  }

  lemma Whole(t: JsonNode, data: seq<byte>)
    requires ReadFrom(t, data) && Conforms(t, data) && Blank(data, 0, t.rawStart) && Blank(data, t.rawEnd, |data|)
    ensures Document(t, data) && ValidJSON(data) && forall s :: Document(s, data) ==> s == t
  {
    hide ReadFrom, Conforms, Blank;
    OnlyDocument(data, t);
  }
}
