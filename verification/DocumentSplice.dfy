/** Replacing content of the strings and numbers of a JSON document: the result spells the same tree with others. */
module DocumentSplice {
  import opened Bytes
  import opened Rules
  import opened JsonString
  import opened JsonGrammar
  import opened Splice
  import opened LiteralSplice

  // ----- Which bytes may be replaced

  /** Byte p is content of a string value (not of a key) or byte of a number of the tree. */
  ghost predicate InLeaf(node: JsonNode, p: int) {
    match node
    case JObject(_, _, members) => exists i :: 0 <= i < |members| && InLeaf(members[i].value, p)
    case JArray(_, _, values) => exists i :: 0 <= i < |values| && InLeaf(values[i], p)
    case JString(_, _, start, end, _, _) => start <= p < end
    case JNumber(start, end, _, _) => start <= p < end
    case _ => false
  }

  /** Every escape of every string value is covered as a whole or not at all. */
  ghost predicate WholeStrings(node: JsonNode, data: seq<byte>, cover: iset<int>) {
    match node
    case JObject(_, _, members) => forall i :: 0 <= i < |members| ==> WholeStrings(members[i].value, data, cover)
    case JArray(_, _, values) => forall i :: 0 <= i < |values| ==> WholeStrings(values[i], data, cover)
    case JString(_, _, start, _, _, _) => 0 <= start <= |data| && WholeEscapes(data[start..], start, cover)
    case _ => true
  }

  /** Between a node's first and last byte, only string contents and numbers are replaced. */
  ghost predicate OnlyLeaves(node: JsonNode, pieces: Pieces) {
    forall p :: node.rawStart <= p < node.rawEnd && 0 <= p < |pieces| && pieces[p].Some? ==> InLeaf(node, p)
  }

  // ----- The tree that is read afterwards

  /** Where byte c ends up. */
  function Moved(pieces: Pieces, c: int): int { if 0 <= c <= |pieces| then At(pieces, c) else c }

  /** What the literal whose content starts at c is read as. */
  function Reread(data: seq<byte>, c: int): Unquoted {
    if 0 <= c <= |data| && Decode(data[c..], c).Some? then Decode(data[c..], c).value else Unquoted([], [], 0)
  }

  /** The bytes from start up to end. */
  function TextAt(data: seq<byte>, start: int, end: int): seq<byte> {
    if 0 <= start <= end <= |data| then data[start..end] else []
  }

  /** The node as it stands in the spliced data: moved, with its strings and numbers read again. */
  ghost function Respliced(node: JsonNode, pieces: Pieces, data: seq<byte>): JsonNode {
    match node
    case JObject(start, end, members) =>
      JObject(Moved(pieces, start), Moved(pieces, end), seq(|members|, i requires 0 <= i < |members| =>
        Member(members[i].key, Respliced(members[i].value, pieces, data))))
    case JArray(start, end, values) =>
      JArray(Moved(pieces, start), Moved(pieces, end),
             seq(|values|, i requires 0 <= i < |values| => Respliced(values[i], pieces, data)))
    case JString(start, end, contentStart, contentEnd, _, _) =>
      var read := Reread(data, Moved(pieces, contentStart));
      JString(Moved(pieces, start), Moved(pieces, end), Moved(pieces, contentStart), Moved(pieces, contentEnd),
              read.out, read.ranges)
    case JNumber(start, end, _, _) =>
      var text := TextAt(data, Moved(pieces, start), Moved(pieces, end));
      JNumber(Moved(pieces, start), Moved(pieces, end), text, SelfRanges(Moved(pieces, start), |text|))
    case JBool(start, end) => JBool(Moved(pieces, start), Moved(pieces, end))
    case JNull(start, end) => JNull(Moved(pieces, start), Moved(pieces, end))
  }

  lemma ResplicedPlace(node: JsonNode, pieces: Pieces, data: seq<byte>)
    ensures Respliced(node, pieces, data).rawStart == Moved(pieces, node.rawStart)
    ensures Respliced(node, pieces, data).rawEnd == Moved(pieces, node.rawEnd)
  {
  }

  // ----- Where strings lie

  /** The bytes of strings and numbers lie inside the node, strictly unless it is a number itself. */
  lemma {:induction false} LeafBytesInside(node: JsonNode, data: seq<byte>, p: int)
    requires ReadFrom(node, data) && InLeaf(node, p)
    ensures node.rawStart <= p < node.rawEnd
    ensures !node.JNumber? ==> node.rawStart < p < node.rawEnd - 1
  {
    match node
    case JObject(start, end, members) =>
      var i :| 0 <= i < |members| && InLeaf(members[i].value, p);
      hide InLeaf;
      LeafBytesInside(members[i].value, data, p);
      MembersBetween(node, data, i);
    case JArray(start, end, values) =>
      var i :| 0 <= i < |values| && InLeaf(values[i], p);
      hide InLeaf;
      LeafBytesInside(values[i], data, p);
      ValuesBetween(node, data, i);
    case _ =>
  }

  /** The values of an array lie one after the other between its brackets. */
  lemma ValuesBetween(node: JsonNode, data: seq<byte>, i: nat)
    requires ReadFrom(node, data) && node.JArray? && i < |node.values|
    ensures node.rawStart < node.values[i].rawStart < node.values[i].rawEnd < node.rawEnd
    ensures forall j :: 0 <= j < i ==> node.values[j].rawEnd < node.values[i].rawStart
  {
    hide ReadFrom, Separated;
    ValuesFollow(node, data, 0, i);
    ValuesFollow(node, data, i, |node.values| - 1);
    forall j | 0 <= j < i ensures node.values[j].rawEnd < node.values[i].rawStart {
      ValuesFollow(node, data, j, i);
    }
    ValuesStart(node, data, 0);
    ArrayEnd(node, data);
  }

  lemma {:induction false} ValuesFollow(node: JsonNode, data: seq<byte>, j: nat, i: nat)
    requires ReadFrom(node, data) && node.JArray? && j <= i < |node.values|
    ensures node.values[i].rawStart < node.values[i].rawEnd
    ensures j < i ==> node.values[j].rawEnd < node.values[i].rawStart
    ensures node.values[j].rawEnd <= node.values[i].rawEnd && node.values[j].rawStart <= node.values[i].rawStart
    decreases i - j
  {
    hide ReadFrom;
    ValuesStart(node, data, i);
    FirstByte(node.values[i], data);
    if j < i {
      ValuesFollow(node, data, j, i - 1);
    }
  }

  lemma MembersBetween(node: JsonNode, data: seq<byte>, i: nat)
    requires ReadFrom(node, data) && node.JObject? && i < |node.members|
    ensures node.rawStart < node.members[i].value.rawStart < node.members[i].value.rawEnd < node.rawEnd
    ensures forall j :: 0 <= j < i ==> node.members[j].value.rawEnd < node.members[i].value.rawStart
  {
    hide ReadFrom, Entry, NextEntry;
    MembersFollow(node, data, 0, i);
    MembersFollow(node, data, i, |node.members| - 1);
    forall j | 0 <= j < i ensures node.members[j].value.rawEnd < node.members[i].value.rawStart {
      MembersFollow(node, data, j, i);
    }
    MembersStart(node, data, 0);
    ObjectEnd(node, data);
    EntryEnds(data, node.rawStart + 1, node.members[0]);
  }

  lemma {:induction false} MembersFollow(node: JsonNode, data: seq<byte>, j: nat, i: nat)
    requires ReadFrom(node, data) && node.JObject? && j <= i < |node.members|
    ensures node.members[i].value.rawStart < node.members[i].value.rawEnd
    ensures j < i ==> node.members[j].value.rawEnd < node.members[i].value.rawStart
    ensures node.members[j].value.rawEnd <= node.members[i].value.rawEnd
    ensures node.members[j].value.rawStart <= node.members[i].value.rawStart
    decreases i - j
  {
    hide ReadFrom, Entry, NextEntry;
    MembersStart(node, data, i);
    FirstByte(node.members[i].value, data);
    if j < i {
      MembersFollow(node, data, j, i - 1);
      NextEnds(data, node.members[i - 1].value.rawEnd, node.members[i]);
    }
  }

  lemma EntryEnds(data: seq<byte>, at: int, m: Member)
    requires Entry(data, at, m)
    ensures 0 <= at < m.value.rawStart <= |data|
  {
    hide Decode;
  }

  lemma NextEnds(data: seq<byte>, at: int, m: Member)
    requires NextEntry(data, at, m)
    ensures 0 <= at < m.value.rawStart <= |data|
  {
  }

  // ----- Bytes that are kept

  lemma BlankOrder(data: seq<byte>, start: int, end: int)
    requires Blank(data, start, end)
    ensures 0 <= start <= end <= |data|
  {
  }

  lemma BlankKept(data: seq<byte>, pieces: Pieces, start: int, end: int)
    requires |data| == |pieces| && Blank(data, start, end) && Kept(pieces, start, end)
    ensures Blank(Spliced(data, pieces), Moved(pieces, start), Moved(pieces, end))
    ensures Moved(pieces, end) == Moved(pieces, start) + (end - start)
  {
    hide Spliced, At, Width;
    KeptPart(data, pieces, start, end);
    var s, from, to := Spliced(data, pieces), At(pieces, start), At(pieces, end);
    forall i | from <= i < to ensures IsSpace(s[i]) {
      assert s[from..to][i - from] == s[i] && data[start..end][i - from] == data[start + (i - from)];
    }
  }

  lemma ByteMoved(data: seq<byte>, pieces: Pieces, p: int)
    requires |data| == |pieces| && 0 <= p < |data| && pieces[p].None?
    ensures 0 <= Moved(pieces, p) < |Spliced(data, pieces)| && Moved(pieces, p + 1) == Moved(pieces, p) + 1
    ensures Spliced(data, pieces)[Moved(pieces, p)] == data[p]
  {
    hide Spliced, At, Width;
    KeptByte(data, pieces, p);
  }

  lemma SeparatedKept(data: seq<byte>, pieces: Pieces, start: int, ch: byte, end: int)
    requires |data| == |pieces| && Separated(data, start, ch, end) && Kept(pieces, start, end)
    ensures Separated(Spliced(data, pieces), Moved(pieces, start), ch, Moved(pieces, end))
  {
    var q :| Blank(data, start, q) && q < |data| && data[q] == ch && Blank(data, q + 1, end);
    hide Blank, Spliced, Moved;
    BlankOrder(data, start, q);
    BlankOrder(data, q + 1, end);
    BlankKept(data, pieces, start, q);
    BlankKept(data, pieces, q + 1, end);
    ByteMoved(data, pieces, q);
  }

  lemma SeparatorInside(data: seq<byte>, start: int, ch: byte, end: int)
    requires Separated(data, start, ch, end)
    ensures 0 <= start < end <= |data|
  {
  }

  /** A key that is kept is read as it was. */
  lemma KeyTextKept(data: seq<byte>, pieces: Pieces, c: int)
    requires |data| == |pieces| && 0 <= c <= |data| && Decode(data[c..], c).Some?
    requires Kept(pieces, c, c + Decode(data[c..], c).value.len + 1)
    ensures Moved(pieces, c) <= |Spliced(data, pieces)|
    ensures var d, m := Decode(data[c..], c).value, Moved(pieces, c);
            && Decode(Spliced(data, pieces)[m..], m).Some? && Decode(Spliced(data, pieces)[m..], m).value.out == d.out
            && Decode(Spliced(data, pieces)[m..], m).value.len == d.len
            && c + d.len < |data| && Moved(pieces, c + d.len + 1) == m + d.len + 1
  {
    hide Decode, Spliced, At, Width;
    var s, m := Spliced(data, pieces), At(pieces, c);
    DecodedEnd(data[c..], c);
    var len := Decode(data[c..], c).value.len;
    KeptPart(data, pieces, c, c + len + 1);
    assert data[c..][..len + 1] == data[c..c + len + 1] == s[m..m + len + 1] == s[m..][..len + 1];
    DecodePrefix(data[c..], c, s[m..], m);
  }

  lemma KeyParts(data: seq<byte>, q: int, m: Member)
    requires KeyAt(data, q, m)
    ensures 0 <= q < |data| && !IsSpace(data[q]) && Decode(data[q + 1..], q + 1).Some?
    ensures Decode(data[q + 1..], q + 1).value.out == m.key
    ensures Separated(data, q + 2 + Decode(data[q + 1..], q + 1).value.len, 58, m.value.rawStart)
  {
    hide Decode, Separated;
  }

  lemma KeyWhole(data: seq<byte>, q: int, m: Member, len: nat)
    requires 0 <= q < |data| && !IsSpace(data[q]) && Decode(data[q + 1..], q + 1).Some?
    requires Decode(data[q + 1..], q + 1).value.out == m.key && Decode(data[q + 1..], q + 1).value.len == len
    requires Separated(data, q + 2 + len, 58, m.value.rawStart)
    ensures KeyAt(data, q, m)
  {
    hide Decode, Separated;
  }

  lemma KeyKept(data: seq<byte>, pieces: Pieces, q: int, m: Member, moved: Member)
    requires |data| == |pieces| && KeyAt(data, q, m) && Kept(pieces, q, m.value.rawStart)
    requires moved.key == m.key && moved.value.rawStart == Moved(pieces, m.value.rawStart)
    ensures KeyAt(Spliced(data, pieces), Moved(pieces, q), moved)
  {
    hide Decode, Spliced, Moved, Separated, KeyAt, IsSpace;
    KeyParts(data, q, m);
    var len := Decode(data[q + 1..], q + 1).value.len;
    SeparatorInside(data, q + 2 + len, 58, m.value.rawStart);
    ByteMoved(data, pieces, q);
    KeyTextKept(data, pieces, q + 1);
    SeparatedKept(data, pieces, q + 2 + len, 58, m.value.rawStart);
    KeyWhole(Spliced(data, pieces), Moved(pieces, q), moved, len);
  }

  lemma KeyBeforeValue(data: seq<byte>, q: int, m: Member)
    requires KeyAt(data, q, m)
    ensures 0 <= q < m.value.rawStart <= |data|
  {
    hide Decode;
  }

  lemma EntryKept(data: seq<byte>, pieces: Pieces, at: int, m: Member, moved: Member)
    requires |data| == |pieces| && Entry(data, at, m) && Kept(pieces, at, m.value.rawStart)
    requires moved.key == m.key && moved.value.rawStart == Moved(pieces, m.value.rawStart)
    ensures Entry(Spliced(data, pieces), Moved(pieces, at), moved)
  {
    var q :| Blank(data, at, q) && KeyAt(data, q, m);
    hide KeyAt, Spliced, Blank, Moved;
    BlankOrder(data, at, q);
    KeyBeforeValue(data, q, m);
    BlankKept(data, pieces, at, q);
    KeyKept(data, pieces, q, m, moved);
  }

  /** The first entry of an object does not begin with a closing brace, and still does not. */
  lemma FirstEntryKept(data: seq<byte>, pieces: Pieces, at: int, m: Member, moved: Member)
    requires |data| == |pieces| && Entry(data, at, m) && Kept(pieces, at, m.value.rawStart) && !NextIs(data, at, 125)
    requires moved.key == m.key && moved.value.rawStart == Moved(pieces, m.value.rawStart)
    ensures !NextIs(Spliced(data, pieces), Moved(pieces, at), 125)
  {
    var q :| Blank(data, at, q) && KeyAt(data, q, m);
    hide KeyAt, Spliced, Blank, Moved;
    var s := Spliced(data, pieces);
    BlankOrder(data, at, q);
    KeyBeforeValue(data, q, m);
    BlankKept(data, pieces, at, q);
    ByteMoved(data, pieces, q);
    NotNext(data, at, 125, q);
    KeyInside(data, q, m);
    if NextIs(s, Moved(pieces, at), 125) {
      var p :| Blank(s, Moved(pieces, at), p) && p < |s| && s[p] == 125;
      BlankWithin(s, Moved(pieces, at), Moved(pieces, q), p);
    }
  }

  lemma NextKept(data: seq<byte>, pieces: Pieces, at: int, m: Member, moved: Member)
    requires |data| == |pieces| && NextEntry(data, at, m) && Kept(pieces, at, m.value.rawStart)
    requires moved.key == m.key && moved.value.rawStart == Moved(pieces, m.value.rawStart)
    ensures NextEntry(Spliced(data, pieces), Moved(pieces, at), moved)
  {
    var q :| Blank(data, at, q) && q < |data| && data[q] == 44 && Entry(data, q + 1, m);
    hide Entry, NextEntry, Spliced, Blank, Moved, Kept;
    BlankOrder(data, at, q);
    EntryEnds(data, q + 1, m);
    KeptParts(pieces, at, q, m.value.rawStart);
    BlankKept(data, pieces, at, q);
    ByteMoved(data, pieces, q);
    EntryKept(data, pieces, q + 1, m, moved);
    NextWhole(Spliced(data, pieces), Moved(pieces, at), Moved(pieces, q), moved);
  }

  lemma KeptParts(pieces: Pieces, start: int, q: int, end: int)
    requires Kept(pieces, start, end) && 0 <= start <= q < end <= |pieces|
    ensures Kept(pieces, start, q) && pieces[q].None? && Kept(pieces, q + 1, end)
  {
  }

  lemma NextWhole(data: seq<byte>, at: int, q: int, m: Member)
    requires Blank(data, at, q) && q < |data| && data[q] == 44 && Entry(data, q + 1, m)
    ensures NextEntry(data, at, m)
  {
    hide Entry, Blank;
  }

  // ----- The spliced document

  lemma ValueOwner(node: JsonNode, data: seq<byte>, p: int) returns (j: nat)
    requires ReadFrom(node, data) && node.JArray? && InLeaf(node, p)
    ensures j < |node.values| && node.values[j].rawStart <= p < node.values[j].rawEnd && InLeaf(node.values[j], p)
  {
    hide ReadFrom;
    j :| 0 <= j < |node.values| && InLeaf(node.values[j], p);
    ValuesStart(node, data, j);
    LeafBytesInside(node.values[j], data, p);
  }

  /** Nothing between the values of an array is replaced, and in each value only strings and numbers are. */
  lemma ArrayKept(node: JsonNode, data: seq<byte>, pieces: Pieces, i: nat)
    requires ReadFrom(node, data) && node.JArray? && |data| == |pieces| && OnlyLeaves(node, pieces) && i < |node.values|
    ensures OnlyLeaves(node.values[i], pieces)
    ensures 0 <= node.values[i].rawEnd < |pieces| && pieces[node.values[i].rawEnd].None?
    ensures Kept(pieces, if i == 0 then node.rawStart else node.values[i - 1].rawEnd, node.values[i].rawStart)
    ensures i == |node.values| - 1 ==> Kept(pieces, node.values[i].rawEnd, node.rawEnd)
  {
    hide ReadFrom, InLeaf;
    FirstByte(node, data);
    ArrayEnd(node, data);
    ValuesBetween(node, data, i);
    if i > 0 { ValuesBetween(node, data, i - 1); }
    forall p | node.rawStart <= p < node.rawEnd && 0 <= p < |pieces| && pieces[p].Some?
      ensures node.values[i].rawStart <= p < node.values[i].rawEnd ==> InLeaf(node.values[i], p)
      ensures p < node.values[i].rawStart ==> i > 0 && p < node.values[i - 1].rawEnd
      ensures i == |node.values| - 1 ==> p < node.values[i].rawEnd
      ensures p != node.values[i].rawEnd
    {
      var j := ValueOwner(node, data, p);
      ValuesBetween(node, data, j);
      if j < i { ValuesFollow(node, data, j, i - 1); }
    }
  }

  lemma MemberOwner(node: JsonNode, data: seq<byte>, p: int) returns (j: nat)
    requires ReadFrom(node, data) && node.JObject? && InLeaf(node, p)
    ensures j < |node.members| && InLeaf(node.members[j].value, p)
    ensures node.members[j].value.rawStart <= p < node.members[j].value.rawEnd
  {
    hide ReadFrom;
    j :| 0 <= j < |node.members| && InLeaf(node.members[j].value, p);
    MembersStart(node, data, j);
    LeafBytesInside(node.members[j].value, data, p);
  }

  /** Neither keys nor anything else between the values of an object is replaced. */
  lemma ObjectKept(node: JsonNode, data: seq<byte>, pieces: Pieces, i: nat)
    requires ReadFrom(node, data) && node.JObject? && |data| == |pieces| && OnlyLeaves(node, pieces) && i < |node.members|
    ensures OnlyLeaves(node.members[i].value, pieces)
    ensures 0 <= node.members[i].value.rawEnd < |pieces| && pieces[node.members[i].value.rawEnd].None?
    ensures Kept(pieces, if i == 0 then node.rawStart else node.members[i - 1].value.rawEnd, node.members[i].value.rawStart)
    ensures i == |node.members| - 1 ==> Kept(pieces, node.members[i].value.rawEnd, node.rawEnd)
  {
    hide ReadFrom, InLeaf;
    FirstByte(node, data);
    ObjectEnd(node, data);
    MembersBetween(node, data, i);
    if i > 0 { MembersBetween(node, data, i - 1); }
    forall p | node.rawStart <= p < node.rawEnd && 0 <= p < |pieces| && pieces[p].Some?
      ensures node.members[i].value.rawStart <= p < node.members[i].value.rawEnd ==> InLeaf(node.members[i].value, p)
      ensures p < node.members[i].value.rawStart ==> i > 0 && p < node.members[i - 1].value.rawEnd
      ensures i == |node.members| - 1 ==> p < node.members[i].value.rawEnd
      ensures p != node.members[i].value.rawEnd
    {
      var j := MemberOwner(node, data, p);
      MembersBetween(node, data, j);
      if j < i { MembersFollow(node, data, j, i - 1); }
    }
  }

  lemma NoLeaves(node: JsonNode, data: seq<byte>, pieces: Pieces)
    requires ReadFrom(node, data) && OnlyLeaves(node, pieces)
    requires (node.JArray? && node.values == []) || (node.JObject? && node.members == [])
    ensures Kept(pieces, node.rawStart, node.rawEnd)
  {
    hide ReadFrom;
  }

  /** The first and the last byte of a node that is no number are always kept. */
  lemma BracketsKept(node: JsonNode, data: seq<byte>, pieces: Pieces)
    requires ReadFrom(node, data) && !node.JNumber? && |data| == |pieces| && OnlyLeaves(node, pieces)
    ensures 0 <= node.rawStart < node.rawEnd <= |data|
    ensures pieces[node.rawStart].None? && pieces[node.rawEnd - 1].None?
    ensures var s := Spliced(data, pieces);
            && 0 <= Moved(pieces, node.rawStart) < Moved(pieces, node.rawEnd) <= |s|
            && Moved(pieces, node.rawStart + 1) == Moved(pieces, node.rawStart) + 1
            && Moved(pieces, node.rawEnd - 1) == Moved(pieces, node.rawEnd) - 1
            && s[Moved(pieces, node.rawStart)] == data[node.rawStart]
            && s[Moved(pieces, node.rawEnd) - 1] == data[node.rawEnd - 1]
  {
    hide ReadFrom, InLeaf, Spliced, Width;
    FirstByte(node, data);
    if pieces[node.rawStart].Some? { LeafBytesInside(node, data, node.rawStart); }
    if pieces[node.rawEnd - 1].Some? { LeafBytesInside(node, data, node.rawEnd - 1); }
    ByteMoved(data, pieces, node.rawStart);
    ByteMoved(data, pieces, node.rawEnd - 1);
    AtSum(pieces, node.rawStart, node.rawEnd - 1);
  }

  lemma SplicedArray(node: JsonNode, data: seq<byte>, pieces: Pieces)
    requires ReadFrom(node, data) && node.JArray? && |data| == |pieces| && OnlyLeaves(node, pieces)
    requires forall i :: 0 <= i < |node.values| ==>
               ReadFrom(Respliced(node.values[i], pieces, Spliced(data, pieces)), Spliced(data, pieces))
    ensures ReadFrom(Respliced(node, pieces, Spliced(data, pieces)), Spliced(data, pieces))
  {
    hide ReadFrom, Spliced, Respliced, Blank, Separated, InLeaf, Moved;
    var s := Spliced(data, pieces);
    var values := seq(|node.values|, i requires 0 <= i < |node.values| => Respliced(node.values[i], pieces, s));
    ArrayEnd(node, data);
    BracketsKept(node, data, pieces);
    forall i | 0 <= i < |values|
      ensures i == 0 ==> Blank(s, Moved(pieces, node.rawStart) + 1, values[i].rawStart)
      ensures i > 0 ==> Separated(s, values[i - 1].rawEnd, 44, values[i].rawStart)
    {
      ArrayKept(node, data, pieces, i);
      ValuesStart(node, data, i);
      ResplicedPlace(node.values[i], pieces, s);
      if i == 0 {
        BlankKept(data, pieces, node.rawStart + 1, node.values[0].rawStart);
      } else {
        ResplicedPlace(node.values[i - 1], pieces, s);
        SeparatedKept(data, pieces, node.values[i - 1].rawEnd, 44, node.values[i].rawStart);
      }
    }
    var start, end := Moved(pieces, node.rawStart), Moved(pieces, node.rawEnd);
    assert ValuesFrom(s, start + 1, values);
    if node.values == [] {
      NoLeaves(node, data, pieces);
    } else {
      ArrayKept(node, data, pieces, |values| - 1);
      ResplicedPlace(node.values[|values| - 1], pieces, s);
    }
    BlankKept(data, pieces, LastEnd(node.rawStart + 1, node.values), node.rawEnd - 1);
    BlankOrder(s, LastEnd(start + 1, values), end - 1);
    ArrayRead(s, start, end - 1, values);
    ResplicedArray(node, pieces, s, values);
  }

  lemma ResplicedArray(node: JsonNode, pieces: Pieces, s: seq<byte>, values: seq<JsonNode>)
    requires node.JArray? && |values| == |node.values|
    requires forall i :: 0 <= i < |values| ==> values[i] == Respliced(node.values[i], pieces, s)
    ensures Respliced(node, pieces, s) == JArray(Moved(pieces, node.rawStart), Moved(pieces, node.rawEnd), values)
  {
    assert Respliced(node, pieces, s).values == values;
  }

  lemma SplicedMember(node: JsonNode, data: seq<byte>, pieces: Pieces, i: nat)
    requires ReadFrom(node, data) && node.JObject? && |data| == |pieces| && OnlyLeaves(node, pieces) && i < |node.members|
    ensures var s := Spliced(data, pieces);
            var moved := Member(node.members[i].key, Respliced(node.members[i].value, pieces, s));
            if i == 0 then Entry(s, Moved(pieces, node.rawStart) + 1, moved) && !NextIs(s, Moved(pieces, node.rawStart) + 1, 125)
            else NextEntry(s, Respliced(node.members[i - 1].value, pieces, s).rawEnd, moved)
  {
    hide ReadFrom, Spliced, Respliced, Entry, NextEntry, InLeaf, NextIs, Moved, OnlyLeaves, Kept;
    var s := Spliced(data, pieces);
    var m := node.members[i];
    var moved := Member(m.key, Respliced(m.value, pieces, s));
    ObjectKept(node, data, pieces, i);
    MembersStart(node, data, i);
    ResplicedPlace(m.value, pieces, s);
    if i == 0 {
      BracketsKept(node, data, pieces);
      KeptBehind(pieces, node.rawStart, m.value.rawStart);
      EntryKept(data, pieces, node.rawStart + 1, m, moved);
      FirstEntryKept(data, pieces, node.rawStart + 1, m, moved);
    } else {
      ResplicedPlace(node.members[i - 1].value, pieces, s);
      NextKept(data, pieces, node.members[i - 1].value.rawEnd, m, moved);
    }
  }

  lemma KeptEnd(pieces: Pieces, from: int, start: int, end: int)
    requires Kept(pieces, from, end) || (start <= from && Kept(pieces, start, end))
    ensures Kept(pieces, from, end - 1)
  {
  }

  lemma KeptBehind(pieces: Pieces, start: int, end: int)
    requires Kept(pieces, start, end)
    ensures Kept(pieces, start + 1, end)
  {
  }

  /** Behind the last member nothing is replaced. */
  lemma ObjectTail(node: JsonNode, data: seq<byte>, pieces: Pieces)
    requires ReadFrom(node, data) && node.JObject? && |data| == |pieces| && OnlyLeaves(node, pieces)
    ensures Blank(Spliced(data, pieces), Moved(pieces, LastMemberEnd(node.rawStart + 1, node.members)), Moved(pieces, node.rawEnd) - 1)
  {
    hide ReadFrom, Spliced, Blank, InLeaf, Moved, OnlyLeaves, Kept;
    ObjectEnd(node, data);
    BracketsKept(node, data, pieces);
    if node.members == [] {
      NoLeaves(node, data, pieces);
    } else {
      ObjectKept(node, data, pieces, |node.members| - 1);
    }
    KeptEnd(pieces, LastMemberEnd(node.rawStart + 1, node.members), node.rawStart, node.rawEnd);
    BlankKept(data, pieces, LastMemberEnd(node.rawStart + 1, node.members), node.rawEnd - 1);
  }

  ghost function MovedMembers(node: JsonNode, pieces: Pieces, s: seq<byte>): (r: seq<Member>)
    requires node.JObject?
    ensures |r| == |node.members|
  {
    seq(|node.members|, i requires 0 <= i < |node.members| =>
      Member(node.members[i].key, Respliced(node.members[i].value, pieces, s)))
  }

  lemma MovedMember(node: JsonNode, pieces: Pieces, s: seq<byte>, i: nat)
    requires node.JObject? && i < |node.members|
    ensures MovedMembers(node, pieces, s)[i] == Member(node.members[i].key, Respliced(node.members[i].value, pieces, s))
  {
    hide Respliced;
  }

  lemma SplicedEntries(node: JsonNode, data: seq<byte>, pieces: Pieces)
    requires ReadFrom(node, data) && node.JObject? && |data| == |pieces| && OnlyLeaves(node, pieces)
    ensures var s := Spliced(data, pieces); EntriesFrom(s, Moved(pieces, node.rawStart) + 1, MovedMembers(node, pieces, s))
  {
    hide ReadFrom, Spliced, Respliced, Blank, Entry, NextEntry, InLeaf, NextIs, Moved, OnlyLeaves, Kept;
    var s, start := Spliced(data, pieces), Moved(pieces, node.rawStart);
    var members := MovedMembers(node, pieces, s);
    forall i | 0 <= i < |members|
      ensures i == 0 ==> Entry(s, start + 1, members[i]) && !NextIs(s, start + 1, 125)
      ensures i > 0 ==> NextEntry(s, members[i - 1].value.rawEnd, members[i])
    {
      SplicedMember(node, data, pieces, i);
    }
  }

  lemma SplicedObject(node: JsonNode, data: seq<byte>, pieces: Pieces)
    requires ReadFrom(node, data) && node.JObject? && |data| == |pieces| && OnlyLeaves(node, pieces)
    requires var s := Spliced(data, pieces);
             forall m :: m in MovedMembers(node, pieces, s) ==> ReadFrom(m.value, s)
    ensures ReadFrom(Respliced(node, pieces, Spliced(data, pieces)), Spliced(data, pieces))
  {
    hide *;
    var s := Spliced(data, pieces);
    var start, end := Moved(pieces, node.rawStart), Moved(pieces, node.rawEnd);
    var members := MovedMembers(node, pieces, s);
    BracketsKept(node, data, pieces);
    ObjectEnd(node, data);
    SplicedEntries(node, data, pieces);
    ObjectTail(node, data, pieces);
    MovedEnd(node, pieces, s);
    BlankOrder(s, LastMemberEnd(start + 1, members), end - 1);
    ObjectRead(s, start, end - 1, members);
    ResplicedObject(node, pieces, s);
  }

  lemma MovedEnd(node: JsonNode, pieces: Pieces, s: seq<byte>)
    requires node.JObject? && Moved(pieces, node.rawStart + 1) == Moved(pieces, node.rawStart) + 1
    ensures LastMemberEnd(Moved(pieces, node.rawStart) + 1, MovedMembers(node, pieces, s))
         == Moved(pieces, LastMemberEnd(node.rawStart + 1, node.members))
  {
    hide Moved, Respliced;
    if node.members != [] {
      ResplicedPlace(node.members[|node.members| - 1].value, pieces, s);
    }
  }

  lemma ResplicedObject(node: JsonNode, pieces: Pieces, s: seq<byte>)
    requires node.JObject?
    ensures Respliced(node, pieces, s)
            == JObject(Moved(pieces, node.rawStart), Moved(pieces, node.rawEnd), MovedMembers(node, pieces, s))
  {
    assert Respliced(node, pieces, s).members == MovedMembers(node, pieces, s);
  }

  predicate IsWord(node: JsonNode) { node.JBool? || node.JNull? }

  /** Words are kept byte for byte. */
  lemma SplicedWord(node: JsonNode, data: seq<byte>, pieces: Pieces)
    requires ReadFrom(node, data) && IsWord(node) && |data| == |pieces|
    requires OnlyLeaves(node, pieces)
    ensures ReadFrom(Respliced(node, pieces, Spliced(data, pieces)), Spliced(data, pieces))
  {
    hide ReadFrom, Spliced, Moved, Kept, StandsAt, Respliced, OnlyLeaves;
    var s := Spliced(data, pieces);
    WordKept(node, data, pieces);
    ResplicedWord(node, pieces, s);
    WordMoved(node, data, s, Moved(pieces, node.rawStart));
  }

  lemma ResplicedWord(node: JsonNode, pieces: Pieces, s: seq<byte>)
    requires IsWord(node)
    ensures var at, end := Moved(pieces, node.rawStart), Moved(pieces, node.rawEnd);
            Respliced(node, pieces, s) == if node.JBool? then JBool(at, end) else JNull(at, end)
  {
    hide Moved;
  }

  lemma NothingInWord(node: JsonNode, pieces: Pieces)
    requires IsWord(node) && OnlyLeaves(node, pieces)
    ensures Kept(pieces, node.rawStart, node.rawEnd)
  {
  }

  lemma WordKept(node: JsonNode, data: seq<byte>, pieces: Pieces)
    requires ReadFrom(node, data) && IsWord(node) && |data| == |pieces|
    requires OnlyLeaves(node, pieces)
    ensures Moved(pieces, node.rawEnd) == Moved(pieces, node.rawStart) + (node.rawEnd - node.rawStart)
    ensures StandsAt(data, node.rawStart, node.rawEnd, Spliced(data, pieces), Moved(pieces, node.rawStart))
  {
    hide ReadFrom, Spliced, At, Width, OnlyLeaves, Kept;
    FirstByte(node, data);
    NothingInWord(node, pieces);
    KeptPart(data, pieces, node.rawStart, node.rawEnd);
  }

  /** The bytes of data from start up to end stand at `at` in s. */
  predicate StandsAt(data: seq<byte>, start: int, end: int, s: seq<byte>, at: int) {
    0 <= start <= end <= |data| && 0 <= at && at + (end - start) <= |s| && s[at..at + (end - start)] == data[start..end]
  }

  lemma WordMoved(node: JsonNode, data: seq<byte>, s: seq<byte>, at: int)
    requires ReadFrom(node, data) && IsWord(node) && StandsAt(data, node.rawStart, node.rawEnd, s, at)
    ensures var end := at + (node.rawEnd - node.rawStart);
            ReadFrom(if node.JBool? then JBool(at, end) else JNull(at, end), s)
  {
  }

  // ----- Numbers

  /** Bytes that neither end a number nor begin another kind of value. */
  predicate RunsOn(x: seq<byte>) { forall i :: 0 <= i < |x| ==> !IsValueDelimiter(x[i]) && !Opens(x[i]) }

  /** What takes the place of bytes of a number runs on, and the first byte does not vanish. */
  predicate NumberFits(start: int, end: int, pieces: Pieces) {
    && (forall p :: start <= p < end && 0 <= p < |pieces| && pieces[p].Some? ==> RunsOn(pieces[p].value))
    && (0 <= start < |pieces| && pieces[start].Some? ==> pieces[start].value != [])
  }

  /** So it is in every number of the tree. */
  ghost predicate NumbersFit(node: JsonNode, pieces: Pieces) {
    match node
    case JObject(_, _, members) => forall i :: 0 <= i < |members| ==> NumbersFit(members[i].value, pieces)
    case JArray(_, _, values) => forall i :: 0 <= i < |values| ==> NumbersFit(values[i], pieces)
    case JNumber(start, end, _, _) => NumberFits(start, end, pieces)
    case _ => true
  }

  lemma {:induction false} RunSpliced(data: seq<byte>, pieces: Pieces)
    requires |data| == |pieces| && (forall i :: 0 <= i < |data| ==> !IsValueDelimiter(data[i]))
    requires forall i :: 0 <= i < |pieces| && pieces[i].Some? ==> RunsOn(pieces[i].value)
    ensures forall i :: 0 <= i < |Spliced(data, pieces)| ==> !IsValueDelimiter(Spliced(data, pieces)[i])
  {
    if data != [] {
      RunSpliced(data[1..], pieces[1..]);
    }
  }

  lemma RunStarts(data: seq<byte>, pieces: Pieces)
    requires |data| == |pieces| && data != [] && !Opens(data[0])
    requires pieces[0].Some? ==> RunsOn(pieces[0].value) && pieces[0].value != []
    ensures Spliced(data, pieces) != [] && !Opens(Spliced(data, pieces)[0])
  {
  }

  lemma NumberParts(node: JsonNode, data: seq<byte>)
    requires ReadFrom(node, data) && node.JNumber?
    ensures 0 <= node.rawStart < node.rawEnd <= |data| && node.text == data[node.rawStart..node.rawEnd]
    ensures !Opens(data[node.rawStart]) && Run(data, node.rawStart, node.rawEnd)
  {
  }

  lemma NumberRead(data: seq<byte>, start: int, end: int)
    requires 0 <= start < end <= |data| && !Opens(data[start]) && Run(data, start, end)
    ensures ReadFrom(JNumber(start, end, data[start..end], SelfRanges(start, |data[start..end]|)), data)
  {
  }

  /** The spliced part between start and end. */
  lemma SplicedPart(data: seq<byte>, pieces: Pieces, start: int, end: int)
    requires |data| == |pieces| && 0 <= start <= end <= |data|
    ensures At(pieces, start) <= At(pieces, end) <= |Spliced(data, pieces)|
    ensures Spliced(data, pieces)[At(pieces, start)..At(pieces, end)] == Spliced(data[start..end], pieces[start..end])
  {
    hide Spliced, Width, At;
    SplicedSplit(data, pieces, start);
    Front(data, pieces, start, end - start);
    SplicedSplit(data, pieces, end);
    AtSum(pieces, start, end);
    var s := Spliced(data, pieces);
    assert s[At(pieces, start)..][..At(pieces, end) - At(pieces, start)] == s[At(pieces, start)..At(pieces, end)];
  }

  lemma PartPieces(pieces: Pieces, start: int, end: int)
    requires 0 <= start < end <= |pieces| && NumberFits(start, end, pieces)
    ensures var part := pieces[start..end];
            && (forall i :: 0 <= i < |part| && part[i].Some? ==> RunsOn(part[i].value))
            && (part[0].Some? ==> part[0].value != [])
  {
    forall i | 0 <= i < |pieces[start..end]| && pieces[start..end][i].Some? ensures RunsOn(pieces[start..end][i].value) {
      assert pieces[start..end][i] == pieces[start + i];
    }
  }

  lemma PartRuns(data: seq<byte>, start: int, end: int)
    requires Run(data, start, end)
    ensures forall i :: 0 <= i < |data[start..end]| ==> !IsValueDelimiter(data[start..end][i])
  {
  }

  lemma RunEnds(data: seq<byte>, start: int, end: int)
    requires 0 <= start <= end <= |data| && forall i :: 0 <= i < |data[start..end]| ==> !IsValueDelimiter(data[start..end][i])
    requires end < |data| ==> IsValueDelimiter(data[end])
    ensures Run(data, start, end)
  {
    forall i | start <= i < end ensures !IsValueDelimiter(data[i]) {
      assert data[start..end][i - start] == data[i];
    }
  }

  /** A number in which bytes are replaced is still read as one, syntax aside. */
  lemma SplicedNumber(node: JsonNode, data: seq<byte>, pieces: Pieces)
    requires ReadFrom(node, data) && node.JNumber? && |data| == |pieces| && NumberFits(node.rawStart, node.rawEnd, pieces)
    requires node.rawEnd < |data| ==> pieces[node.rawEnd].None?
    ensures ReadFrom(Respliced(node, pieces, Spliced(data, pieces)), Spliced(data, pieces))
  {
    hide ReadFrom, Spliced, At, Width, Respliced, NumberFits, RunsOn, Run, Opens, IsValueDelimiter;
    var start, end := node.rawStart, node.rawEnd;
    NumberParts(node, data);
    var s, at, to := Spliced(data, pieces), At(pieces, start), At(pieces, end);
    SplicedPart(data, pieces, start, end);
    PartPieces(pieces, start, end);
    PartRuns(data, start, end);
    RunSpliced(data[start..end], pieces[start..end]);
    assert data[start..end][0] == data[start];
    RunStarts(data[start..end], pieces[start..end]);
    assert s[at..to][0] == s[at];
    if end < |data| {
      RunDelimited(data, start, end);
      KeptByte(data, pieces, end);
    } else {
      AtEnds(data, pieces);
    }
    RunEnds(s, at, to);
    NumberRead(s, at, to);
    ResplicedNumber(node, pieces, s);
  }

  lemma RunDelimited(data: seq<byte>, start: int, end: int)
    requires Run(data, start, end) && end < |data|
    ensures IsValueDelimiter(data[end])
  {
  }

  lemma ResplicedNumber(node: JsonNode, pieces: Pieces, s: seq<byte>)
    requires node.JNumber?
    ensures var start, end := Moved(pieces, node.rawStart), Moved(pieces, node.rawEnd);
            var text := TextAt(s, start, end);
            Respliced(node, pieces, s) == JNumber(start, end, text, SelfRanges(start, |text|))
  {
    hide Moved, TextAt;
  }

  // ----- Strings

  lemma SplicedString(node: JsonNode, data: seq<byte>, pieces: Pieces)
    requires ReadFrom(node, data) && node.JString? && |data| == |pieces| && OnlyLeaves(node, pieces)
    requires WholeStrings(node, data, Changed(pieces)) && AllHarmless(pieces)
    ensures ReadFrom(Respliced(node, pieces, Spliced(data, pieces)), Spliced(data, pieces))
  {
    hide ReadFrom, Spliced, Respliced, Moved, OnlyLeaves, WholeStrings, AllHarmless, Changed, Decode;
    var s := Spliced(data, pieces);
    var at := Moved(pieces, node.rawStart);
    StringParts(node, data);
    BracketsKept(node, data, pieces);
    ContentSpliced(node, data, pieces);
    ResplicedString(node, pieces, s);
    StringRead(s, at, Reread(s, at + 1));
  }

  /** The content is read again, up to where its closing quote ends up. */
  lemma ContentSpliced(node: JsonNode, data: seq<byte>, pieces: Pieces)
    requires ReadFrom(node, data) && node.JString? && |data| == |pieces| && OnlyLeaves(node, pieces)
    requires WholeStrings(node, data, Changed(pieces)) && AllHarmless(pieces)
    ensures var s, at := Spliced(data, pieces), Moved(pieces, node.rawContentStart);
            && 0 <= at <= |s| && Decode(s[at..], at) == Some(Reread(s, at))
            && Moved(pieces, node.rawContentEnd) == at + Reread(s, at).len
  {
    hide ReadFrom, Spliced, At, Width, OnlyLeaves, WholeStrings, AllHarmless, Changed, Decode, WholeEscapes, Closes;
    StringParts(node, data);
    StringEscapes(node, data, Changed(pieces));
    var c, e := node.rawContentStart, node.rawContentEnd;
    var s := Spliced(data, pieces);
    BracketsKept(node, data, pieces);
    DecodeCloses(data[c..], c);
    ClosesSpliced(data, pieces, c);
    SplicedSplit(data, pieces, c);
    DecodeCloses(s[At(pieces, c)..], At(pieces, c));
    AtSum(pieces, c, e);
  }

  lemma StringEscapes(node: JsonNode, data: seq<byte>, cover: iset<int>)
    requires node.JString? && WholeStrings(node, data, cover)
    ensures 0 <= node.rawContentStart <= |data| && WholeEscapes(data[node.rawContentStart..], node.rawContentStart, cover)
  {
    hide WholeEscapes;
  }

  lemma ResplicedString(node: JsonNode, pieces: Pieces, s: seq<byte>)
    requires node.JString?
    ensures var read := Reread(s, Moved(pieces, node.rawContentStart));
            Respliced(node, pieces, s)
            == JString(Moved(pieces, node.rawStart), Moved(pieces, node.rawEnd), Moved(pieces, node.rawContentStart),
                       Moved(pieces, node.rawContentEnd), read.out, read.ranges)
  {
    hide Moved, Reread;
  }

  lemma StringParts(node: JsonNode, data: seq<byte>)
    requires ReadFrom(node, data) && node.JString?
    ensures 0 <= node.rawStart && node.rawContentStart == node.rawStart + 1 <= node.rawContentEnd == node.rawEnd - 1 < |data|
    ensures data[node.rawStart] == QUOTE && Decode(data[node.rawContentStart..], node.rawContentStart).Some?
    ensures node.rawContentStart + Decode(data[node.rawContentStart..], node.rawContentStart).value.len == node.rawContentEnd
  {
    hide Decode;
  }

  lemma StringRead(data: seq<byte>, start: int, d: Unquoted)
    requires 0 <= start && start + 1 + d.len < |data| && data[start] == QUOTE
    requires Decode(data[start + 1..], start + 1) == Some(d)
    ensures ReadFrom(JString(start, start + 2 + d.len, start + 1, start + 1 + d.len, d.out, d.ranges), data)
  {
    hide Decode;
  }

  /** Replacing content of strings by harmless bytes, escapes as a whole, and bytes of numbers by bytes that run on, keeps the
      document: the result spells the same tree, moved, with its strings and numbers read again. */
  lemma {:induction false} SplicedReads(node: JsonNode, data: seq<byte>, pieces: Pieces)
    requires ReadFrom(node, data) && |data| == |pieces| && AllHarmless(pieces)
    requires OnlyLeaves(node, pieces) && WholeStrings(node, data, Changed(pieces)) && NumbersFit(node, pieces)
    requires node.rawEnd < |data| ==> pieces[node.rawEnd].None?
    ensures ReadFrom(Respliced(node, pieces, Spliced(data, pieces)), Spliced(data, pieces))
  {
    hide ReadFrom, Spliced, Respliced, OnlyLeaves, AllHarmless, Changed, NumberFits;
    var s := Spliced(data, pieces);
    match node
    case JObject(_, _, members) =>
      var moved := MovedMembers(node, pieces, s);
      forall i | 0 <= i < |members| ensures ReadFrom(moved[i].value, s) {
        ObjectKept(node, data, pieces, i);
        MembersStart(node, data, i);
        SplicedReads(members[i].value, data, pieces);
        MovedMember(node, pieces, s, i);
      }
      SplicedObject(node, data, pieces);
    case JArray(_, _, values) =>
      forall i | 0 <= i < |values| ensures ReadFrom(Respliced(values[i], pieces, s), s) {
        ArrayKept(node, data, pieces, i);
        ValuesStart(node, data, i);
        SplicedReads(values[i], data, pieces);
      }
      SplicedArray(node, data, pieces);
    case JString(_, _, _, _, _, _) => SplicedString(node, data, pieces);
    case JNumber(_, _, _, _) => SplicedNumber(node, data, pieces);
    case _ => SplicedWord(node, data, pieces);
  }

  /** The whole document. */
  lemma SplicedDocument(root: JsonNode, data: seq<byte>, pieces: Pieces)
    requires Document(root, data) && |data| == |pieces| && AllHarmless(pieces)
    requires forall p :: 0 <= p < |pieces| && pieces[p].Some? ==> InLeaf(root, p)
    requires WholeStrings(root, data, Changed(pieces)) && NumbersFit(root, pieces)
    ensures Document(Respliced(root, pieces, Spliced(data, pieces)), Spliced(data, pieces))
  {
    hide ReadFrom, InLeaf, Spliced, Respliced, Blank, Changed, AllHarmless, WholeStrings, NumbersFit, At, Width;
    FirstByte(root, data);
    forall p | 0 <= p < |pieces| && pieces[p].Some? ensures root.rawStart <= p < root.rawEnd {
      LeafBytesInside(root, data, p);
    }
    SplicedReads(root, data, pieces);
    ResplicedPlace(root, pieces, Spliced(data, pieces));
    BlankKept(data, pieces, 0, root.rawStart);
    BlankKept(data, pieces, root.rawEnd, |data|);
    AtEnds(data, pieces);
  }
}
