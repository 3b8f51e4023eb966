/** When a document in which bytes were replaced still passes the syntax check. */
module SyntaxSplice {
  import opened Bytes
  import opened JsonString
  import opened JsonGrammar
  import opened Splice
  import opened LiteralSplice
  import opened DocumentSplice
  import opened JsonSyntax

  /** Byte p belongs to a number of the tree. */
  ghost predicate InNumber(node: JsonNode, p: int) {
    match node
    case JObject(_, _, members) => exists i :: 0 <= i < |members| && InNumber(members[i].value, p)
    case JArray(_, _, values) => exists i :: 0 <= i < |values| && InNumber(values[i], p)
    case JNumber(start, end, _, _) => start <= p < end
    case _ => false
  }

  // ----- Keys

  lemma KeyCloses(data: seq<byte>, q: int, m: Member)
    requires KeyAt(data, q, m)
    ensures 0 <= q < |data| && Closes(data[q + 1..]).Some? && q + 1 + Closes(data[q + 1..]).value < m.value.rawStart <= |data|
  {
    hide Decode, Closes;
    DecodeCloses(data[q + 1..], q + 1);
  }

  lemma KeyConforms(data: seq<byte>, pieces: Pieces, q: int, m: Member)
    requires |data| == |pieces| && KeyAt(data, q, m) && ConformingText(data[q + 1..]) && Kept(pieces, q, m.value.rawStart)
    ensures 0 <= Moved(pieces, q) < |Spliced(data, pieces)|
    ensures Spliced(data, pieces)[Moved(pieces, q)] == data[q] && ConformingText(Spliced(data, pieces)[Moved(pieces, q) + 1..])
  {
    hide KeyAt, Closes, ConformingText, Spliced, At, Width;
    KeyCloses(data, q, m);
    ByteMoved(data, pieces, q);
    var c, end := q + 1, q + 1 + Closes(data[q + 1..]).value;
    KeptPart(data, pieces, c, end + 1);
    var s, at := Spliced(data, pieces), At(pieces, c);
    assert data[c..][..end + 1 - c] == data[c..end + 1] == s[at..at + (end + 1 - c)] == s[at..][..end + 1 - c];
    TextPrefix(data[c..], s[at..]);
  }

  lemma EntryConforms(data: seq<byte>, pieces: Pieces, at: int, m: Member, moved: Member)
    requires |data| == |pieces| && ConformingEntry(data, at, m) && Kept(pieces, at, m.value.rawStart)
    requires moved.key == m.key && moved.value.rawStart == Moved(pieces, m.value.rawStart)
    ensures ConformingEntry(Spliced(data, pieces), Moved(pieces, at), moved)
  {
    hide *;
    var q := EntryStart(data, at, m);
    BlankOrder(data, at, q);
    KeyBeforeValue(data, q, m);
    KeptFrom(pieces, at, q, m.value.rawStart);
    BlankKept(data, pieces, at, q);
    KeyKept(data, pieces, q, m, moved);
    KeyConforms(data, pieces, q, m);
    EntryWholeConforms(Spliced(data, pieces), Moved(pieces, at), Moved(pieces, q), moved);
  }

  lemma EntryStart(data: seq<byte>, at: int, m: Member) returns (q: int)
    requires ConformingEntry(data, at, m)
    ensures Blank(data, at, q) && KeyAt(data, q, m) && 0 <= q < |data| && data[q] == QUOTE && ConformingText(data[q + 1..])
  {
    hide ConformingText, Decode;
    q :| Blank(data, at, q) && KeyAt(data, q, m) && data[q] == QUOTE && ConformingText(data[q + 1..]);
    KeyCloses(data, q, m);
  }

  lemma KeptFrom(pieces: Pieces, start: int, q: int, end: int)
    requires Kept(pieces, start, end) && start <= q <= end
    ensures Kept(pieces, start, q) && Kept(pieces, q, end)
  {
  }

  lemma EntryWholeConforms(data: seq<byte>, at: int, q: int, m: Member)
    requires Blank(data, at, q) && KeyAt(data, q, m) && data[q] == QUOTE && ConformingText(data[q + 1..])
    ensures ConformingEntry(data, at, m)
  {
    hide KeyAt, Blank, ConformingText;
  }

  lemma ConformingIsEntry(data: seq<byte>, at: int, m: Member)
    requires ConformingEntry(data, at, m)
    ensures Entry(data, at, m)
  {
    hide KeyAt, Blank;
  }

  lemma NextConforms(data: seq<byte>, pieces: Pieces, at: int, m: Member, moved: Member)
    requires |data| == |pieces| && ConformingNext(data, at, m) && Kept(pieces, at, m.value.rawStart)
    requires moved.key == m.key && moved.value.rawStart == Moved(pieces, m.value.rawStart)
    ensures ConformingNext(Spliced(data, pieces), Moved(pieces, at), moved)
  {
    hide *;
    var q := NextStart(data, at, m);
    BlankOrder(data, at, q);
    ConformingIsEntry(data, q + 1, m);
    EntryEnds(data, q + 1, m);
    KeptParts(pieces, at, q, m.value.rawStart);
    BlankKept(data, pieces, at, q);
    ByteMoved(data, pieces, q);
    EntryConforms(data, pieces, q + 1, m, moved);
    NextWholeConforms(Spliced(data, pieces), Moved(pieces, at), Moved(pieces, q), moved);
  }

  lemma NextStart(data: seq<byte>, at: int, m: Member) returns (q: int)
    requires ConformingNext(data, at, m)
    ensures Blank(data, at, q) && q < |data| && data[q] == 44 && ConformingEntry(data, q + 1, m)
  {
    hide ConformingEntry;
    q :| Blank(data, at, q) && q < |data| && data[q] == 44 && ConformingEntry(data, q + 1, m);
  }

  lemma NextWholeConforms(data: seq<byte>, at: int, q: int, m: Member)
    requires Blank(data, at, q) && q < |data| && data[q] == 44 && ConformingEntry(data, q + 1, m)
    ensures ConformingNext(data, at, m)
  {
    hide ConformingEntry, Blank;
  }

  lemma ConformingKey(node: JsonNode, data: seq<byte>, i: nat)
    requires node.JObject? && i < |node.members| && Conforms(node, data)
    ensures i == 0 ==> ConformingEntry(data, node.rawStart + 1, node.members[i])
    ensures i > 0 ==> ConformingNext(data, node.members[i - 1].value.rawEnd, node.members[i])
  {
    hide ConformingEntry, ConformingNext;
  }

  lemma KeysConform(node: JsonNode, data: seq<byte>, pieces: Pieces, i: nat)
    requires ReadFrom(node, data) && node.JObject? && |data| == |pieces| && OnlyLeaves(node, pieces) && i < |node.members|
    requires Conforms(node, data)
    ensures var s := Spliced(data, pieces);
            var moved := Member(node.members[i].key, Respliced(node.members[i].value, pieces, s));
            && (i == 0 ==> ConformingEntry(s, Moved(pieces, node.rawStart) + 1, moved))
            && (i > 0 ==> ConformingNext(s, Respliced(node.members[i - 1].value, pieces, s).rawEnd, moved))
  {
    hide *;
    ConformingKey(node, data, i);
    if i == 0 {
      FirstKeyConforms(node, data, pieces);
    } else {
      LaterKeyConforms(node, data, pieces, i);
    }
  }

  lemma FirstKeyConforms(node: JsonNode, data: seq<byte>, pieces: Pieces)
    requires ReadFrom(node, data) && node.JObject? && |data| == |pieces| && OnlyLeaves(node, pieces) && node.members != []
    requires ConformingEntry(data, node.rawStart + 1, node.members[0])
    ensures var s := Spliced(data, pieces);
            var moved := Member(node.members[0].key, Respliced(node.members[0].value, pieces, s));
            ConformingEntry(s, Moved(pieces, node.rawStart) + 1, moved)
  {
    hide *;
    var s, m := Spliced(data, pieces), node.members[0];
    ObjectKept(node, data, pieces, 0);
    ResplicedPlace(m.value, pieces, s);
    BracketsKept(node, data, pieces);
    KeptBehind(pieces, node.rawStart, m.value.rawStart);
    EntryConforms(data, pieces, node.rawStart + 1, m, Member(m.key, Respliced(m.value, pieces, s)));
  }

  lemma LaterKeyConforms(node: JsonNode, data: seq<byte>, pieces: Pieces, i: nat)
    requires ReadFrom(node, data) && node.JObject? && |data| == |pieces| && OnlyLeaves(node, pieces) && 0 < i < |node.members|
    requires ConformingNext(data, node.members[i - 1].value.rawEnd, node.members[i])
    ensures var s := Spliced(data, pieces);
            var moved := Member(node.members[i].key, Respliced(node.members[i].value, pieces, s));
            ConformingNext(s, Respliced(node.members[i - 1].value, pieces, s).rawEnd, moved)
  {
    hide *;
    var s, m := Spliced(data, pieces), node.members[i];
    ObjectKept(node, data, pieces, i);
    ResplicedPlace(m.value, pieces, s);
    ResplicedPlace(node.members[i - 1].value, pieces, s);
    NextConforms(data, pieces, node.members[i - 1].value.rawEnd, m, Member(m.key, Respliced(m.value, pieces, s)));
  }

  // ----- Documents that still conform

  lemma StringConforms(node: JsonNode, data: seq<byte>, pieces: Pieces)
    requires ReadFrom(node, data) && node.JString? && |data| == |pieces| && OnlyLeaves(node, pieces)
    requires Conforms(node, data) && WholeStrings(node, data, Changed(pieces)) && AllHarmless(pieces) && AllPrintable(pieces)
    ensures Conforms(Respliced(node, pieces, Spliced(data, pieces)), Spliced(data, pieces))
  {
    hide ReadFrom, Spliced, At, Width, OnlyLeaves, WholeStrings, AllHarmless, AllPrintable, Changed, Decode, WholeEscapes, Closes,
         Respliced, ConformingText;
    StringParts(node, data);
    StringEscapes(node, data, Changed(pieces));
    var c := node.rawContentStart;
    BracketsKept(node, data, pieces);
    DecodeCloses(data[c..], c);
    TextSpliced(data, pieces, c);
    SplicedSplit(data, pieces, c);
    ResplicedString(node, pieces, Spliced(data, pieces));
  }

  /** A number that is not touched is read as it was. */
  lemma NumberKept(node: JsonNode, data: seq<byte>, pieces: Pieces)
    requires ReadFrom(node, data) && node.JNumber? && |data| == |pieces| && Kept(pieces, node.rawStart, node.rawEnd)
    ensures var s := Spliced(data, pieces); Respliced(node, pieces, s).JNumber? && Respliced(node, pieces, s).text == node.text
  {
    hide ReadFrom, Spliced, At, Width, Respliced, Kept;
    NumberParts(node, data);
    KeptPart(data, pieces, node.rawStart, node.rawEnd);
    ResplicedNumber(node, pieces, Spliced(data, pieces));
  }

  lemma PartsConform(node: JsonNode, data: seq<byte>)
    requires node.JArray? && forall i :: 0 <= i < |node.values| ==> Conforms(node.values[i], data)
    ensures Conforms(node, data)
  {
  }

  lemma MembersConform(node: JsonNode, data: seq<byte>)
    requires node.JObject? && forall i :: 0 <= i < |node.members| ==> Conforms(node.members[i].value, data)
    requires node.members != [] ==> ConformingEntry(data, node.rawStart + 1, node.members[0])
    requires forall i :: 0 < i < |node.members| ==> ConformingNext(data, node.members[i - 1].value.rawEnd, node.members[i])
    ensures Conforms(node, data)
  {
    hide ConformingEntry, ConformingNext;
  }

  /** If no number is touched, the document still conforms. */
  lemma {:induction false} SplicedConforms(node: JsonNode, data: seq<byte>, pieces: Pieces)
    requires ReadFrom(node, data) && Conforms(node, data)
    requires |data| == |pieces| && AllHarmless(pieces) && AllPrintable(pieces)
    requires OnlyLeaves(node, pieces) && WholeStrings(node, data, Changed(pieces))
    requires forall p :: 0 <= p < |pieces| && pieces[p].Some? ==> !InNumber(node, p)
    ensures Conforms(Respliced(node, pieces, Spliced(data, pieces)), Spliced(data, pieces))
  {
    hide ReadFrom, Spliced, Respliced, OnlyLeaves, AllHarmless, AllPrintable, Changed, Moved, ConformingEntry, ConformingNext,
         ConformingText;
    var s := Spliced(data, pieces);
    match node
    case JObject(_, _, members) =>
      var moved := MovedMembers(node, pieces, s);
      forall i | 0 <= i < |members| ensures Conforms(moved[i].value, s) {
        ObjectKept(node, data, pieces, i);
        MembersStart(node, data, i);
        MovedMember(node, pieces, s, i);
        SplicedConforms(members[i].value, data, pieces);
      }
      ResplicedObject(node, pieces, s);
      forall i | 0 <= i < |members|
        ensures i == 0 ==> ConformingEntry(s, Moved(pieces, node.rawStart) + 1, moved[i])
        ensures i > 0 ==> ConformingNext(s, moved[i - 1].value.rawEnd, moved[i])
      {
        KeysConform(node, data, pieces, i);
        MovedMember(node, pieces, s, i);
        if i > 0 { MovedMember(node, pieces, s, i - 1); }
      }
      MembersConform(Respliced(node, pieces, s), s);
    case JArray(_, _, values) =>
      var moved := seq(|values|, i requires 0 <= i < |values| => Respliced(values[i], pieces, s));
      forall i | 0 <= i < |values| ensures Conforms(moved[i], s) {
        ArrayKept(node, data, pieces, i);
        ValuesStart(node, data, i);
        SplicedConforms(values[i], data, pieces);
      }
      ResplicedArray(node, pieces, s, moved);
      PartsConform(Respliced(node, pieces, s), s);
    case JString(_, _, _, _, _, _) => StringConforms(node, data, pieces);
    case JNumber(_, _, _, _) => NumberKept(node, data, pieces);
    case _ => ResplicedWord(node, pieces, s);
  }

  // ----- Documents that do not

  /** Holds a byte that no number holds. */
  predicate Spoils(x: seq<byte>) { !NumberBytes(x) }

  lemma {:induction false} PartSpoiled(data: seq<byte>, pieces: Pieces, i: nat)
    requires |data| == |pieces| && i < |pieces| && pieces[i].Some? && Spoils(pieces[i].value)
    ensures Spoils(Spliced(data, pieces))
  {
    var s, front, rest := Spliced(data, pieces), Replacement(data[0], pieces[0]), Spliced(data[1..], pieces[1..]);
    assert s == front + rest;
    if i == 0 {
      var k :| 0 <= k < |front| && !NumberByte(front[k]);
      assert s[k] == front[k];
    } else {
      PartSpoiled(data[1..], pieces[1..], i - 1);
      var k :| 0 <= k < |rest| && !NumberByte(rest[k]);
      assert s[|front| + k] == rest[k];
    }
  }

  lemma NumberSpoiled(node: JsonNode, data: seq<byte>, pieces: Pieces, p: int)
    requires ReadFrom(node, data) && node.JNumber? && |data| == |pieces|
    requires node.rawStart <= p < node.rawEnd && pieces[p].Some? && Spoils(pieces[p].value)
    ensures !Conforms(Respliced(node, pieces, Spliced(data, pieces)), Spliced(data, pieces))
  {
    hide ReadFrom, Spliced, At, Width, Respliced, IsNumber;
    var start, end := node.rawStart, node.rawEnd;
    NumberParts(node, data);
    SplicedPart(data, pieces, start, end);
    assert pieces[start..end][p - start] == pieces[p];
    PartSpoiled(data[start..end], pieces[start..end], p - start);
    ResplicedNumber(node, pieces, Spliced(data, pieces));
    var text := Spliced(data[start..end], pieces[start..end]);
    if IsNumber(text) { NumberIsBytes(text); }
  }

  /** One spoiled number spoils the document. */
  lemma {:induction false} SplicedSpoiled(node: JsonNode, data: seq<byte>, pieces: Pieces, p: int)
    requires ReadFrom(node, data) && |data| == |pieces|
    requires 0 <= p < |pieces| && InNumber(node, p) && pieces[p].Some? && Spoils(pieces[p].value)
    ensures !Conforms(Respliced(node, pieces, Spliced(data, pieces)), Spliced(data, pieces))
  {
    hide ReadFrom, Spliced, Respliced, Moved, Spoils, ConformingEntry, ConformingNext;
    var s := Spliced(data, pieces);
    match node
    case JObject(_, _, members) =>
      var k :| 0 <= k < |members| && InNumber(members[k].value, p);
      MembersStart(node, data, k);
      SplicedSpoiled(members[k].value, data, pieces, p);
      ResplicedObject(node, pieces, s);
      MovedMember(node, pieces, s, k);
    case JArray(_, _, values) =>
      var k :| 0 <= k < |values| && InNumber(values[k], p);
      ValuesStart(node, data, k);
      SplicedSpoiled(values[k], data, pieces, p);
      var moved := seq(|values|, i requires 0 <= i < |values| => Respliced(values[i], pieces, s));
      ResplicedArray(node, pieces, s, moved);
      assert moved[k] == Respliced(values[k], pieces, s);
    case JNumber(_, _, _, _) => NumberSpoiled(node, data, pieces, p);
    case _ =>
  }

  /** Exactly when the spliced document passes the syntax check, for pieces that spoil the numbers they fall into. */
  lemma SplicedValid(root: JsonNode, data: seq<byte>, pieces: Pieces)
    requires Document(root, data) && Conforms(root, data)
    requires |data| == |pieces| && AllHarmless(pieces) && AllPrintable(pieces)
    requires forall p :: 0 <= p < |pieces| && pieces[p].Some? ==> InLeaf(root, p)
    requires forall p :: 0 <= p < |pieces| && pieces[p].Some? && InNumber(root, p) ==> Spoils(pieces[p].value)
    requires WholeStrings(root, data, Changed(pieces)) && NumbersFit(root, pieces)
    ensures ValidJSON(Spliced(data, pieces)) <==> forall p :: 0 <= p < |pieces| && pieces[p].Some? ==> !InNumber(root, p)
  {
    hide ReadFrom, InLeaf, InNumber, Spliced, Respliced, Blank, Changed, AllHarmless, AllPrintable, WholeStrings, NumbersFit,
         Conforms, Spoils;
    SplicedDocument(root, data, pieces);
    ValidByTree(Respliced(root, pieces, Spliced(data, pieces)), Spliced(data, pieces));
    if p :| 0 <= p < |pieces| && pieces[p].Some? && InNumber(root, p) {
      SplicedSpoiled(root, data, pieces, p);
    } else {
      SplicedConforms(root, data, pieces);
    }
  }
}
