/** Frames as they are spelled in a stream, byte by byte, and what is read of them. */
module SseWritten {
  import opened Bytes
  import opened Utf8
  import opened Equivalence
  import opened Sse
  import opened SseFrame
  import opened FrameShape

  // ----- Single lines

  lemma Labels()
    ensures EVENT == Ascii("event: ") && DATA == Ascii("data:") && DATA + [32] == Ascii("data: ") && Ascii(":") == [58]
  {
    assert EVENT == Ascii("event: ");
  }

  /** What a line says is decided by how it begins, white space aside. */
  lemma FieldMeans(line: seq<byte>)
    ensures var t := TrimSpace(line);
            FieldOf(line) ==
            if Ascii("event: ") <= t then Event(TrimSpace(t[7..]))
            else if Ascii("data: ") <= t then Data(TrimSpace(t[6..]))
            else if Ascii("data:") <= t then Data(TrimSpace(t[5..]))
            else if Ascii(":") <= t then Comment(TrimSpace(t[1..]))
            else Other
  {
    hide TrimSpace;
    Labels();
    assert forall t: seq<byte> :: [58] <= t <==> t != [] && t[0] == 58;
  }

  /** A text with no white space at its ends is not trimmed. */
  lemma NothingTrimmed(s: seq<byte>)
    requires s != [] && IsVisible(s[0]) && IsVisible(s[|s| - 1])
    ensures TrimSpace(s) == s
  {
    hide TrimLeft, TrimRight;
    TrimVisible(s);
  }

  lemma SpaceTrimmed(s: seq<byte>)
    requires s != [] && IsVisible(s[0]) && IsVisible(s[|s| - 1])
    ensures TrimSpace(s + [32]) == s
  {
    var t := s + [32];
    assert t[0] == s[0] && t[..|t| - 1] == s && t[|t| - 1..] == [32];
    assert DecodeRune([32]) == (32, 1) && SpaceTail(t, 1);
    TrimVisible(t);
    TrimVisible(s);
    hide TrimLeft, SpaceTail;
  }

  /** A line that begins with `front`, which ends in a colon, and then p. */
  lemma Fronted(front: seq<byte>, p: seq<byte>)
    requires Plain(p) && front != [] && IsVisible(front[0]) && (p == [] ==> IsVisible(front[|front| - 1]))
    ensures TrimSpace(front + p) == front + p && (front + p)[|front|..] == p && front <= front + p
  {
    var s := front + p;
    assert s[0] == front[0] && s[|s| - 1] == if p == [] then front[|front| - 1] else p[|p| - 1];
    hide TrimSpace;
    NothingTrimmed(s);
  }

  lemma FrontBytes(p: seq<byte>)
    ensures (Ascii("event: ") + p)[0] == 101 && (Ascii("data: ") + p)[0] == 100 && (Ascii("data:") + p)[0] == 100
    ensures (Ascii(":") + p)[0] == 58
    ensures p != [] ==> (Ascii("data:") + p)[5] == p[0]
  {
  }

  /** No two fields begin alike, but for the space behind `data:`. */
  lemma Apart(t: seq<byte>)
    requires t != []
    ensures Ascii("event: ") <= t ==> t[0] == 101
    ensures Ascii("data: ") <= t ==> t[0] == 100 && |t| > 5 && t[5] == 32
    ensures Ascii("data:") <= t ==> t[0] == 100
    ensures Ascii(":") <= t <==> t[0] == 58
  {
    Labels();
    assert Ascii("event: ") <= t ==> t[0] == Ascii("event: ")[0];
    assert Ascii("data: ") <= t ==> t[0] == Ascii("data: ")[0] && t[5] == Ascii("data: ")[5];
    assert Ascii("data:") <= t ==> t[0] == Ascii("data:")[0];
  }

  /** A data line says its payload, with a space behind the colon or without. */
  lemma DataLineSays(p: seq<byte>)
    requires Plain(p)
    ensures FieldOf(Ascii("data: ") + p) == Data(p) && FieldOf(Ascii("data:") + p) == Data(p)
  {
    hide FieldOf, TrimSpace;
    var s, t := Ascii("data: ") + p, Ascii("data:") + p;
    FieldMeans(s);
    FieldMeans(t);
    TrimPlain(p);
    FrontBytes(p);
    Apart(s);
    Apart(t);
    Fronted(Ascii("data:"), p);
    if p == [] {
      SpaceTrimmed(Ascii("data:"));
      assert s == Ascii("data:") + [32] && t == Ascii("data:");
    } else {
      Fronted(Ascii("data: "), p);
      assert !IsSpaceRune(p[0] as int);
    }
  }

  /** An event line says the name. */
  lemma EventLineSays(n: seq<byte>)
    requires Plain(n) && n != []
    ensures FieldOf(Ascii("event: ") + n) == Event(n)
  {
    hide FieldOf, TrimSpace;
    FieldMeans(Ascii("event: ") + n);
    TrimPlain(n);
    Fronted(Ascii("event: "), n);
  }

  /** A comment line says what stands behind the colon. */
  lemma CommentLineSays(c: seq<byte>)
    requires Plain(c)
    ensures FieldOf(Ascii(":") + c) == Comment(c)
  {
    hide FieldOf, TrimSpace;
    FieldMeans(Ascii(":") + c);
    TrimPlain(c);
    FrontBytes(c);
    Apart(Ascii(":") + c);
    Fronted(Ascii(":"), c);
  }

  lemma EmptyLineSays()
    ensures FieldOf([]) == Other
  {
  }

  // ----- Rewritten frames

  /** The lines that are no data lines. */
  function OtherLines(lines: seq<seq<byte>>): seq<seq<byte>> {
    if lines == [] then [] else (if FieldOf(lines[0]).Data? then [] else [lines[0]]) + OtherLines(lines[1..])
  }

  /** The first data line is at i. */
  ghost predicate FirstData(lines: seq<seq<byte>>, i: nat) {
    i < |lines| && FieldOf(lines[i]).Data? && forall j :: 0 <= j < i ==> !FieldOf(lines[j]).Data?
  }

  lemma {:induction false} OthersAppend(lines: seq<seq<byte>>, last: seq<byte>)
    ensures OtherLines(lines + [last]) == OtherLines(lines) + if FieldOf(last).Data? then [] else [last]
  {
    hide FieldOf;
    if lines == [] {
      assert lines + [last] == [last] && [last][1..] == [];
    } else {
      OthersAppend(lines[1..], last);
      assert (lines + [last])[1..] == lines[1..] + [last];
    }
  }

  /** Rewriting puts the new line in the place of the first data line, drops the other data lines, and leaves every other line as
      it was and where it was. */
  lemma {:induction false} RebuiltExactly(lines: seq<seq<byte>>, line: seq<byte>, i: nat)
    requires FirstData(lines, i)
    ensures Rebuilt(lines, line) == lines[..i] + [line] + OtherLines(lines[i + 1..])
  {
    hide FieldOf, Rebuilt, DataOf, OtherLines;
    var front, last := lines[..|lines| - 1], lines[|lines| - 1];
    assert lines == front + [last];
    RebuiltStep(front, last, line);
    if i < |front| {
      assert FirstData(front, i);
      RebuiltExactly(front, line, i);
      HasData(front, i);
      OthersAppend(front[i + 1..], last);
      assert lines[i + 1..] == front[i + 1..] + [last] && lines[..i] == front[..i];
    } else {
      NoData(front, line);
      assert lines[i + 1..] == [] && lines[..i] == front;
      NoOthers();
    }
  }

  lemma NoOthers()
    ensures OtherLines([]) == []
  {
  }

  lemma {:induction false} NoData(lines: seq<seq<byte>>, line: seq<byte>)
    requires forall j :: 0 <= j < |lines| ==> !FieldOf(lines[j]).Data?
    ensures DataOf(lines) == [] && Rebuilt(lines, line) == lines
  {
    hide FieldOf;
    if lines != [] {
      NoData(lines[..|lines| - 1], line);
      assert lines == lines[..|lines| - 1] + [lines[|lines| - 1]];
    }
  }

  lemma {:induction false} HasData(lines: seq<seq<byte>>, i: nat)
    requires i < |lines| && FieldOf(lines[i]).Data?
    ensures DataOf(lines) != []
  {
    hide FieldOf;
    if i < |lines| - 1 {
      HasData(lines[..|lines| - 1], i);
    }
  }

  /** The frame that is sent, with the new line as it is spelled. */
  lemma RewrittenFrame(raw: seq<byte>, masked: seq<byte>, i: nat)
    requires FirstData(Lines(raw), i)
    ensures JoinLines(Rebuilt(Lines(raw), DATA + [32] + masked))
         == JoinLines(Lines(raw)[..i] + [Ascii("data: ") + masked] + OtherLines(Lines(raw)[i + 1..]))
  {
    hide *;
    Labels();
    RebuiltExactly(Lines(raw), DATA + [32] + masked, i);
  }

  // ----- White space

  /** Nothing but white-space characters. */
  predicate Spaces(s: seq<byte>) {
    s == [] || (IsSpaceRune(DecodeRune(s).0) && Spaces(s[DecodeRune(s).1..]))
  }

  lemma {:induction false} LeftGone(s: seq<byte>) returns (gone: seq<byte>)
    ensures s == gone + TrimLeft(s) && Spaces(gone)
    ensures TrimLeft(s) != [] ==> !IsSpaceRune(DecodeRune(TrimLeft(s)).0)
    decreases |s|
  {
    hide *;
    TrimOnce(s);
    gone := [];
    if s != [] && IsSpaceRune(DecodeRune(s).0) {
      var n := DecodeRune(s).1;
      var more := LeftGone(s[n..]);
      gone := s[..n] + more;
      assert s == s[..n] + s[n..];
      FirstAlone(s);
      SpacesJoin(s[..n], more);
    } else {
      NoSpaces();
    }
  }

  lemma TrimOnce(s: seq<byte>)
    ensures TrimLeft(s) == if s != [] && IsSpaceRune(DecodeRune(s).0) then TrimLeft(s[DecodeRune(s).1..]) else s
  {
    hide DecodeRune, IsSpaceRune;
  }

  lemma FirstAlone(s: seq<byte>)
    requires s != [] && IsSpaceRune(DecodeRune(s).0)
    ensures Spaces(s[..DecodeRune(s).1])
  {
    var (r, n) := DecodeRune(s);
    NoReplacementSpace();
    DecodeExactly(s, r, n);
    assert EncodeRune(r) == s[..n];
    DecodeExactly(s[..n], r, n);
    assert s[..n][n..] == [];
    hide DecodeRune, EncodeRune;
  }

  lemma {:induction false} RightGone(s: seq<byte>) returns (gone: seq<byte>)
    ensures s == TrimRight(s) + gone && Spaces(gone)
    ensures forall n: nat :: n <= 3 ==> !SpaceTail(TrimRight(s), n)
    decreases |s|, 1
  {
    TailInside(s);
    hide SpaceTail, Spaces;
    if SpaceTail(s, 1) {
      gone := TailGone(s, 1);
    } else if SpaceTail(s, 2) {
      gone := TailGone(s, 2);
    } else if SpaceTail(s, 3) {
      gone := TailGone(s, 3);
    } else {
      gone := [];
      NoSpaces();
      NoTail(s);
    }
  }

  lemma TailInside(s: seq<byte>)
    ensures forall n: nat :: SpaceTail(s, n) ==> 0 < n <= |s|
  {
  }

  lemma NoSpaces()
    ensures Spaces([])
  {
  }

  lemma NoTail(s: seq<byte>)
    ensures !SpaceTail(s, 0)
  {
  }

  lemma {:induction false} TailGone(s: seq<byte>, n: nat) returns (gone: seq<byte>)
    requires SpaceTail(s, n) && 0 < n <= |s| && TrimRight(s) == TrimRight(s[..|s| - n])
    ensures s == TrimRight(s) + gone && Spaces(gone)
    ensures forall n: nat :: n <= 3 ==> !SpaceTail(TrimRight(s), n)
    decreases |s|, 0
  {
    hide SpaceTail, Spaces, TrimRight;
    var tail := s[|s| - n..];
    var more := RightGone(s[..|s| - n]);
    TailThen(s, n);
    SpacesJoin(more, tail);
    gone := more + tail;
    assert s == s[..|s| - n] + tail;
  }

  lemma TailThen(s: seq<byte>, n: nat)
    requires SpaceTail(s, n)
    ensures Spaces(s[|s| - n..])
  {
    var tail := s[|s| - n..];
    assert tail[n..] == [];
  }

  lemma {:induction false} SpacesJoin(a: seq<byte>, b: seq<byte>)
    requires Spaces(a) && Spaces(b)
    ensures Spaces(a + b)
    decreases |a|
  {
    hide DecodeRune, IsSpaceRune;
    if a == [] {
      assert a + b == b;
    } else {
      var (r, n) := DecodeRune(a);
      SpacesJoin(a[n..], b);
      SpaceAlone(a, b);
      assert (a + b)[n..] == a[n..] + b;
    }
  }

  lemma SpaceAlone(a: seq<byte>, b: seq<byte>)
    requires a != [] && IsSpaceRune(DecodeRune(a).0)
    ensures DecodeRune(a + b) == DecodeRune(a)
  {
    var (r, n) := DecodeRune(a);
    NoReplacementSpace();
    DecodeExactly(a, r, n);
    assert EncodeRune(r) <= a + b;
    DecodeExactly(a + b, r, n);
    hide DecodeRune, EncodeRune;
  }

  lemma NoReplacementSpace()
    ensures !IsSpaceRune(0xFFFD)
  {
  }

  /** Trimming takes white space from both ends, and leaves none there. */
  lemma Trimmed(s: seq<byte>) returns (left: seq<byte>, right: seq<byte>)
    ensures s == left + TrimSpace(s) + right && Spaces(left) && Spaces(right)
    ensures forall r, rest :: IsSpaceRune(r) ==> TrimSpace(s) != EncodeRune(r) + rest && TrimSpace(s) != rest + EncodeRune(r)
  {
    hide Spaces, SpaceTail, TrimLeft, TrimRight, IsSpaceRune, DecodeRune, EncodeRune;
    left := LeftGone(s);
    right := RightGone(TrimLeft(s));
    var t := TrimSpace(s);
    assert TrimLeft(s) == t + right;
    forall r, rest | IsSpaceRune(r) ensures t != EncodeRune(r) + rest && t != rest + EncodeRune(r) {
      SpaceInside(r);
      if t == EncodeRune(r) + rest {
        DecodeEncoded(r, rest);
        SpaceAlone(t, right);
      }
      if t == rest + EncodeRune(r) {
        TailOf(t, rest, r);
      }
    }
  }

  lemma SpaceInside(r: int)
    requires IsSpaceRune(r)
    ensures IsRune(r) && |EncodeRune(r)| <= 3
  {
  }

  lemma TailOf(t: seq<byte>, rest: seq<byte>, r: int)
    requires IsSpaceRune(r) && IsRune(r) && t == rest + EncodeRune(r)
    ensures SpaceTail(t, |EncodeRune(r)|)
  {
    DecodeEncoded(r, []);
    assert t[|t| - |EncodeRune(r)|..] == EncodeRune(r) + [];
    hide DecodeRune, EncodeRune, IsSpaceRune;
  }

  // ----- Frames

  /** A line a provider sends. */
  datatype Sent = Name(name: seq<byte>) | Payload(text: seq<byte>, spaced: bool) | Remark(text: seq<byte>)

  function Spelled(l: Sent): seq<byte> {
    match l
    case Name(n) => Ascii("event: ") + n
    case Payload(p, spaced) => (if spaced then Ascii("data: ") else Ascii("data:")) + p
    case Remark(c) => Ascii(":") + c
  }

  predicate Sendable(l: Sent) {
    match l
    case Name(n) => Plain(n) && n != []
    case Payload(p, _) => Plain(p)
    case Remark(c) => Plain(c)
  }

  predicate AllSendable(ls: seq<Sent>) { forall i :: 0 <= i < |ls| ==> Sendable(ls[i]) }

  function SpelledLines(ls: seq<Sent>): (lines: seq<seq<byte>>)
    ensures |lines| == |ls|
  {
    seq(|ls|, i requires 0 <= i < |ls| => Spelled(ls[i]))
  }

  /** Every line ends with a newline, and so does the frame. */
  function Written(ls: seq<Sent>): seq<byte> {
    if ls == [] then Ascii("\n") else Spelled(ls[0]) + Ascii("\n") + Written(ls[1..])
  }

  lemma SpelledSays(l: Sent)
    requires Sendable(l)
    ensures FieldOf(Spelled(l)) == match l case Name(n) => Event(n) case Payload(p, _) => Data(p) case Remark(c) => Comment(c)
    ensures OneLine(Spelled(l)) && Spelled(l) != []
  {
    hide FieldOf;
    match l
    case Name(n) => EventLineSays(n); OneLineBehind(Ascii("event: "), n);
    case Payload(p, spaced) => DataLineSays(p); OneLineBehind(Ascii("data: "), p); OneLineBehind(Ascii("data:"), p);
    case Remark(c) => CommentLineSays(c); OneLineBehind(Ascii(":"), c);
  }

  lemma OneLineBehind(front: seq<byte>, s: seq<byte>)
    requires front != [] && (forall i :: 0 <= i < |front| ==> front[i] != 10) && Plain(s)
    ensures OneLine(front + s) && front + s != []
  {
  }

  /** The name of the last line that has one. */
  ghost predicate LastName(ls: seq<Sent>, n: seq<byte>) {
    || (n == [] && forall i :: 0 <= i < |ls| ==> !ls[i].Name?)
    || exists i :: 0 <= i < |ls| && ls[i] == Name(n) && forall j :: i < j < |ls| ==> !ls[j].Name?
  }

  function Payloads(ls: seq<Sent>): seq<seq<byte>> {
    if ls == [] then [] else (if ls[0].Payload? then [ls[0].text] else []) + Payloads(ls[1..])
  }

  /** Texts with a newline between each two. */
  function Lined(texts: seq<seq<byte>>): seq<byte> {
    if texts == [] then [] else if |texts| == 1 then texts[0] else texts[0] + Ascii("\n") + Lined(texts[1..])
  }

  lemma {:induction false} LinedIsJoined(texts: seq<seq<byte>>)
    ensures Lined(texts) == JoinLines(texts)
  {
    if |texts| > 1 {
      LinedIsJoined(texts[1..]);
      JoinFront(texts[0], texts[1..]);
      assert texts == [texts[0]] + texts[1..];
    }
  }

  lemma {:induction false} JoinFront(first: seq<byte>, rest: seq<seq<byte>>)
    requires rest != []
    ensures JoinLines([first] + rest) == first + Ascii("\n") + JoinLines(rest)
    decreases |rest|
  {
    var front, last := rest[..|rest| - 1], rest[|rest| - 1];
    assert [first] + rest == ([first] + front) + [last] && rest == front + [last];
    JoinAppend([first] + front, last);
    JoinAppend(front, last);
    hide JoinLines;
    if front == [] {
      assert [first] + front == [first];
      JoinOne(first);
    } else {
      JoinFront(first, front);
    }
  }

  lemma JoinOne(s: seq<byte>)
    ensures JoinLines([s]) == s
  {
  }

  /** The lines of what is written are those that were spelled, and two empty ones. */
  lemma {:induction false} WrittenLines(ls: seq<Sent>)
    ensures Written(ls) == JoinLines(SpelledLines(ls) + [[], []])
  {
    hide Spelled;
    if ls == [] {
      var empty: seq<byte> := [];
      assert SpelledLines(ls) + [[], []] == [empty] + [empty];
      JoinFront(empty, [empty]);
      JoinOne(empty);
    } else {
      WrittenLines(ls[1..]);
      var rest := SpelledLines(ls[1..]) + [[], []];
      assert SpelledLines(ls) + [[], []] == [Spelled(ls[0])] + rest;
      JoinFront(Spelled(ls[0]), rest);
    }
  }

  lemma LinesWritten(ls: seq<Sent>)
    requires AllSendable(ls)
    ensures Lines(Written(ls)) == SpelledLines(ls) + [[], []]
  {
    var lines := SpelledLines(ls) + [[], []];
    forall i | 0 <= i < |lines| ensures OneLine(lines[i]) {
      if i < |ls| { SpelledSays(ls[i]); }
    }
    WrittenLines(ls);
    LinesOfJoined(lines);
  }

  lemma {:induction false} FieldsWritten(ls: seq<Sent>)
    requires AllSendable(ls)
    ensures LastName(ls, EventOf(SpelledLines(ls)))
    ensures DataOf(SpelledLines(ls)) == Payloads(ls)
    ensures HasComment(SpelledLines(ls)) <==> Remarks(ls)
  {
    hide *;
    if ls == [] {
      NothingSaid();
      assert SpelledLines(ls) == [];
    } else {
      var front, last := ls[..|ls| - 1], ls[|ls| - 1];
      SendableFront(ls);
      FieldsWritten(front);
      SpelledSays(last);
      FieldsAppend(SpelledLines(front), Spelled(last));
      SpelledFront(ls);
      PayloadsAppend(front, last);
      NameAppend(front, last, EventOf(SpelledLines(front)));
      RemarksAppend(front, last);
      assert ls == front + [last];
    }
  }

  /** Some comment says something. */
  ghost predicate Remarks(ls: seq<Sent>) { exists i :: 0 <= i < |ls| && ls[i].Remark? && ls[i].text != [] }

  lemma RemarksAppend(ls: seq<Sent>, l: Sent)
    ensures Remarks(ls + [l]) <==> Remarks(ls) || (l.Remark? && l.text != [])
  {
    var more := ls + [l];
    assert more[|ls|] == l && forall i :: 0 <= i < |ls| ==> more[i] == ls[i];
  }

  lemma NothingSaid()
    ensures EventOf([]) == [] && DataOf([]) == [] && !HasComment([]) && Payloads([]) == [] && LastName([], []) && !Remarks([])
  {
  }

  lemma SendableFront(ls: seq<Sent>)
    requires ls != [] && AllSendable(ls)
    ensures AllSendable(ls[..|ls| - 1]) && Sendable(ls[|ls| - 1])
  {
  }

  lemma SpelledFront(ls: seq<Sent>)
    requires ls != []
    ensures SpelledLines(ls) == SpelledLines(ls[..|ls| - 1]) + [Spelled(ls[|ls| - 1])]
  {
    hide Spelled;
  }

  lemma {:induction false} PayloadsAppend(ls: seq<Sent>, l: Sent)
    ensures Payloads(ls + [l]) == Payloads(ls) + if l.Payload? then [l.text] else []
  {
    if ls == [] {
      assert ls + [l] == [l] && [l][1..] == [];
    } else {
      PayloadsAppend(ls[1..], l);
      assert (ls + [l])[1..] == ls[1..] + [l];
    }
  }

  lemma NameAppend(ls: seq<Sent>, l: Sent, n: seq<byte>)
    requires LastName(ls, n)
    ensures LastName(ls + [l], if l.Name? then l.name else n)
  {
    var more := ls + [l];
    assert more[|ls|] == l && forall i :: 0 <= i < |ls| ==> more[i] == ls[i];
    if !l.Name? {
      if i :| 0 <= i < |ls| && ls[i] == Name(n) && forall j :: i < j < |ls| ==> !ls[j].Name? {
        assert more[i] == Name(n);
      }
    }
  }

  /** A frame is read as the last name it has, its payloads with newlines between them, and whether it has a comment. */
  lemma FrameSays(ls: seq<Sent>)
    requires AllSendable(ls)
    ensures LastName(ls, EventOf(Lines(Written(ls))))
    ensures JoinLines(DataOf(Lines(Written(ls)))) == Lined(Payloads(ls))
    ensures HasComment(Lines(Written(ls))) <==> Remarks(ls)
  {
    hide FieldOf, EventOf, DataOf, HasComment, Lines, Written, SpelledLines, JoinLines, Lined, Payloads;
    LinesWritten(ls);
    FieldsWritten(ls);
    LinedIsJoined(Payloads(ls));
    EmptyLines(SpelledLines(ls));
  }

  lemma EmptyLines(lines: seq<seq<byte>>)
    ensures EventOf(lines + [[], []]) == EventOf(lines) && DataOf(lines + [[], []]) == DataOf(lines)
    ensures HasComment(lines + [[], []]) <==> HasComment(lines)
  {
    hide FieldOf, EventOf, DataOf, HasComment;
    EmptyLineSays();
    FieldsAppend(lines, []);
    FieldsAppend(lines + [[]], []);
    assert lines + [[]] + [[]] == lines + [[], []];
  }

  /** Reading such a frame. */
  method ReadWritten(ls: seq<Sent>) returns (event: seq<byte>, data: seq<byte>, hasComment: bool)
    requires AllSendable(ls)
    ensures LastName(ls, event) && data == Lined(Payloads(ls))
    ensures hasComment <==> Remarks(ls)
  {
    FrameSays(ls);
    hide *;
    event, data, hasComment := ParseSSEToken(Written(ls));
  }

  function Stream(frames: seq<seq<Sent>>): seq<byte> {
    if frames == [] then [] else Written(frames[0]) + Stream(frames[1..])
  }

  function WrittenFrames(frames: seq<seq<Sent>>): (written: seq<seq<byte>>)
    ensures |written| == |frames|
  {
    seq(|frames|, i requires 0 <= i < |frames| => Written(frames[i]))
  }

  lemma {:induction false} StreamIsFlat(frames: seq<seq<Sent>>)
    ensures Stream(frames) == Flatten(WrittenFrames(frames))
  {
    hide Written;
    if frames == [] {
      assert WrittenFrames(frames) == [];
    } else {
      StreamIsFlat(frames[1..]);
      assert WrittenFrames(frames)[1..] == WrittenFrames(frames[1..]);
      FlattenFirst(WrittenFrames(frames));
    }
  }

  /** A stream of written frames is cut into these frames. */
  lemma StreamIsCut(frames: seq<seq<Sent>>)
    requires forall i :: 0 <= i < |frames| ==> frames[i] != [] && AllSendable(frames[i])
    ensures Frames(Stream(frames)) == WrittenFrames(frames)
  {
    hide Written, Stream, Frames, Flatten, AllSendable, Complete;
    var written := WrittenFrames(frames);
    forall i | 0 <= i < |frames| ensures Complete(written[i]) {
      WrittenComplete(frames[i]);
    }
    CompleteAreFrames(written);
    FramesOfFlat(written);
    StreamIsFlat(frames);
  }

  lemma CompleteAreFrames(frames: seq<seq<byte>>)
    requires forall i :: 0 <= i < |frames| ==> Complete(frames[i])
    ensures InFrames(frames)
  {
  }

  lemma WrittenComplete(ls: seq<Sent>)
    requires ls != [] && AllSendable(ls)
    ensures Complete(Written(ls))
  {
    var lines := SpelledLines(ls);
    forall i | 0 <= i < |lines| ensures OneLine(lines[i]) && lines[i] != [] {
      SpelledSays(ls[i]);
    }
    hide Spelled, Complete, OneLine, Written;
    WrittenLines(ls);
    LinesComplete(lines);
  }
}
