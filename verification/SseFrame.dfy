/** One server-sent event: reading its fields and rewriting its payload. */
module SseFrame {
  import opened Bytes
  import opened Rules
  import opened Utf8

  // ----- Lines

  function Lines(s: seq<byte>): (lines: seq<seq<byte>>)
    ensures |lines| > 0
  {
    if s == [] then [[]] else
    var front, last := Lines(s[..|s| - 1]), s[|s| - 1];
    if last == NEWLINE then front + [[]] else front[..|front| - 1] + [front[|front| - 1] + [last]]
  }

  function JoinLines(lines: seq<seq<byte>>): seq<byte> {
    if lines == [] then []
    else if |lines| == 1 then lines[0]
    else JoinLines(lines[..|lines| - 1]) + [NEWLINE] + lines[|lines| - 1]
  }

  predicate OneLine(s: seq<byte>) { forall i :: 0 <= i < |s| ==> s[i] != NEWLINE }

  lemma LinesNonEmpty(s: seq<byte>)
    ensures Lines(s) != []
  {
  }

  lemma {:induction false} LinesAreLines(s: seq<byte>)
    ensures forall i :: 0 <= i < |Lines(s)| ==> OneLine(Lines(s)[i])
  {
    if s != [] {
      LinesAreLines(s[..|s| - 1]);
    }
  }

  lemma {:induction false} LinesOfExtended(s: seq<byte>, t: seq<byte>)
    requires OneLine(t)
    ensures var l := Lines(s); Lines(s + t) == l[..|l| - 1] + [l[|l| - 1] + t]
    decreases |t|
  {
    if t == [] {
      assert s + t == s;
      var l := Lines(s);
      assert l[|l| - 1] + [] == l[|l| - 1];
    } else {
      var t' := t[..|t| - 1];
      assert forall i :: 0 <= i < |t'| ==> t'[i] == t[i];
      assert (s + t)[..|s + t| - 1] == s + t';
      assert t == t' + [t[|t| - 1]];
      LinesOfExtended(s, t');
      LastLine(s, t', t[|t| - 1]);
    }
  }

  function Longer(lines: seq<seq<byte>>, c: byte): seq<seq<byte>>
    requires lines != []
  {
    if c == NEWLINE then lines + [[]] else lines[..|lines| - 1] + [lines[|lines| - 1] + [c]]
  }

  lemma LinesStep(s: seq<byte>, c: byte)
    ensures Lines(s + [c]) == Longer(Lines(s), c)
  {
    assert (s + [c])[..|s|] == s;
  }

  lemma LastLine(s: seq<byte>, t: seq<byte>, c: byte)
    requires var l := Lines(s); Lines(s + t) == l[..|l| - 1] + [l[|l| - 1] + t]
    requires c != NEWLINE
    ensures var l := Lines(s); Lines(s + (t + [c])) == l[..|l| - 1] + [l[|l| - 1] + (t + [c])]
  {
    LinesStep(s + t, c);
    hide Lines;
    assert s + (t + [c]) == (s + t) + [c];
    var l := Lines(s);
    var front, last := l[..|l| - 1], l[|l| - 1];
    assert (front + [last + t])[..|front|] == front;
    assert (last + t) + [c] == last + (t + [c]);
  }

  /** Splitting undoes joining. */
  lemma {:induction false} LinesOfJoined(lines: seq<seq<byte>>)
    requires lines != [] && forall i :: 0 <= i < |lines| ==> OneLine(lines[i])
    ensures Lines(JoinLines(lines)) == lines
  {
    hide *;
    var front, last := lines[..|lines| - 1], lines[|lines| - 1];
    assert lines == front + [last];
    JoinAppend(front, last);
    if front == [] {
      OneLineAlone(last);
    } else {
      LinesOfJoined(front);
      BrokenLine(JoinLines(front));
      LinesOfExtended(JoinLines(front) + [NEWLINE], last);
      assert [] + last == last && (front + [[]])[..|front|] == front;
    }
  }

  lemma OneLineAlone(s: seq<byte>)
    requires OneLine(s)
    ensures Lines(s) == [s]
  {
    LinesOfExtended([], s);
    assert [] + s == s;
  }

  lemma BrokenLine(s: seq<byte>)
    ensures Lines(s + [NEWLINE]) == Lines(s) + [[]]
  {
    assert (s + [NEWLINE])[..|s|] == s;
  }

  /** Joining undoes splitting. */
  lemma {:induction false} JoinOfLines(s: seq<byte>)
    ensures JoinLines(Lines(s)) == s
  {
    if s != [] {
      var front, last := s[..|s| - 1], s[|s| - 1];
      JoinOfLines(front);
      LinesStep(front, last);
      JoinLonger(Lines(front), last);
      hide Lines, JoinLines;
      assert s == front + [last];
    }
  }

  lemma JoinLonger(lines: seq<seq<byte>>, c: byte)
    requires lines != []
    ensures JoinLines(Longer(lines, c)) == JoinLines(lines) + [c]
  {
  }

  // ----- Fields

  function TrimLeft(s: seq<byte>): seq<byte> {
    if s != [] && IsSpaceRune(DecodeRune(s).0) then TrimLeft(s[DecodeRune(s).1..]) else s
  }

  /** The n bytes at the end of s are one white-space character. */
  predicate SpaceTail(s: seq<byte>, n: nat) {
    0 < n <= |s| && DecodeRune(s[|s| - n..]).1 == n && IsSpaceRune(DecodeRune(s[|s| - n..]).0)
  }

  /** No white space takes more than three bytes. */
  function TrimRight(s: seq<byte>): seq<byte> {
    if SpaceTail(s, 1) then TrimRight(s[..|s| - 1])
    else if SpaceTail(s, 2) then TrimRight(s[..|s| - 2])
    else if SpaceTail(s, 3) then TrimRight(s[..|s| - 3])
    else s
  }

  function TrimSpace(s: seq<byte>): seq<byte> { TrimRight(TrimLeft(s)) }

  const EVENT: seq<byte> := [101, 118, 101, 110, 116, 58, 32]
  const DATA: seq<byte> := [100, 97, 116, 97, 58]

  datatype Field = Event(value: seq<byte>) | Data(value: seq<byte>) | Comment(text: seq<byte>) | Other

  /** What a line says, once trimmed. */
  function FieldOf(line: seq<byte>): Field {
    var t := TrimSpace(line);
    if EVENT <= t then Event(TrimSpace(t[7..]))
    else if DATA + [32] <= t then Data(TrimSpace(t[6..]))
    else if DATA <= t then Data(TrimSpace(t[5..]))
    else if t != [] && t[0] == 58 then Comment(TrimSpace(t[1..]))
    else Other
  }

  /** The event name is that of the last event line. */
  function EventOf(lines: seq<seq<byte>>): seq<byte> {
    if lines == [] then [] else
    var f := FieldOf(lines[|lines| - 1]);
    if f.Event? then f.value else EventOf(lines[..|lines| - 1])
  }

  function DataOf(lines: seq<seq<byte>>): seq<seq<byte>> {
    if lines == [] then [] else
    var f := FieldOf(lines[|lines| - 1]);
    DataOf(lines[..|lines| - 1]) + if f.Data? then [f.value] else []
  }

  predicate HasComment(lines: seq<seq<byte>>) {
    lines != [] && (var f := FieldOf(lines[|lines| - 1]); (f.Comment? && f.text != []) || HasComment(lines[..|lines| - 1]))
  }

  lemma JoinAppend(parts: seq<seq<byte>>, part: seq<byte>)
    ensures JoinLines(parts + [part]) == if parts == [] then part else JoinLines(parts) + [NEWLINE] + part
  {
    assert (parts + [part])[..|parts|] == parts;
  }

  /** Reads a frame: the last event name, the data lines joined by newlines, and whether a comment says anything. */
  method ParseSSEToken(token: seq<byte>) returns (event: seq<byte>, data: seq<byte>, hasComment: bool)
    ensures event == EventOf(Lines(token)) && data == JoinLines(DataOf(Lines(token))) && hasComment == HasComment(Lines(token))
  {
    hide FieldOf;
    event, data, hasComment := [], [], false;
    var firstData := true;
    var lines := Lines(token);
    for i := 0 to |lines|
      invariant event == EventOf(lines[..i]) && data == JoinLines(DataOf(lines[..i])) && hasComment == HasComment(lines[..i])
      invariant firstData <==> DataOf(lines[..i]) == []
    {
      assert lines[..i + 1][..i] == lines[..i];
      assert DataOf(lines[..i]) + [] == DataOf(lines[..i]);
      match FieldOf(lines[i]) {
        case Event(value) =>
          event := value;
        case Data(value) =>
          JoinAppend(DataOf(lines[..i]), value);
          if !firstData {
            data := data + [NEWLINE];
          }
          firstData := false;
          data := data + value;
          assert [] + value == value;
        case Comment(text) =>
          if |text| > 0 {
            hasComment := true;
          }
        case Other =>
      }
    }
    assert lines[..|lines|] == lines;
  }

  // ----- Rewriting the payload

  /** The lines with the first data line replaced and the other data lines dropped. */
  function Rebuilt(lines: seq<seq<byte>>, line: seq<byte>): seq<seq<byte>> {
    if lines == [] then [] else
    var front, last := lines[..|lines| - 1], lines[|lines| - 1];
    if !FieldOf(last).Data? then Rebuilt(front, line) + [last]
    else if DataOf(front) == [] then Rebuilt(front, line) + [line]
    else Rebuilt(front, line)
  }

  /** The payload as it is put together from the data lines; None if there is none. */
  method ReassemblePayload(raw: seq<byte>) returns (payload: Option<seq<byte>>)
    ensures payload == if DataOf(Lines(raw)) == [] then None else Some(JoinLines(DataOf(Lines(raw))))
  {
    hide FieldOf;
    var lines := Lines(raw);
    var found, bytes := false, [];
    for i := 0 to |lines|
      invariant bytes == JoinLines(DataOf(lines[..i])) && (found <==> DataOf(lines[..i]) != [])
    {
      assert lines[..i + 1][..i] == lines[..i];
      assert DataOf(lines[..i]) + [] == DataOf(lines[..i]);
      var f := FieldOf(lines[i]);
      if f.Data? {
        JoinAppend(DataOf(lines[..i]), f.value);
        if found {
          bytes := bytes + [NEWLINE];
        }
        found := true;
        bytes := bytes + f.value;
        assert [] + f.value == f.value;
      }
    }
    assert lines[..|lines|] == lines;
    payload := if found then Some(bytes) else None;
  }

  /** Writes the frame again with `masked` as its only data line. */
  method RewritePayload(raw: seq<byte>, masked: seq<byte>) returns (frame: seq<byte>)
    ensures frame == JoinLines(Rebuilt(Lines(raw), DATA + [32] + masked))
  {
    hide FieldOf;
    var lines := Lines(raw);
    var line := DATA + [32] + masked;
    var kept: seq<seq<byte>>, found := [], false;
    for i := 0 to |lines|
      invariant kept == Rebuilt(lines[..i], line) && (found <==> DataOf(lines[..i]) != [])
    {
      assert lines[..i + 1][..i] == lines[..i];
      if !FieldOf(lines[i]).Data? {
        kept := kept + [lines[i]];
      } else if !found {
        kept := kept + [line];
        found := true;
      }
    }
    assert lines[..|lines|] == lines;
    frame := JoinLines(kept);
  }

  /** A byte that is neither white space nor part of a longer character. */
  predicate IsVisible(b: byte) { b < 0x80 && !IsSpaceRune(b as int) }

  /** masked is a payload that a data line can carry: one line, and no white space where it begins or ends. */
  predicate Plain(masked: seq<byte>) {
    OneLine(masked) && (masked != [] ==> IsVisible(masked[0]) && IsVisible(masked[|masked| - 1]))
  }

  lemma NoSpaceTail(s: seq<byte>, n: nat)
    requires s != [] && IsVisible(s[|s| - 1])
    ensures !SpaceTail(s, n)
  {
    if 0 < n <= |s| {
      assert s[|s| - n..][n - 1] == s[|s| - 1];
    }
  }

  lemma TrimVisible(s: seq<byte>)
    requires s != []
    ensures IsVisible(s[0]) ==> TrimLeft(s) == s
    ensures IsVisible(s[|s| - 1]) ==> TrimRight(s) == s
  {
    if IsVisible(s[|s| - 1]) {
      hide SpaceTail;
      NoSpaceTail(s, 1);
      NoSpaceTail(s, 2);
      NoSpaceTail(s, 3);
    }
  }

  lemma TrimPlain(masked: seq<byte>)
    requires Plain(masked)
    ensures TrimSpace(masked) == masked
  {
    if masked != [] {
      hide TrimLeft, TrimRight;
      TrimVisible(masked);
    }
  }

  lemma BareDataLine()
    ensures TrimSpace(DATA + [32]) == DATA
  {
    var line := DATA + [32];
    TrimVisible(line);
    TrimVisible(DATA);
    assert line[|line| - 1..] == [32] && SpaceTail(line, 1) && line[..5] == DATA;
  }

  /** What a trimmed line says if it begins like a data line. */
  lemma DataField(line: seq<byte>, t: seq<byte>)
    requires TrimSpace(line) == t && DATA <= t
    ensures FieldOf(line) == Data(TrimSpace(if DATA + [32] <= t then t[6..] else t[5..]))
  {
    hide TrimSpace;
    assert t[0] == 100;
  }

  /** A plain payload is read back from its data line. */
  lemma DataLine(masked: seq<byte>)
    requires Plain(masked)
    ensures FieldOf(DATA + [32] + masked) == Data(masked)
  {
    hide TrimSpace, FieldOf;
    var line := DATA + [32] + masked;
    TrimPlain(masked);
    if masked == [] {
      assert line == DATA + [32];
      BareDataLine();
      DataField(line, DATA);
      assert DATA[5..] == [] == masked;
    } else {
      TrimPayload(line);
      assert line[..5] == DATA && line[..6] == DATA + [32] && line[6..] == masked;
      DataField(line, line);
    }
  }

  lemma TrimPayload(line: seq<byte>)
    requires line != [] && IsVisible(line[0]) && IsVisible(line[|line| - 1])
    ensures TrimSpace(line) == line
  {
    hide TrimLeft, TrimRight;
    TrimVisible(line);
  }

  lemma FieldsAppend(lines: seq<seq<byte>>, line: seq<byte>)
    ensures var f := FieldOf(line);
            && EventOf(lines + [line]) == (if f.Event? then f.value else EventOf(lines))
            && DataOf(lines + [line]) == DataOf(lines) + (if f.Data? then [f.value] else [])
            && (HasComment(lines + [line]) <==> (f.Comment? && f.text != []) || HasComment(lines))
  {
    hide FieldOf;
    assert (lines + [line])[..|lines|] == lines;
  }

  lemma RebuiltStep(front: seq<seq<byte>>, last: seq<byte>, line: seq<byte>)
    ensures Rebuilt(front + [last], line)
         == if !FieldOf(last).Data? then Rebuilt(front, line) + [last]
            else if DataOf(front) == [] then Rebuilt(front, line) + [line]
            else Rebuilt(front, line)
  {
    hide FieldOf;
    assert (front + [last])[..|front|] == front;
  }

  lemma {:induction false} RebuiltFields(lines: seq<seq<byte>>, line: seq<byte>, masked: seq<byte>)
    requires FieldOf(line) == Data(masked)
    ensures EventOf(Rebuilt(lines, line)) == EventOf(lines) && HasComment(Rebuilt(lines, line)) == HasComment(lines)
    ensures DataOf(Rebuilt(lines, line)) == if DataOf(lines) == [] then [] else [masked]
  {
    hide FieldOf;
    if lines != [] {
      var front, last := lines[..|lines| - 1], lines[|lines| - 1];
      RebuiltFields(front, line, masked);
      hide EventOf, DataOf, HasComment;
      FieldsAppend(Rebuilt(front, line), last);
      FieldsAppend(Rebuilt(front, line), line);
      FieldsAppend(front, last);
      RebuiltStep(front, last, line);
      hide Rebuilt;
      assert lines == front + [last];
    }
  }

  lemma {:induction false} RebuiltLines(lines: seq<seq<byte>>, line: seq<byte>)
    requires OneLine(line) && forall i :: 0 <= i < |lines| ==> OneLine(lines[i])
    ensures forall i :: 0 <= i < |Rebuilt(lines, line)| ==> OneLine(Rebuilt(lines, line)[i])
    ensures lines != [] && DataOf(lines) != [] ==> Rebuilt(lines, line) != []
  {
    hide FieldOf;
    if lines != [] {
      RebuiltLines(lines[..|lines| - 1], line);
    }
  }

  lemma DataOneLine(masked: seq<byte>)
    requires Plain(masked)
    ensures OneLine(DATA + [32] + masked)
  {
    var line := DATA + [32] + masked;
    assert forall i :: 0 <= i < |line| ==> line[i] == if i < 5 then DATA[i] else if i == 5 then 32 else masked[i - 6];
  }

  /** Reading a rewritten frame gives the same event name and comment flag, and the new payload as its data. */
  lemma RewriteReadsBack(raw: seq<byte>, masked: seq<byte>)
    requires DataOf(Lines(raw)) != [] && Plain(masked)
    ensures var frame := JoinLines(Rebuilt(Lines(raw), DATA + [32] + masked));
            && EventOf(Lines(frame)) == EventOf(Lines(raw))
            && DataOf(Lines(frame)) == [masked] && JoinLines(DataOf(Lines(frame))) == masked
            && HasComment(Lines(frame)) == HasComment(Lines(raw))
  {
    var line := DATA + [32] + masked;
    hide FieldOf, EventOf, DataOf, HasComment, Lines, JoinLines, Rebuilt, Plain, OneLine;
    DataLine(masked);
    LinesAreLines(raw);
    LinesNonEmpty(raw);
    DataOneLine(masked);
    RebuiltLines(Lines(raw), line);
    RebuiltFields(Lines(raw), line, masked);
    LinesOfJoined(Rebuilt(Lines(raw), line));
  }
}
