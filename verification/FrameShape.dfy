/** Rewriting keeps frames whole: a stream of rewritten frames is cut into the same frames. */
module FrameShape {
  import opened Bytes
  import opened Equivalence
  import opened Sse
  import opened SseFrame

  // ----- Which sequences of frames are read back as they are

  /** A frame that ends with its first blank line. */
  predicate Complete(frame: seq<byte>) { |frame| >= 2 && FirstBreak(frame) == |frame| - 2 }

  /** What can stand at the end of a stream: also a frame without a blank line. */
  predicate AtLeastLast(frame: seq<byte>) { frame != [] && (Complete(frame) || FirstBreak(frame) == |frame|) }

  predicate InFrames(frames: seq<seq<byte>>) {
    && (forall i :: 0 <= i < |frames| - 1 ==> Complete(frames[i]))
    && (frames != [] ==> AtLeastLast(frames[|frames| - 1]))
  }

  lemma {:induction false} FramesAreInFrames(s: seq<byte>)
    ensures InFrames(Frames(s))
    decreases |s|
  {
    if s != [] {
      var head, rest := s[..FrameEnd(s)], s[FrameEnd(s)..];
      FramesAreInFrames(rest);
      NextFrame(s);
      HeadFrame(s);
      HeadIsFrame(s);
      NoFrames([]);
      FramesNonEmpty(rest);
      hide FirstBreak, FrameEnd, Frames, AtLeastLast, Complete;
      var frames := Frames(rest);
      assert Frames(s) == [head] + frames;
      assert forall i :: 0 < i < |Frames(s)| ==> Frames(s)[i] == frames[i - 1];
      if rest == [] {
        assert frames == [];
        assert head == s;
      }
    }
  }

  lemma FramesNonEmpty(s: seq<byte>)
    ensures s != [] <==> Frames(s) != []
  {
  }

  lemma HeadIsFrame(s: seq<byte>)
    requires s != []
    ensures AtLeastLast(s[..FrameEnd(s)]) && (FrameEnd(s) < |s| ==> Complete(s[..FrameEnd(s)]))
  {
    HeadFrame(s);
    hide FirstBreak;
    if FrameEnd(s) == |s| {
      assert s[..|s|] == s;
    }
  }

  /** Cutting undoes putting together. */
  lemma {:induction false} FramesOfFlat(frames: seq<seq<byte>>)
    requires InFrames(frames)
    ensures Frames(Flatten(frames)) == frames
  {
    if frames == [] {
      NoFrames([]);
    } else {
      var head, rest := frames[0], frames[1..];
      assert InFrames(rest) by {
        assert forall i :: 0 <= i < |rest| ==> rest[i] == frames[i + 1];
      }
      FramesOfFlat(rest);
      FlattenFirst(frames);
      HeadCut(head, Flatten(rest), rest == []);
      NextFrame(head + Flatten(rest));
      assert frames == [head] + rest;
    }
  }

  lemma HeadCut(head: seq<byte>, rest: seq<byte>, last: bool)
    requires if last then rest == [] && AtLeastLast(head) else Complete(head)
    ensures var s := head + rest; s != [] && s[..FrameEnd(s)] == head && s[FrameEnd(s)..] == rest
  {
    hide FirstBreak;
    if last {
      assert head + rest == head;
    } else {
      BreakFound(head, rest);
    }
  }

  // ----- Blank lines inside a frame

  /** No line but the first is empty. */
  predicate Filled(lines: seq<seq<byte>>) { forall i :: 0 < i < |lines| ==> lines[i] != [] }

  lemma LastLineEmpty(s: seq<byte>)
    ensures var lines := Lines(s);
            && (lines[|lines| - 1] == [] <==> s == [] || s[|s| - 1] == NEWLINE)
            && (s != [] && s[|s| - 1] == NEWLINE ==> |lines| > 1)
  {
  }

  ghost predicate Unbroken(s: seq<byte>) { forall j: nat :: !BreakAt(s, j) }

  lemma UnbrokenStep(s: seq<byte>, c: byte)
    ensures Unbroken(s + [c]) <==> Unbroken(s) && !(c == NEWLINE && s != [] && s[|s| - 1] == NEWLINE)
  {
    var t := s + [c];
    assert forall j: nat :: j + 1 < |s| ==> BreakAt(t, j) == BreakAt(s, j);
    if c == NEWLINE && s != [] && s[|s| - 1] == NEWLINE {
      assert BreakAt(t, |s| - 1);
    }
    forall j: nat | BreakAt(t, j) && Unbroken(s) ensures j == |s| - 1 {
      assert !BreakAt(s, j);
    }
    forall j: nat | BreakAt(s, j) ensures BreakAt(t, j) { }
  }

  lemma UnbrokenIsNoBreak(s: seq<byte>)
    ensures Unbroken(s) <==> FirstBreak(s) == |s|
  {
    assert FirstBreak(s) < |s| ==> BreakAt(s, FirstBreak(s));
    if FirstBreak(s) == |s| {
      forall j: nat ensures !BreakAt(s, j) { }
    }
  }

  /** A blank line is an empty line between others. */
  lemma {:induction false} UnbrokenLines(s: seq<byte>)
    ensures Unbroken(s) <==> Filled(Lines(s)[..|Lines(s)| - 1])
  {
    hide *;
    if s == [] {
      NothingUnbroken();
    } else {
      var front, c := s[..|s| - 1], s[|s| - 1];
      assert s == front + [c];
      UnbrokenLines(front);
      UnbrokenStep(front, c);
      LinesStep(front, c);
      LastLineEmpty(front);
      FilledStep(Lines(front), c);
      NothingUnbroken();
    }
  }

  lemma NothingUnbroken()
    ensures Lines([]) == [[]] && Unbroken([]) && Filled([[]][..0])
  {
  }

  lemma FilledStep(lines: seq<seq<byte>>, c: byte)
    requires lines != []
    ensures var n := |lines|;
            Filled(Longer(lines, c)[..|Longer(lines, c)| - 1])
            <==> Filled(lines[..n - 1]) && !(c == NEWLINE && n > 1 && lines[n - 1] == [])
  {
    var n := |lines|;
    if c == NEWLINE {
      assert Longer(lines, c)[..n] == lines;
      assert lines == lines[..n - 1] + [lines[n - 1]];
      if Filled(lines) { assert forall i :: 0 < i < n - 1 ==> lines[..n - 1][i] == lines[i]; }
      if Filled(lines[..n - 1]) { assert forall i :: 0 < i < n - 1 ==> lines[i] == lines[..n - 1][i]; }
    } else {
      assert Longer(lines, c)[..n - 1] == lines[..n - 1];
    }
  }

  // ----- Rewriting

  lemma {:induction false} RebuiltFilled(lines: seq<seq<byte>>, line: seq<byte>)
    requires Filled(lines) && line != []
    ensures Filled(Rebuilt(lines, line)) && |Rebuilt(lines, line)| <= |lines|
  {
    hide FieldOf;
    if lines != [] {
      var front := lines[..|lines| - 1];
      assert forall i :: 0 <= i < |front| ==> front[i] == lines[i];
      RebuiltFilled(front, line);
    }
  }

  lemma EmptyLineSaysNothing()
    ensures FieldOf([]) == Other
  {
    hide TrimSpace;
    assert TrimSpace([]) == [] by { TrimPlain([]); }
  }

  /** Only the blank line at the end of a complete frame is empty. */
  lemma CompleteLines(frame: seq<byte>) returns (inner: seq<seq<byte>>)
    requires Complete(frame)
    ensures Lines(frame) == inner + [[], []] && Filled(inner) && inner != []
  {
    var body := frame[..|frame| - 1];
    assert frame == body + [NEWLINE];
    BodyUnbroken(frame);
    UnbrokenLines(body);
    LinesStep(body, NEWLINE);
    LastLineEmpty(body);
    var lines := Lines(body);
    hide Lines;
    inner := lines[..|lines| - 1];
    assert lines == inner + [[]];
    assert lines + [[]] == inner + [[], []];
  }

  lemma BodyUnbroken(frame: seq<byte>)
    requires Complete(frame)
    ensures var body := frame[..|frame| - 1];
            body != [] && body[|body| - 1] == NEWLINE && frame[|frame| - 1] == NEWLINE && Unbroken(body)
  {
    var body := frame[..|frame| - 1];
    forall j: nat | BreakAt(body, j) ensures false {
      assert BreakAt(frame, j);
    }
  }

  /** The frame with these lines and a blank line behind them. */
  lemma LinesComplete(inner: seq<seq<byte>>)
    requires inner != [] && Filled(inner) && forall i :: 0 <= i < |inner| ==> OneLine(inner[i])
    ensures Complete(JoinLines(inner + [[], []]))
  {
    hide *;
    TwoBlank(inner);
    BlankLast(inner);
    LinesOfJoined(inner + [[]]);
    UnbrokenLines(JoinLines(inner + [[]]));
    EndsUnbroken(JoinLines(inner + [[]]));
  }

  lemma TwoBlank(inner: seq<seq<byte>>)
    requires inner != []
    ensures JoinLines(inner + [[]]) == JoinLines(inner) + [NEWLINE]
    ensures JoinLines(inner + [[], []]) == JoinLines(inner + [[]]) + [NEWLINE]
  {
    hide *;
    JoinAppend(inner, []);
    JoinAppend(inner + [[]], []);
    assert inner + [[], []] == (inner + [[]]) + [[]];
  }

  lemma BlankLast(inner: seq<seq<byte>>)
    requires forall i :: 0 <= i < |inner| ==> OneLine(inner[i])
    ensures forall i :: 0 <= i < |inner + [[]]| ==> OneLine((inner + [[]])[i])
    ensures (inner + [[]])[..|inner + [[]]| - 1] == inner
  {
  }

  lemma EndsUnbroken(body: seq<byte>)
    requires body != [] && body[|body| - 1] == NEWLINE && Unbroken(body)
    ensures Complete(body + [NEWLINE])
  {
    var frame := body + [NEWLINE];
    assert BreakAt(frame, |frame| - 2);
    var i := FirstBreak(frame);
    assert i < |frame| - 2 ==> BreakAt(body, i);
  }

  lemma RebuiltTail(inner: seq<seq<byte>>, line: seq<byte>)
    ensures Rebuilt(inner + [[], []], line) == Rebuilt(inner, line) + [[], []]
    ensures DataOf(inner + [[], []]) == DataOf(inner)
  {
    hide FieldOf;
    EmptyLineSaysNothing();
    assert inner + [[], []] == (inner + [[]]) + [[]];
    RebuiltStep(inner, [], line);
    RebuiltStep(inner + [[]], [], line);
    FieldsAppend(inner, []);
    FieldsAppend(inner + [[]], []);
    hide Rebuilt, DataOf, EventOf, HasComment;
    assert Rebuilt(inner, line) + [[]] + [[]] == Rebuilt(inner, line) + [[], []];
  }

  /** A complete frame is rewritten to a complete frame. */
  lemma RewrittenComplete(raw: seq<byte>, masked: seq<byte>)
    requires Complete(raw) && DataOf(Lines(raw)) != [] && Plain(masked)
    ensures Complete(JoinLines(Rebuilt(Lines(raw), DATA + [32] + masked)))
  {
    hide Lines, DataOf, Rebuilt, JoinLines, Complete, Filled, Plain, OneLine;
    var line := DATA + [32] + masked;
    var inner := CompleteLines(raw);
    LinesAreLines(raw);
    DataOneLine(masked);
    RebuiltTail(inner, line);
    assert forall i :: 0 <= i < |inner| ==> inner[i] == Lines(raw)[i];
    RebuiltLines(inner, line);
    RebuiltFilled(inner, line);
    LinesComplete(Rebuilt(inner, line));
  }

  /** A last frame is rewritten to a last frame. */
  lemma RewrittenLast(raw: seq<byte>, masked: seq<byte>)
    requires AtLeastLast(raw) && DataOf(Lines(raw)) != [] && Plain(masked)
    ensures AtLeastLast(JoinLines(Rebuilt(Lines(raw), DATA + [32] + masked)))
  {
    if Complete(raw) {
      RewrittenComplete(raw, masked);
    } else {
      hide Lines, DataOf, Rebuilt, JoinLines, Complete, Filled, Plain, OneLine, Unbroken, FirstBreak;
      var line := DATA + [32] + masked;
      var lines := Lines(raw);
      UnbrokenIsNoBreak(raw);
      UnbrokenLines(raw);
      LinesAreLines(raw);
      LinesNonEmpty(raw);
      DataOneLine(masked);
      RebuiltLines(lines, line);
      RebuiltOpen(lines, line);
      var frame := JoinLines(Rebuilt(lines, line));
      LinesOfJoined(Rebuilt(lines, line));
      UnbrokenLines(frame);
      UnbrokenIsNoBreak(frame);
      RewrittenNonEmpty(raw, masked);
    }
  }

  lemma RewrittenNonEmpty(raw: seq<byte>, masked: seq<byte>)
    requires DataOf(Lines(raw)) != [] && Plain(masked)
    ensures JoinLines(Rebuilt(Lines(raw), DATA + [32] + masked)) != []
  {
    hide Lines, Rebuilt, JoinLines, Plain, FieldOf;
    RewriteReadsBack(raw, masked);
    NothingUnbroken();
    EmptyLineSaysNothing();
  }

  /** Only the last line may be empty, before and after. */
  lemma RebuiltOpen(lines: seq<seq<byte>>, line: seq<byte>)
    requires lines != [] && Filled(lines[..|lines| - 1]) && line != [] && Rebuilt(lines, line) != []
    ensures var r := Rebuilt(lines, line); Filled(r[..|r| - 1])
  {
    hide FieldOf, DataOf, Rebuilt, Filled;
    var front, last := lines[..|lines| - 1], lines[|lines| - 1];
    RebuiltFilled(front, line);
    assert lines == front + [last];
    RebuiltStep(front, last, line);
    var r, f := Rebuilt(lines, line), Rebuilt(front, line);
    if r != f {
      assert r[..|r| - 1] == f;
    } else {
      FilledFront(f);
    }
  }

  lemma FilledFront(lines: seq<seq<byte>>)
    requires Filled(lines) && lines != []
    ensures Filled(lines[..|lines| - 1])
  {
  }
}
