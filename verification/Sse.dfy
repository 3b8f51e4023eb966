/** Server-sent events: cutting the byte stream into frames. */
module Sse {
  import opened Bytes
  import opened Rules
  import opened Equivalence

  // ----- Frames

  /** A blank line begins at j. */
  predicate BreakAt(s: seq<byte>, j: nat) { j + 1 < |s| && s[j] == NEWLINE && s[j + 1] == NEWLINE }

  /** Where the first blank line begins, or the length of s if there is none. */
  function FirstBreak(s: seq<byte>): (i: nat)
    ensures i <= |s| && (i < |s| ==> BreakAt(s, i))
    ensures forall j: nat :: j < i ==> !BreakAt(s, j)
  {
    if s == [] then 0
    else if BreakAt(s, 0) then 0
    else
      var i := FirstBreak(s[1..]);
      assert forall j: nat :: 0 < j < i + 1 ==> BreakAt(s, j) == BreakAt(s[1..], j - 1);
      1 + i
  }

  /** Where the first frame ends: behind its blank line, or with the stream. */
  function FrameEnd(s: seq<byte>): (k: nat)
    ensures k <= |s| && (s != [] ==> k > 0)
  {
    if FirstBreak(s) < |s| then FirstBreak(s) + 2 else |s|
  }

  /** The frames of a complete stream. */
  function Frames(s: seq<byte>): seq<seq<byte>>
    decreases |s|
  {
    if s == [] then [] else [s[..FrameEnd(s)]] + Frames(s[FrameEnd(s)..])
  }

  lemma BreakFound(s: seq<byte>, more: seq<byte>)
    requires FirstBreak(s) < |s|
    ensures FirstBreak(s + more) == FirstBreak(s)
  {
    var i, j := FirstBreak(s), FirstBreak(s + more);
    assert BreakAt(s + more, i) && (j < i ==> !BreakAt(s, j));
  }

  /** The frames put together are the stream, and every frame but the last ends at its own first blank line. */
  lemma {:induction false} FramesCover(s: seq<byte>)
    ensures Flatten(Frames(s)) == s
    ensures forall k :: 0 <= k < |Frames(s)| ==> Frames(s)[k] != []
    ensures forall k :: 0 <= k < |Frames(s)| - 1 ==> |Frames(s)[k]| >= 2 && FirstBreak(Frames(s)[k]) == |Frames(s)[k]| - 2
    decreases |s|
  {
    hide FirstBreak, FrameEnd, Frames, Flatten;
    if s == [] {
      NoFramesInNothing();
    } else {
      var head, rest := s[..FrameEnd(s)], s[FrameEnd(s)..];
      FramesCover(rest);
      NextFrame(s);
      HeadFrame(s);
      NoFramesInNothing();
      FlattenFirst([head] + Frames(rest));
      assert ([head] + Frames(rest))[1..] == Frames(rest);
      assert head + rest == s;
    }
  }

  lemma NoFramesInNothing()
    ensures Frames([]) == [] && Flatten<byte>([]) == []
  {
  }

  lemma HeadFrame(s: seq<byte>)
    ensures FrameEnd(s) < |s| ==> FrameEnd(s) >= 2 && FirstBreak(s[..FrameEnd(s)]) == FrameEnd(s) - 2
  {
    if FrameEnd(s) < |s| {
      var i := FirstBreak(s);
      var head := s[..i + 2];
      var j := FirstBreak(head);
      assert BreakAt(head, i) && (j < i ==> !BreakAt(s, j));
    }
  }

  // ----- What is read of a body

  /** The bytes up to the last blank line. */
  function CompletePart(s: seq<byte>): (r: seq<byte>)
    decreases |s|
  {
    if FirstBreak(s) < |s| then s[..FrameEnd(s)] + CompletePart(s[FrameEnd(s)..]) else []
  }

  /** What is read of a body that ends with the end of file or, broken, with an error: then an unfinished frame is lost. */
  function Delivered(s: seq<byte>, broken: bool): seq<byte> { if broken then CompletePart(s) else s }

  /** Only what is behind the last blank line is lost, and it holds no blank line. */
  lemma {:induction false} CompletePartEnds(s: seq<byte>) returns (rest: seq<byte>)
    ensures s == CompletePart(s) + rest && FirstBreak(rest) == |rest|
    decreases |s|
  {
    hide FirstBreak;
    if FirstBreak(s) < |s| {
      var k := FrameEnd(s);
      hide FrameEnd;
      rest := CompletePartEnds(s[k..]);
      Rejoined(s, k, CompletePart(s[k..]), rest);
    } else {
      rest := s;
    }
  }

  lemma Rejoined(s: seq<byte>, k: nat, a: seq<byte>, b: seq<byte>)
    requires k <= |s| && s[k..] == a + b
    ensures s == (s[..k] + a) + b
  {
  }

  lemma DeliveredStep(s: seq<byte>, broken: bool)
    ensures FirstBreak(s) < |s| || (s != [] && !broken) ==>
              && Delivered(s, broken) != []
              && Frames(Delivered(s, broken)) == [s[..FrameEnd(s)]] + Frames(Delivered(s[FrameEnd(s)..], broken))
    ensures !(FirstBreak(s) < |s| || (s != [] && !broken)) ==> Delivered(s, broken) == []
  {
    hide FirstBreak, Frames;
    if FirstBreak(s) < |s| && broken {
      var head, rest := s[..FrameEnd(s)], CompletePart(s[FrameEnd(s)..]);
      BreakKept(s);
      BreakFound(head, rest);
      NextFrame(head + rest);
      assert (head + rest)[..|head|] == head && (head + rest)[|head|..] == rest;
    } else if s != [] && !broken {
      NextFrame(s);
    }
  }

  lemma BreakKept(s: seq<byte>)
    requires FirstBreak(s) < |s|
    ensures var head := s[..FrameEnd(s)]; FirstBreak(head) == FirstBreak(s) == |head| - 2
  {
    HeadFrame(s);
    assert BreakAt(s, FirstBreak(s));
    var head := s[..FirstBreak(s) + 2];
    assert BreakAt(head, FirstBreak(s));
    var j := FirstBreak(head);
    assert j < FirstBreak(s) ==> !BreakAt(s, j);
  }

  /** Reads the upstream body: a buffer, and the reads still to come. */
  class FrameReader {
    var buf: seq<byte>
    var chunks: seq<seq<byte>>
    /** Whether the body ends with an error instead of the end of file. */
    const broken: bool

    constructor (chunks: seq<seq<byte>>, broken: bool)
      ensures buf == [] && this.chunks == chunks && this.broken == broken
    {
      buf, this.chunks, this.broken := [], chunks, broken;
    }

    /** The bytes that have not been handed out. */
    ghost function Rest(): seq<byte>
      reads this
    {
      buf + Flatten(chunks)
    }

    /** The next frame, or nothing at the end of the body. A read may hold any bytes. */
    method Next() returns (token: Option<seq<byte>>)
      modifies this
      ensures var rest := old(Rest());
              if FirstBreak(rest) < |rest| || (rest != [] && !broken)
              then token == Some(rest[..FrameEnd(rest)]) && Rest() == rest[FrameEnd(rest)..]
              else token == None && Rest() == rest
    {
      while true
        invariant Rest() == old(Rest())
        decreases |chunks|
      {
        var i := FirstBreak(buf);
        if i < |buf| {
          BreakFound(buf, Flatten(chunks));
          assert Rest()[..i + 2] == buf[..i + 2] && Rest()[i + 2..] == buf[i + 2..] + Flatten(chunks);
          token := Some(buf[..i + 2]);
          buf := buf[i + 2..];
          return;
        }
        if chunks != [] {
          FlattenFirst(chunks);
          assert buf + (chunks[0] + Flatten(chunks[1..])) == (buf + chunks[0]) + Flatten(chunks[1..]);
          buf := buf + chunks[0];
          chunks := chunks[1..];
        } else if !broken && |buf| > 0 {
          assert Rest() == buf;
          token := Some(buf);
          buf := [];
          return;
        } else {
          return None;
        }
      }
    }
  }

  /** Reading to the end gives the frames of what is read, however the body was cut into chunks. */
  method ReadAll(chunks: seq<seq<byte>>, broken: bool) returns (tokens: seq<seq<byte>>)
    ensures tokens == Frames(Delivered(Flatten(chunks), broken))
  {
    var r := new FrameReader(chunks, broken);
    tokens := [];
    ghost var s := Flatten(chunks);
    assert r.Rest() == s;
    hide FirstBreak, Frames, Flatten, Delivered;
    assert tokens + Frames(Delivered(s, broken)) == Frames(Delivered(s, broken));
    while true
      invariant fresh(r) && r.broken == broken
      invariant tokens + Frames(Delivered(r.Rest(), broken)) == Frames(Delivered(s, broken))
      decreases |r.Rest()|
    {
      ghost var rest := r.Rest();
      DeliveredStep(rest, broken);
      var token := r.Next();
      if token.None? {
        NoFrames(tokens);
        return;
      }
      Shift(tokens, token.value, Frames(Delivered(r.Rest(), broken)));
      tokens := tokens + [token.value];
    }
  }

  lemma Shift<T>(a: seq<T>, x: T, b: seq<T>)
    ensures a + ([x] + b) == (a + [x]) + b
  {
  }

  lemma NextFrame(s: seq<byte>)
    requires s != []
    ensures Frames(s) == [s[..FrameEnd(s)]] + Frames(s[FrameEnd(s)..])
  {
    hide FirstBreak, FrameEnd;
  }

  lemma NoFrames(tokens: seq<seq<byte>>)
    ensures tokens + Frames([]) == tokens
  {
  }
}
