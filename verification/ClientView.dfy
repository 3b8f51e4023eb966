/** What a client reads from the events it receives: the complete text with exactly the findings starred out. */
module ClientView {
  import opened Bytes
  import opened Rules
  import opened Equivalence
  import opened SpanMask
  import opened GateSpec
  import opened Release
  import opened Online
  import opened Sse
  import opened SseFrame
  import opened FrameShape

  type Choices = seq<Option<seq<byte>>>

  /** Written again with these choices, the event is read with these choices. */
  predicate Rewrites(codec: Codec, raw: seq<byte>, choices: Choices) {
    var frame := codec.render(raw, choices);
    frame.Some? && codec.carriers(frame.value) == Some(choices)
  }

  /** The text of an event. */
  function TextIn(codec: Codec, raw: seq<byte>): seq<byte> {
    var choices := codec.carriers(raw);
    if choices.None? then [] else Joined(choices.value)
  }

  /** The event is to be masked but cannot be written again, so that it is sent as it came. */
  ghost predicate Unwritable(codec: Codec, evt: PendingEvent, cover: iset<int>) {
    var choices := codec.carriers(evt.raw);
    && Touches(cover, evt.decodedStart, evt.decodedEnd) && choices.Some?
    && codec.render(evt.raw, MaskedChoices(choices.value, LocalCover(evt, cover))).None?
  }

  /** If the event is written again, it is read as the masked choices. */
  ghost predicate ReadsBack(codec: Codec, evt: PendingEvent, cover: iset<int>) {
    var choices := codec.carriers(evt.raw);
    Touches(cover, evt.decodedStart, evt.decodedEnd) && choices.Some? && !Unwritable(codec, evt, cover) ==>
      Rewrites(codec, evt.raw, MaskedChoices(choices.value, LocalCover(evt, cover)))
  }

  /** The positions that are masked in the event. */
  ghost function EventCover(codec: Codec, evt: PendingEvent, cover: iset<int>): iset<int> {
    if Unwritable(codec, evt, cover) then iset{} else cover
  }

  /** A masked event is read as the masked text of the event, unless it cannot be written. */
  lemma EventText(codec: Codec, evt: PendingEvent, text: seq<byte>, cover: iset<int>)
    requires ReadsBack(codec, evt, cover) && TextIn(codec, evt.raw) == text && evt.decodedEnd == evt.decodedStart + |text|
    ensures TextIn(codec, MaskedEvent(codec, evt, cover)) == Masked(text, EventCover(codec, evt, cover), evt.decodedStart)
  {
    if !Touches(cover, evt.decodedStart, evt.decodedEnd) {
      UntouchedMask(text, cover, evt.decodedStart);
    } else if Unwritable(codec, evt, cover) {
      UntouchedMask(text, iset{}, evt.decodedStart);
    } else {
      var choices, local := codec.carriers(evt.raw).value, LocalCover(evt, cover);
      LocallyTouched(evt, cover);
      MaskingCommutesWithJoining(choices, local);
      SameMask(text, evt, cover);
    }
  }

  lemma LocallyTouched(evt: PendingEvent, cover: iset<int>)
    requires evt.decodedStart <= evt.decodedEnd && Touches(cover, evt.decodedStart, evt.decodedEnd)
    ensures Touches(LocalCover(evt, cover), 0, evt.decodedEnd - evt.decodedStart)
  {
    var q :| evt.decodedStart <= q < evt.decodedEnd && q in cover;
    assert q - evt.decodedStart in LocalCover(evt, cover);
  }

  lemma SameMask(text: seq<byte>, evt: PendingEvent, cover: iset<int>)
    requires evt.decodedEnd == evt.decodedStart + |text|
    ensures Masked(text, LocalCover(evt, cover), 0) == Masked(text, cover, evt.decodedStart)
  {
  }

  /** What is read from events that were masked with the same covered positions. */
  ghost function Received(codec: Codec, events: seq<PendingEvent>, cover: iset<int>): seq<byte> {
    if events == [] then []
    else Received(codec, events[..|events| - 1], cover) + TextIn(codec, MaskedEvent(codec, events[|events| - 1], cover))
  }

  /** The text that was extracted from each frame is the text of its choices. */
  ghost predicate ExtractedRight(codec: Codec, tokens: seq<Token>) {
    forall i :: 0 <= i < |tokens| ==> tokens[i].text == TextIn(codec, tokens[i].raw)
  }

  ghost predicate AllReadBack(codec: Codec, events: seq<PendingEvent>, cover: iset<int>) {
    forall i :: 0 <= i < |events| ==> ReadsBack(codec, events[i], cover)
  }

  ghost predicate InUnwritable(codec: Codec, events: seq<PendingEvent>, cover: iset<int>, p: int) {
    exists i :: 0 <= i < |events| && InEvent(events[i], p) && Unwritable(codec, events[i], cover)
  }

  /** The covered positions that are masked when each event is written with this cover: all but those of events that cannot be
      written again. */
  ghost function WrittenCover(codec: Codec, events: seq<PendingEvent>, cover: iset<int>): iset<int> {
    iset p | p in cover && !InUnwritable(codec, events, cover, p)
  }

  /** In each event, `read` holds what is masked there. */
  ghost predicate CoversEvents(codec: Codec, events: seq<PendingEvent>, cover: iset<int>, read: iset<int>) {
    forall i, p :: 0 <= i < |events| && InEvent(events[i], p) ==> (p in read <==> p in EventCover(codec, events[i], cover))
  }

  lemma WrittenCovers(codec: Codec, tokens: seq<Token>, cover: iset<int>)
    ensures CoversEvents(codec, EventsOf(tokens), cover, WrittenCover(codec, EventsOf(tokens), cover))
  {
    hide EventsOf, TextOf, Unwritable;
    var events := EventsOf(tokens);
    forall i, p | 0 <= i < |events| && InEvent(events[i], p)
      ensures p in WrittenCover(codec, events, cover) <==> p in EventCover(codec, events[i], cover)
    {
      if j :| 0 <= j < |events| && InEvent(events[j], p) && Unwritable(codec, events[j], cover) {
        EventsApart(tokens, i, j, p);
      }
    }
  }

  /** Reading all masked events gives the masked text of the whole stream, wherever findings cross events. */
  lemma ReceivedIsMasked(codec: Codec, tokens: seq<Token>, cover: iset<int>)
    requires ExtractedRight(codec, tokens) && AllReadBack(codec, EventsOf(tokens), cover)
    ensures Received(codec, EventsOf(tokens), cover) == Masked(TextOf(tokens), WrittenCover(codec, EventsOf(tokens), cover), 0)
  {
    hide CoversEvents, Received, EventsOf, TextOf, ExtractedRight, AllReadBack, WrittenCover;
    WrittenCovers(codec, tokens, cover);
    ReceivedWith(codec, tokens, cover, WrittenCover(codec, EventsOf(tokens), cover));
  }

  lemma {:induction false} ReceivedWith(codec: Codec, tokens: seq<Token>, cover: iset<int>, read: iset<int>)
    requires ExtractedRight(codec, tokens) && AllReadBack(codec, EventsOf(tokens), cover)
    requires CoversEvents(codec, EventsOf(tokens), cover, read)
    ensures Received(codec, EventsOf(tokens), cover) == Masked(TextOf(tokens), read, 0)
  {
    hide ReadsBack, MaskedEvent, TextIn, EventCover;
    if tokens != [] {
      var front, last := tokens[..|tokens| - 1], tokens[|tokens| - 1];
      assert EventsOf(tokens)[..|tokens| - 1] == EventsOf(front);
      assert forall i :: 0 <= i < |front| ==> EventsOf(front)[i] == EventsOf(tokens)[i];
      ReceivedWith(codec, front, cover, read);
      var evt := PendingEvent(last.raw, |TextOf(front)|, |TextOf(front)| + |last.text|);
      assert EventsOf(tokens)[|tokens| - 1] == evt;
      EventText(codec, evt, last.text, cover);
      MaskedAppend(TextOf(front), last.text, read);
      SameMasked(last.text, EventCover(codec, evt, cover), read, |TextOf(front)|);
    }
  }

  lemma SameMasked(text: seq<byte>, cover: iset<int>, other: iset<int>, base: int)
    requires forall p :: base <= p < base + |text| ==> (p in cover <==> p in other)
    ensures Masked(text, cover, base) == Masked(text, other, base)
  {
  }

  lemma MaskedAppend(a: seq<byte>, b: seq<byte>, cover: iset<int>)
    ensures Masked(a + b, cover, 0) == Masked(a, cover, 0) + Masked(b, cover, |a|)
  {
  }

  /** If no start was overtaken and nothing blocks, the client receives exactly the events from which the complete text is
      read with every byte of every finding to be masked starred out where the event can be written again, and nothing else
      changed. */
  lemma ClientReadsMaskedText(cfg: Config, tokens: seq<Token>)
    requires NoneOvertaken(cfg.rules, tokens) && !HasBlock(cfg, AllKeys(cfg.rules, TextOf(tokens)))
    requires ExtractedRight(cfg.codec, tokens)
    requires AllReadBack(cfg.codec, EventsOf(tokens), KeyCover(cfg, AllKeys(cfg.rules, TextOf(tokens))))
    ensures var cover := KeyCover(cfg, AllKeys(cfg.rules, TextOf(tokens)));
            && Sent(cfg, tokens) == Output(cfg.codec, EventsOf(tokens), cover)
            && Received(cfg.codec, EventsOf(tokens), cover)
               == Masked(TextOf(tokens), WrittenCover(cfg.codec, EventsOf(tokens), cover), 0)
  {
    OnlineIsOffline(cfg, tokens);
    hide Sent, Output, NoneOvertaken, HasBlock, AllKeys, TextOf, EventsOf, KeyCover, AllReadBack, ExtractedRight, WrittenCover;
    ReceivedIsMasked(cfg.codec, tokens, KeyCover(cfg, AllKeys(cfg.rules, TextOf(tokens))));
  }

  // ----- Frames as events

  /** Reads the choices of a payload that comes with this event name. */
  type Parser = (seq<byte>, seq<byte>) -> Option<Choices>

  /** Writes a payload again with other choices. */
  type Writer = (seq<byte>, Choices) -> Option<seq<byte>>

  function CarriersOf(parse: Parser, raw: seq<byte>): Option<Choices> {
    if DataOf(Lines(raw)) == [] then None else parse(EventOf(Lines(raw)), JoinLines(DataOf(Lines(raw))))
  }

  function RenderFrame(write: Writer, raw: seq<byte>, choices: Choices): Option<seq<byte>> {
    if DataOf(Lines(raw)) == [] then None else
    var payload := write(JoinLines(DataOf(Lines(raw))), choices);
    if payload.None? then None else Some(JoinLines(Rebuilt(Lines(raw), DATA + [32] + payload.value)))
  }

  /** Events as frames, for a provider whose payloads are read by `parse` and written by `write`. */
  function FrameCodec(parse: Parser, write: Writer): Codec {
    Codec(raw => CarriersOf(parse, raw), (raw, choices) => RenderFrame(write, raw, choices))
  }

  /** Written again with these choices, on one line, the payload is read with these choices. */
  predicate RewritesPayload(parse: Parser, write: Writer, event: seq<byte>, payload: seq<byte>, choices: Choices) {
    var masked := write(payload, choices);
    masked.Some? && Plain(masked.value) && parse(event, masked.value) == Some(choices)
  }

  /** If the payload of a frame is rewritten without loss, so is the frame, however many data lines it has;
      its event name and its comments stay. */
  lemma FrameRewrites(parse: Parser, write: Writer,
                      raw: seq<byte>, choices: Choices)
    requires DataOf(Lines(raw)) != [] && RewritesPayload(parse, write, EventOf(Lines(raw)), JoinLines(DataOf(Lines(raw))), choices)
    ensures Rewrites(FrameCodec(parse, write), raw, choices)
    ensures var frame := FrameCodec(parse, write).render(raw, choices).value;
            EventOf(Lines(frame)) == EventOf(Lines(raw)) && HasComment(Lines(frame)) == HasComment(Lines(raw))
  {
    hide Lines, JoinLines, DataOf, Rebuilt, Plain, EventOf, HasComment;
    var codec := FrameCodec(parse, write);
    RewriteReadsBack(raw, write(JoinLines(DataOf(Lines(raw))), choices).value);
    assert codec.render(raw, choices) == RenderFrame(write, raw, choices);
    var frame := RenderFrame(write, raw, choices).value;
    assert codec.carriers(frame) == CarriersOf(parse, frame);
  }

  // ----- The bytes the client receives

  /** The frames as they are written, each masked with the same covered positions. */
  ghost function MaskedFrames(codec: Codec, events: seq<PendingEvent>, cover: iset<int>): (frames: seq<seq<byte>>)
    ensures |frames| == |events|
  {
    seq(|events|, i requires 0 <= i < |events| => MaskedEvent(codec, events[i], cover))
  }

  lemma {:induction false} OutputIsFrames(codec: Codec, events: seq<PendingEvent>, cover: iset<int>)
    ensures Output(codec, events, cover) == Flatten(MaskedFrames(codec, events, cover))
  {
    hide MaskedEvent;
    if events != [] {
      var front, frames := events[..|events| - 1], MaskedFrames(codec, events, cover);
      OutputIsFrames(codec, front, cover);
      assert frames[..|frames| - 1] == MaskedFrames(codec, front, cover);
    }
  }

  /** What a client reads from the bytes it receives: it cuts them into frames and reads the text of each. */
  function TextOfFrames(codec: Codec, frames: seq<seq<byte>>): seq<byte> {
    if frames == [] then [] else TextOfFrames(codec, frames[..|frames| - 1]) + TextIn(codec, frames[|frames| - 1])
  }

  lemma {:induction false} ReceivedIsRead(codec: Codec, events: seq<PendingEvent>, cover: iset<int>)
    ensures TextOfFrames(codec, MaskedFrames(codec, events, cover)) == Received(codec, events, cover)
  {
    hide MaskedEvent, TextIn;
    if events != [] {
      var front, frames := events[..|events| - 1], MaskedFrames(codec, events, cover);
      ReceivedIsRead(codec, front, cover);
      assert frames[..|frames| - 1] == MaskedFrames(codec, front, cover);
    }
  }

  /** If the masked payload of the event can be written, it is read back. */
  ghost predicate RewritesEvent(parse: Parser, write: Writer, evt: PendingEvent, cover: iset<int>) {
    var choices := CarriersOf(parse, evt.raw);
    Touches(cover, evt.decodedStart, evt.decodedEnd) && choices.Some? ==>
      var payload, masked := JoinLines(DataOf(Lines(evt.raw))), MaskedChoices(choices.value, LocalCover(evt, cover));
      write(payload, masked).Some? ==> RewritesPayload(parse, write, EventOf(Lines(evt.raw)), payload, masked)
  }

  ghost predicate AllRewritten(parse: Parser, write: Writer,
                               events: seq<PendingEvent>, cover: iset<int>)
  {
    forall i :: 0 <= i < |events| ==> RewritesEvent(parse, write, events[i], cover)
  }

  /** A masked frame is read back, and it ends where it should. */
  lemma FrameMasked(parse: Parser, write: Writer,
                    evt: PendingEvent, cover: iset<int>)
    requires RewritesEvent(parse, write, evt, cover)
    ensures ReadsBack(FrameCodec(parse, write), evt, cover)
    ensures Complete(evt.raw) ==> Complete(MaskedEvent(FrameCodec(parse, write), evt, cover))
    ensures AtLeastLast(evt.raw) ==> AtLeastLast(MaskedEvent(FrameCodec(parse, write), evt, cover))
  {
    hide Lines, JoinLines, DataOf, Rebuilt, Plain, Complete, AtLeastLast, EventOf, HasComment, LocalCover, MaskedChoices, Joined;
    var codec := FrameCodec(parse, write);
    assert codec.carriers(evt.raw) == CarriersOf(parse, evt.raw);
    if Touches(cover, evt.decodedStart, evt.decodedEnd) && CarriersOf(parse, evt.raw).Some? {
      var choices := MaskedChoices(CarriersOf(parse, evt.raw).value, LocalCover(evt, cover));
      assert codec.render(evt.raw, choices) == RenderFrame(write, evt.raw, choices);
      if write(JoinLines(DataOf(Lines(evt.raw))), choices).Some? {
        FrameRewrites(parse, write, evt.raw, choices);
        var payload := write(JoinLines(DataOf(Lines(evt.raw))), choices).value;
        if Complete(evt.raw) { RewrittenComplete(evt.raw, payload); }
        if AtLeastLast(evt.raw) { RewrittenLast(evt.raw, payload); }
      }
    }
  }

  /** The frames of a body, with the text of each. */
  function TokensOf(codec: Codec, frames: seq<seq<byte>>): (tokens: seq<Token>)
    ensures |tokens| == |frames|
  {
    seq(|frames|, i requires 0 <= i < |frames| => Token(frames[i], TextIn(codec, frames[i])))
  }

  lemma EventRaw(tokens: seq<Token>, i: nat)
    requires i < |tokens|
    ensures EventsOf(tokens)[i].raw == tokens[i].raw
  {
    EventAt(tokens, i);
  }

  /** The masked frames, written one after the other, are cut into the same frames again. */
  lemma MaskedFramesStay(parse: Parser, write: Writer,
                         upstream: seq<byte>, tokens: seq<Token>, cover: iset<int>)
    requires tokens == TokensOf(FrameCodec(parse, write), Frames(upstream))
    requires AllRewritten(parse, write, EventsOf(tokens), cover)
    ensures var frames := MaskedFrames(FrameCodec(parse, write), EventsOf(tokens), cover);
            Frames(Flatten(frames)) == frames
    ensures AllReadBack(FrameCodec(parse, write), EventsOf(tokens), cover)
  {
    hide Frames, FrameCodec, MaskedEvent, Complete, AtLeastLast, RewritesEvent, EventsOf, TextOf, ReadsBack, TextIn;
    var codec, events := FrameCodec(parse, write), EventsOf(tokens);
    var frames := MaskedFrames(codec, events, cover);
    FramesAreInFrames(upstream);
    forall i | 0 <= i < |frames|
      ensures ReadsBack(codec, events[i], cover)
      ensures Complete(Frames(upstream)[i]) ==> Complete(frames[i])
      ensures AtLeastLast(Frames(upstream)[i]) ==> AtLeastLast(frames[i])
    {
      EventRaw(tokens, i);
      FrameMasked(parse, write, events[i], cover);
    }
    FramesOfFlat(frames);
  }

  /** If no start was overtaken and nothing blocks, a client that cuts what it receives into frames, as the gateway cut the
      upstream body, reads the complete text with every byte of every finding to be masked starred out, except in events that
      cannot be written again. */
  lemma ClientReadsBytes(cfg: Config, parse: Parser, write: Writer,
                         upstream: seq<byte>, tokens: seq<Token>)
    requires cfg.codec == FrameCodec(parse, write) && tokens == TokensOf(cfg.codec, Frames(upstream))
    requires NoneOvertaken(cfg.rules, tokens) && !HasBlock(cfg, AllKeys(cfg.rules, TextOf(tokens)))
    requires AllRewritten(parse, write, EventsOf(tokens), KeyCover(cfg, AllKeys(cfg.rules, TextOf(tokens))))
    ensures var cover := KeyCover(cfg, AllKeys(cfg.rules, TextOf(tokens)));
            && Frames(Sent(cfg, tokens)) == MaskedFrames(cfg.codec, EventsOf(tokens), cover)
            && TextOfFrames(cfg.codec, Frames(Sent(cfg, tokens)))
               == Masked(TextOf(tokens), WrittenCover(cfg.codec, EventsOf(tokens), cover), 0)
  {
    var cover := KeyCover(cfg, AllKeys(cfg.rules, TextOf(tokens)));
    ExtractedFromFrames(cfg.codec, tokens, upstream);
    hide *;
    MaskedFramesStay(parse, write, upstream, tokens, cover);
    ClientReadsMaskedText(cfg, tokens);
    OutputIsFrames(cfg.codec, EventsOf(tokens), cover);
    ReceivedIsRead(cfg.codec, EventsOf(tokens), cover);
  }

  lemma ExtractedFromFrames(codec: Codec, tokens: seq<Token>, upstream: seq<byte>)
    requires tokens == TokensOf(codec, Frames(upstream))
    ensures ExtractedRight(codec, tokens)
  {
    hide TextIn, Frames;
  }

  /** Frames put together as events are the frames put together. */
  lemma {:induction false} RawIsFrames(codec: Codec, frames: seq<seq<byte>>)
    ensures RawOutput(EventsOf(TokensOf(codec, frames))) == Flatten(frames)
  {
    hide TextIn, TextOf;
    var tokens := TokensOf(codec, frames);
    if frames != [] {
      var front := frames[..|frames| - 1];
      RawIsFrames(codec, front);
      assert tokens[..|tokens| - 1] == TokensOf(codec, front);
      assert EventsOf(tokens)[..|tokens| - 1] == EventsOf(TokensOf(codec, front));
    }
  }
}
