/** A streamed response from the upstream body to the client. */
module Relay {
  import opened Bytes
  import opened Rules
  import opened Matching
  import opened Equivalence
  import opened SpanMask
  import opened GateSpec
  import opened Gate
  import opened Release
  import opened Response
  import opened Online
  import opened Sse
  import opened ClientView

  /** The frames of what is read of the body, with the text of each. */
  ghost function UpstreamTokens(codec: Codec, chunks: seq<seq<byte>>, broken: bool): seq<Token> {
    TokensOf(codec, Frames(Delivered(Flatten(chunks), broken)))
  }

  /** Relays a body that arrives in chunks and ends with the end of file or, broken, with an error, for a provider whose
      payloads are read by `parse` and written by `write`. However the body is cut into chunks, the client receives the same
      bytes; if nothing is to be blocked or masked, exactly those that were read. If no start was overtaken and nothing blocks,
      it reads from them the complete text with every byte of every finding to be masked starred out, except in events that
      cannot be written again. */
  method RelayBody(m: Matcher, policy: Policy, parse: Parser, write: Writer, chunks: seq<seq<byte>>, broken: bool)
    returns (sent: seq<byte>, verdict: Verdict)
    requires m.Valid()
    ensures var cfg := Config(m.rules, policy, FrameCodec(parse, write));
            var tokens := UpstreamTokens(cfg.codec, chunks, broken);
            var cover := KeyCover(cfg, AllKeys(cfg.rules, TextOf(tokens)));
            && sent == Sent(cfg, tokens)
            && verdict == RightVerdict(cfg, AllKeys(cfg.rules, TextOf(tokens)))
            && (verdict != Withheld && NoneOvertaken(cfg.rules, tokens) && AllRewritten(parse, write, EventsOf(tokens), cover) ==>
                  TextOfFrames(cfg.codec, Frames(sent))
                  == Masked(TextOf(tokens), WrittenCover(cfg.codec, EventsOf(tokens), cover), 0))
    ensures verdict == Forwarded ==> sent == Delivered(Flatten(chunks), broken)
  {
    hide *;
    var codec := FrameCodec(parse, write);
    ghost var cfg, read := Config(m.rules, policy, codec), Delivered(Flatten(chunks), broken);
    var frames := ReadAll(chunks, broken);
    var tokens := TokensOf(codec, frames);
    TokensAre(codec, chunks, broken, tokens);
    var detail;
    sent, verdict, detail := HandleStream(m, policy, codec, tokens);
    Verdicts(cfg, AllKeys(cfg.rules, TextOf(tokens)));
    if verdict != Withheld && NoneOvertaken(cfg.rules, tokens)
       && AllRewritten(parse, write, EventsOf(tokens), KeyCover(cfg, AllKeys(cfg.rules, TextOf(tokens)))) {
      ClientReadsBytes(cfg, parse, write, read, tokens);
    }
    RawIsFrames(codec, frames);
    FramesCover(read);
  }

  lemma TokensAre(codec: Codec, chunks: seq<seq<byte>>, broken: bool, tokens: seq<Token>)
    requires tokens == TokensOf(codec, Frames(Delivered(Flatten(chunks), broken)))
    ensures tokens == UpstreamTokens(codec, chunks, broken)
  {
  }
}
