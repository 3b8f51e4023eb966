/** A whole streamed response: what the client receives. */
module Response {
  import opened Bytes
  import opened Rules
  import opened Matching
  import opened Holding
  import opened GateSpec
  import opened Gate
  import opened Release

  /** Handles a streamed response frame by frame. `sent` is what the client receives, before the error frame
      if the response is withheld. */
  method HandleStream(m: Matcher, policy: Policy, codec: Codec, tokens: seq<Token>)
    returns (sent: seq<byte>, verdict: Verdict, detail: Option<BlockDetail>)
    requires m.Valid()
    ensures sent == Sent(Config(m.rules, policy, codec), tokens)
    ensures verdict == RightVerdict(Config(m.rules, policy, codec), AllKeys(m.rules, TextOf(tokens)))
    ensures verdict == Withheld ==> Blames(Config(m.rules, policy, codec), AllKeys(m.rules, TextOf(tokens)), detail)
    ensures verdict == Forwarded ==> sent == RawOutput(EventsOf(tokens))
  {
    hide *;
    var ss := new StreamScanner(m, policy, codec);
    ghost var cfg := Config(m.rules, policy, codec);
    NoTokens(cfg, tokens);
    for i := 0 to |tokens|
      invariant ss.Valid() && fresh(ss) && fresh(ss.streamScan) && !ss.blocked
      invariant ss.streamScan.m == m && ss.policy == policy && ss.codec == codec
      invariant ss.decoded == TextOf(tokens[..i])
      invariant Underway(cfg, tokens[..i], ss.written, ss.pending)
      invariant !HasBlock(cfg, SeenAt(cfg.rules, TextOf(tokens[..i])))
    {
      TokensStep(tokens, i);
      CfgIs(ss);
      ghost var written, pending := ss.written, ss.pending;
      ss.AddEvent(tokens[i].raw, tokens[i].text);
      ss.ScanAndFlush();
      CfgIs(ss);
      if ss.blocked {
        StopEarly(cfg, tokens, i, written, pending, ss.blockDetail);
        return ss.written, Withheld, ss.blockDetail;
      }
      FrameDone(cfg, tokens, i, written, pending, ss.written, ss.pending);
    }
    assert tokens[..|tokens|] == tokens;
    CfgIs(ss);
    ghost var written, pending := ss.written, ss.pending;
    verdict := ss.Finalize();
    sent, detail := ss.written, ss.blockDetail;
    CfgIs(ss);
    EndOfStream(cfg, tokens, written, pending, sent);
    Verdicts(cfg, AllKeys(cfg.rules, TextOf(tokens)));
    if verdict == Forwarded {
      PassedThrough(cfg, tokens);
    }
  }

  /** What has been written and what waits after the frames read so far. */
  ghost predicate Underway(cfg: Config, tokens: seq<Token>, written: seq<byte>, pending: seq<PendingEvent>) {
    var n := Released(cfg.rules, tokens);
    written == SentEvents(cfg, tokens, n) && pending == EventsOf(tokens)[n..]
  }

  lemma NoTokens(cfg: Config, tokens: seq<Token>)
    ensures TextOf(tokens[..0]) == [] && Underway(cfg, tokens[..0], [], [])
    ensures !HasBlock(cfg, SeenAt(cfg.rules, TextOf(tokens[..0])))
  {
  }

  lemma CfgIs(ss: StreamScanner)
    ensures ss.Cfg() == Config(ss.streamScan.m.rules, ss.policy, ss.codec)
  {
  }

  /** One frame: its event joins the queue, and what is settled leaves it. */
  lemma FrameDone(cfg: Config, tokens: seq<Token>, i: nat, written: seq<byte>, pending: seq<PendingEvent>,
                  written': seq<byte>, pending': seq<PendingEvent>)
    requires i < |tokens| && Underway(cfg, tokens[..i], written, pending)
    requires var next := tokens[..i + 1];
             var queue := pending + [PendingEvent(tokens[i].raw, |TextOf(tokens[..i])|, |TextOf(next)|)];
             var k := SettledCount(queue, SafeEnd(cfg.rules, TextOf(next)));
             && pending' == queue[k..]
             && written' == written + Output(cfg.codec, queue[..k], KeyCover(cfg, SeenAt(cfg.rules, TextOf(next))))
    ensures Underway(cfg, tokens[..i + 1], written', pending')
  {
    hide TextOf, EventsOf, Released, SentEvents, Output, KeyCover, SeenAt, SafeEnd, SettledCount;
    var next := tokens[..i + 1];
    var m := Released(cfg.rules, tokens[..i]);
    TokensStep(tokens, i);
    ReleasedStep(cfg.rules, tokens, i);
    SentStep(cfg, tokens, i);
    var queue := EventsOf(next)[m..];
    assert queue == pending + [PendingEvent(tokens[i].raw, |TextOf(tokens[..i])|, |TextOf(next)|)];
    var k := SettledCount(queue, SafeEnd(cfg.rules, TextOf(next)));
    assert queue[..k] == EventsOf(next)[m..m + k] && queue[k..] == EventsOf(next)[m + k..];
  }

  /** A block found before the end of the stream. */
  lemma StopEarly(cfg: Config, tokens: seq<Token>, i: nat, written: seq<byte>, pending: seq<PendingEvent>,
                  detail: Option<BlockDetail>)
    requires i < |tokens| && Underway(cfg, tokens[..i], written, pending)
    requires !HasBlock(cfg, SeenAt(cfg.rules, TextOf(tokens[..i])))
    requires HasBlock(cfg, SeenAt(cfg.rules, TextOf(tokens[..i + 1])))
    requires Blames(cfg, SeenAt(cfg.rules, TextOf(tokens[..i + 1])), detail)
    ensures written == Sent(cfg, tokens) && RightVerdict(cfg, AllKeys(cfg.rules, TextOf(tokens))) == Withheld
    ensures Blames(cfg, AllKeys(cfg.rules, TextOf(tokens)), detail)
  {
    hide TextOf, EventsOf, Released, SentEvents, SentCount, SeenAt, AllKeys, HasBlock, HasMask, Blames;
    TokensPrefix(tokens, i + 1);
    KeysGrow(cfg.rules, TextOf(tokens[..i + 1]), TextOf(tokens));
    BlamesMore(cfg, SeenAt(cfg.rules, TextOf(tokens[..i + 1])), AllKeys(cfg.rules, TextOf(tokens)), detail);
    SentCountStays(cfg, tokens, i);
    SentCountOpen(cfg, tokens[..i]);
    SentPrefix(cfg, tokens, i, Released(cfg.rules, tokens[..i]));
  }

  lemma EndOfStream(cfg: Config, tokens: seq<Token>, written: seq<byte>, pending: seq<PendingEvent>, sent: seq<byte>)
    requires Underway(cfg, tokens, written, pending) && !HasBlock(cfg, SeenAt(cfg.rules, TextOf(tokens)))
    requires sent == if HasBlock(cfg, AllKeys(cfg.rules, TextOf(tokens))) then written
                     else written + Output(cfg.codec, pending, KeyCover(cfg, AllKeys(cfg.rules, TextOf(tokens))))
    ensures sent == Sent(cfg, tokens)
  {
    hide TextOf, EventsOf, Released, SentEvents, SentCount, Output, KeyCover, SeenAt, AllKeys, HasBlock;
    SentCountOpen(cfg, tokens);
    SentAtEnd(cfg, tokens);
  }
}
