/** When the events of a stream are written, and what is known by then: everything here is a function of the rules, the policy
    and the frames, without a queue or a scanner. */
module Release {
  import opened Bytes
  import opened Rules
  import opened Holding
  import opened SpanMask
  import opened GateSpec

  // ----- Frames and events

  /** A frame as read from upstream and the text extracted from it. */
  datatype Token = Token(raw: seq<byte>, text: seq<byte>)

  function TextOf(tokens: seq<Token>): seq<byte> {
    if tokens == [] then [] else TextOf(tokens[..|tokens| - 1]) + tokens[|tokens| - 1].text
  }

  function EventsOf(tokens: seq<Token>): (events: seq<PendingEvent>)
    ensures |events| == |tokens|
  {
    if tokens == [] then [] else
    var front, last := tokens[..|tokens| - 1], tokens[|tokens| - 1];
    EventsOf(front) + [PendingEvent(last.raw, |TextOf(front)|, |TextOf(front)| + |last.text|)]
  }

  lemma TokensStep(tokens: seq<Token>, i: nat)
    requires i < |tokens|
    ensures TextOf(tokens[..i + 1]) == TextOf(tokens[..i]) + tokens[i].text
    ensures EventsOf(tokens[..i + 1])
         == EventsOf(tokens[..i]) + [PendingEvent(tokens[i].raw, |TextOf(tokens[..i])|, |TextOf(tokens[..i + 1])|)]
  {
    assert tokens[..i + 1][..i] == tokens[..i];
  }

  lemma {:induction false} TokensPrefix(tokens: seq<Token>, i: nat)
    requires i <= |tokens|
    ensures TextOf(tokens[..i]) <= TextOf(tokens) && EventsOf(tokens[..i]) <= EventsOf(tokens)
    decreases |tokens|
  {
    if i < |tokens| {
      var front := tokens[..|tokens| - 1];
      TokensPrefix(front, i);
      assert front[..i] == tokens[..i];
    } else {
      assert tokens[..i] == tokens;
    }
  }

  /** Event i holds the text of frame i, where it lies in the whole text. */
  lemma EventAt(tokens: seq<Token>, i: nat)
    requires i < |tokens|
    ensures EventsOf(tokens)[i] == PendingEvent(tokens[i].raw, |TextOf(tokens[..i])|, |TextOf(tokens[..i + 1])|)
    ensures |TextOf(tokens[..i + 1])| == |TextOf(tokens[..i])| + |tokens[i].text| <= |TextOf(tokens)|
  {
    TokensStep(tokens, i);
    TokensPrefix(tokens, i + 1);
  }

  predicate InEvent(evt: PendingEvent, p: int) { evt.decodedStart <= p < evt.decodedEnd }

  lemma EventsInOrder(tokens: seq<Token>, i: nat, j: nat)
    requires i < j < |tokens|
    ensures EventsOf(tokens)[i].decodedEnd <= EventsOf(tokens)[j].decodedStart
  {
    hide TextOf, EventsOf;
    EventAt(tokens, i);
    EventAt(tokens, j);
    TokensPrefix(tokens[..j], i + 1);
    assert tokens[..j][..i + 1] == tokens[..i + 1];
  }

  /** No byte of the text belongs to two events. */
  lemma EventsApart(tokens: seq<Token>, i: nat, j: nat, p: int)
    requires i < |tokens| && j < |tokens| && InEvent(EventsOf(tokens)[i], p) && InEvent(EventsOf(tokens)[j], p)
    ensures i == j
  {
    hide EventsOf;
    if i < j { EventsInOrder(tokens, i, j); }
    if j < i { EventsInOrder(tokens, j, i); }
  }

  // ----- When events are written

  /** How many events have been written when all of `tokens` has been read and nothing blocks: each call writes the events
      that end in the part of the text settled by then. */
  ghost function Released(rules: seq<CompiledRule>, tokens: seq<Token>): (n: nat)
    ensures n <= |tokens|
  {
    if tokens == [] then 0 else
    var n := Released(rules, tokens[..|tokens| - 1]);
    n + SettledCount(EventsOf(tokens)[n..], SafeEnd(rules, TextOf(tokens)))
  }

  /** The text that has been read when event j is written. */
  ghost function TextThen(rules: seq<CompiledRule>, tokens: seq<Token>, j: nat): seq<byte> {
    if tokens != [] && j < Released(rules, tokens[..|tokens| - 1]) then TextThen(rules, tokens[..|tokens| - 1], j)
    else TextOf(tokens)
  }

  /** The findings known when event j is written: those reported by then, or at the end of the stream all. */
  ghost function KnownAt(rules: seq<CompiledRule>, tokens: seq<Token>, j: nat): set<CandidateKey> {
    if j < Released(rules, tokens) then SeenAt(rules, TextThen(rules, tokens, j)) else AllKeys(rules, TextOf(tokens))
  }

  /** The first n events, each masked with what is known when it is written. */
  ghost function SentEvents(cfg: Config, tokens: seq<Token>, n: nat): seq<byte>
    requires n <= |tokens|
  {
    if n == 0 then []
    else SentEvents(cfg, tokens, n - 1)
         + MaskedEvent(cfg.codec, EventsOf(tokens)[n - 1], KeyCover(cfg, KnownAt(cfg.rules, tokens, n - 1)))
  }

  /** How many events are written before a finding blocks: those that were released before it was reported. */
  ghost function SentCount(cfg: Config, tokens: seq<Token>): (n: nat)
    ensures n <= |tokens|
  {
    if tokens == [] then 0
    else if HasBlock(cfg, SeenAt(cfg.rules, TextOf(tokens))) then SentCount(cfg, tokens[..|tokens| - 1])
    else Released(cfg.rules, tokens)
  }

  /** What the client receives. */
  ghost function Sent(cfg: Config, tokens: seq<Token>): seq<byte> {
    SentEvents(cfg, tokens, if HasBlock(cfg, AllKeys(cfg.rules, TextOf(tokens))) then SentCount(cfg, tokens) else |tokens|)
  }

  // ----- More frames change nothing about events already written

  lemma ReleasedStep(rules: seq<CompiledRule>, tokens: seq<Token>, i: nat)
    requires i < |tokens|
    ensures var n := Released(rules, tokens[..i]);
            Released(rules, tokens[..i + 1])
            == n + SettledCount(EventsOf(tokens[..i + 1])[n..], SafeEnd(rules, TextOf(tokens[..i + 1])))
  {
    assert tokens[..i + 1][..i] == tokens[..i];
  }

  lemma {:induction false} ReleasedPrefix(rules: seq<CompiledRule>, tokens: seq<Token>, i: nat)
    requires i <= |tokens|
    ensures Released(rules, tokens[..i]) <= Released(rules, tokens)
    ensures forall j: nat :: j < Released(rules, tokens[..i]) ==> TextThen(rules, tokens, j) == TextThen(rules, tokens[..i], j)
    decreases |tokens|
  {
    if i < |tokens| {
      var front := tokens[..|tokens| - 1];
      ReleasedPrefix(rules, front, i);
      assert front[..i] == tokens[..i];
      hide SafeEnd, TextOf, EventsOf;
    } else {
      assert tokens[..i] == tokens;
    }
  }

  lemma {:induction false} SentPrefix(cfg: Config, tokens: seq<Token>, i: nat, n: nat)
    requires i <= |tokens| && n <= Released(cfg.rules, tokens[..i])
    ensures n <= |tokens| && SentEvents(cfg, tokens, n) == SentEvents(cfg, tokens[..i], n)
    decreases n
  {
    hide Released, TextThen, EventsOf, TextOf, MaskedEvent, KeyCover;
    if n > 0 {
      SentPrefix(cfg, tokens, i, n - 1);
      ReleasedPrefix(cfg.rules, tokens, i);
      TokensPrefix(tokens, i);
      assert KnownAt(cfg.rules, tokens, n - 1) == KnownAt(cfg.rules, tokens[..i], n - 1);
    }
  }

  lemma SentLast(cfg: Config, tokens: seq<Token>, n: nat)
    requires 0 < n <= |tokens|
    ensures SentEvents(cfg, tokens, n)
         == SentEvents(cfg, tokens, n - 1)
            + MaskedEvent(cfg.codec, EventsOf(tokens)[n - 1], KeyCover(cfg, KnownAt(cfg.rules, tokens, n - 1)))
  {
    hide KnownAt, EventsOf, TextOf, MaskedEvent, KeyCover;
  }

  /** Events that are written together are masked alike. */
  lemma {:induction false} SentTogether(cfg: Config, tokens: seq<Token>, m: nat, n: nat, keys: set<CandidateKey>)
    requires m <= n <= |tokens|
    requires forall j :: m <= j < n ==> KnownAt(cfg.rules, tokens, j) == keys
    ensures SentEvents(cfg, tokens, n)
         == SentEvents(cfg, tokens, m) + Output(cfg.codec, EventsOf(tokens)[m..n], KeyCover(cfg, keys))
    decreases n
  {
    hide *;
    var events := EventsOf(tokens);
    if m < n {
      SentTogether(cfg, tokens, m, n - 1, keys);
      SentLast(cfg, tokens, n);
      OutputLast(cfg.codec, events, m, n, KeyCover(cfg, keys));
    } else {
      assert events[m..n] == [];
      OutputNothing(cfg.codec, KeyCover(cfg, keys));
    }
  }

  /** One more frame: what its call writes. */
  lemma SentStep(cfg: Config, tokens: seq<Token>, i: nat)
    requires i < |tokens|
    ensures var front, next := tokens[..i], tokens[..i + 1];
            var m, n := Released(cfg.rules, front), Released(cfg.rules, next);
            && m <= n
            && SentEvents(cfg, next, n)
               == SentEvents(cfg, front, m)
                  + Output(cfg.codec, EventsOf(next)[m..n], KeyCover(cfg, SeenAt(cfg.rules, TextOf(next))))
  {
    var front, next := tokens[..i], tokens[..i + 1];
    var m, n := Released(cfg.rules, front), Released(cfg.rules, next);
    assert next[..i] == front;
    ReleasedStep(cfg.rules, tokens, i);
    SentPrefix(cfg, next, i, m);
    hide Released, EventsOf, TextOf, SentEvents, Output, KeyCover, SeenAt, SafeEnd;
    SentTogether(cfg, next, m, n, SeenAt(cfg.rules, TextOf(next)));
  }

  /** At the end of the stream, the events still waiting are written with everything known. */
  lemma SentAtEnd(cfg: Config, tokens: seq<Token>)
    ensures var n := Released(cfg.rules, tokens);
            SentEvents(cfg, tokens, |tokens|)
            == SentEvents(cfg, tokens, n)
               + Output(cfg.codec, EventsOf(tokens)[n..], KeyCover(cfg, AllKeys(cfg.rules, TextOf(tokens))))
  {
    var n := Released(cfg.rules, tokens);
    hide Released, EventsOf, TextOf, SentEvents, Output, KeyCover, AllKeys, SafeEnd;
    SentTogether(cfg, tokens, n, |tokens|, AllKeys(cfg.rules, TextOf(tokens)));
    assert EventsOf(tokens)[n..|tokens|] == EventsOf(tokens)[n..];
  }

  /** Once a finding blocks, no more events are written. */
  lemma {:induction false} SentCountStays(cfg: Config, tokens: seq<Token>, i: nat)
    requires i < |tokens| && HasBlock(cfg, SeenAt(cfg.rules, TextOf(tokens[..i + 1])))
    ensures SentCount(cfg, tokens) == SentCount(cfg, tokens[..i])
    ensures HasBlock(cfg, SeenAt(cfg.rules, TextOf(tokens))) && HasBlock(cfg, AllKeys(cfg.rules, TextOf(tokens)))
    decreases |tokens|
  {
    hide *;
    TokensPrefix(tokens, i + 1);
    KeysGrow(cfg.rules, TextOf(tokens[..i + 1]), TextOf(tokens));
    BlockGrows(cfg, SeenAt(cfg.rules, TextOf(tokens[..i + 1])), SeenAt(cfg.rules, TextOf(tokens)));
    BlockGrows(cfg, SeenAt(cfg.rules, TextOf(tokens[..i + 1])), AllKeys(cfg.rules, TextOf(tokens)));
    var front := tokens[..|tokens| - 1];
    SentCountStep(cfg, tokens);
    if i + 1 < |tokens| {
      assert front[..i + 1] == tokens[..i + 1] && front[..i] == tokens[..i];
      SentCountStays(cfg, front, i);
    } else {
      assert front == tokens[..i];
    }
  }

  lemma SentCountStep(cfg: Config, tokens: seq<Token>)
    requires tokens != []
    ensures SentCount(cfg, tokens) == if HasBlock(cfg, SeenAt(cfg.rules, TextOf(tokens)))
                                      then SentCount(cfg, tokens[..|tokens| - 1]) else Released(cfg.rules, tokens)
  {
    hide HasBlock, SeenAt, TextOf, Released;
  }

  /** While nothing blocks, as many events are written as are released. */
  lemma SentCountOpen(cfg: Config, tokens: seq<Token>)
    requires !HasBlock(cfg, SeenAt(cfg.rules, TextOf(tokens)))
    ensures SentCount(cfg, tokens) == Released(cfg.rules, tokens)
  {
    hide HasBlock, SeenAt, TextOf, EventsOf, SafeEnd;
  }

  // ----- No event waits long

  lemma EventsEndInOrder(tokens: seq<Token>, i: nat, j: nat)
    requires i <= j < |tokens|
    ensures EventsOf(tokens)[i].decodedEnd <= EventsOf(tokens)[j].decodedEnd
  {
    hide EventsOf, TextOf;
    if i < j {
      EventsInOrder(tokens, i, j);
      EventAt(tokens, j);
    }
  }

  /** The first event that has not been written ends behind the settled part of the text. */
  lemma FirstWaiting(rules: seq<CompiledRule>, tokens: seq<Token>)
    requires Released(rules, tokens) < |tokens|
    ensures EventsOf(tokens)[Released(rules, tokens)].decodedEnd > SafeEnd(rules, TextOf(tokens))
  {
    hide SafeEnd, TextOf, EventsOf, SettledCount;
    var n := Released(rules, tokens[..|tokens| - 1]);
    var k := SettledCount(EventsOf(tokens)[n..], SafeEnd(rules, TextOf(tokens)));
    assert EventsOf(tokens)[n..][k] == EventsOf(tokens)[n + k];
  }

  /** Bounded delay: with n a bound on all keywords and value lengths, every event that ends at least n bytes before the end of
      the text read so far has been released. */
  lemma ReleasedInTime(rules: seq<CompiledRule>, tokens: seq<Token>, n: nat, j: nat)
    requires Bounds(rules, n) && j < |tokens| && EventsOf(tokens)[j].decodedEnd + n <= |TextOf(tokens)|
    ensures j < Released(rules, tokens)
  {
    hide SafeEnd, TextOf, EventsOf, Released, Bounds;
    HoldBounded(rules, TextOf(tokens), n);
    var k := Released(rules, tokens);
    if k <= j {
      FirstWaiting(rules, tokens);
      EventsEndInOrder(tokens, k, j);
    }
  }

  // ----- Without anything to mask nothing changes

  lemma {:induction false} ThenPrefix(rules: seq<CompiledRule>, tokens: seq<Token>, j: nat)
    ensures TextThen(rules, tokens, j) <= TextOf(tokens)
    decreases |tokens|
  {
    hide Released;
    if tokens != [] {
      ThenPrefix(rules, tokens[..|tokens| - 1], j);
    }
  }

  /** Nothing is known when an event is written that is not found in the complete text. */
  lemma KnownGrows(rules: seq<CompiledRule>, tokens: seq<Token>, j: nat)
    ensures KnownAt(rules, tokens, j) <= AllKeys(rules, TextOf(tokens))
  {
    hide TextOf, TextThen, Released, AllKeys, SeenAt;
    ThenPrefix(rules, tokens, j);
    KeysGrow(rules, TextThen(rules, tokens, j), TextOf(tokens));
  }

  lemma NothingCovered(cfg: Config, keys: set<CandidateKey>, more: set<CandidateKey>)
    requires keys <= more && !HasMask(cfg, more)
    ensures KeyCover(cfg, keys) == iset{}
  {
  }

  /** If no finding of the complete text is to be masked, every event is sent as it came, whatever the rules. */
  lemma {:induction false} SentRaw(cfg: Config, tokens: seq<Token>, n: nat)
    requires n <= |tokens| && !HasMask(cfg, AllKeys(cfg.rules, TextOf(tokens)))
    ensures SentEvents(cfg, tokens, n) == RawOutput(EventsOf(tokens)[..n])
    decreases n
  {
    hide KnownAt, AllKeys, TextOf, EventsOf, HasMask, KeyCover;
    var events := EventsOf(tokens);
    if n > 0 {
      SentRaw(cfg, tokens, n - 1);
      KnownGrows(cfg.rules, tokens, n - 1);
      NothingCovered(cfg, KnownAt(cfg.rules, tokens, n - 1), AllKeys(cfg.rules, TextOf(tokens)));
      assert events[..n][..n - 1] == events[..n - 1];
    }
  }

  /** An event that no finding of the complete text masks is sent as it came, whatever happens to the others. */
  lemma UntouchedEvent(cfg: Config, tokens: seq<Token>, j: nat)
    requires j < |tokens|
    requires var evt := EventsOf(tokens)[j];
             !Touches(KeyCover(cfg, AllKeys(cfg.rules, TextOf(tokens))), evt.decodedStart, evt.decodedEnd)
    ensures MaskedEvent(cfg.codec, EventsOf(tokens)[j], KeyCover(cfg, KnownAt(cfg.rules, tokens, j))) == EventsOf(tokens)[j].raw
  {
    hide KnownAt, AllKeys, TextOf, EventsOf;
    KnownGrows(cfg.rules, tokens, j);
    var evt := EventsOf(tokens)[j];
    forall p | evt.decodedStart <= p < evt.decodedEnd ensures p !in KeyCover(cfg, KnownAt(cfg.rules, tokens, j)) {
      assert p !in KeyCover(cfg, AllKeys(cfg.rules, TextOf(tokens)));
    }
  }

  /** Conservation: a stream in which nothing is to be blocked or masked is sent byte for byte. */
  lemma PassedThrough(cfg: Config, tokens: seq<Token>)
    requires !HasBlock(cfg, AllKeys(cfg.rules, TextOf(tokens))) && !HasMask(cfg, AllKeys(cfg.rules, TextOf(tokens)))
    ensures Sent(cfg, tokens) == RawOutput(EventsOf(tokens))
  {
    hide SentEvents, AllKeys, TextOf, HasBlock, HasMask;
    SentRaw(cfg, tokens, |tokens|);
    assert EventsOf(tokens)[..|tokens|] == EventsOf(tokens);
  }
}
