/** Online against offline: when what a client receives is what masking with full knowledge would give. */
module Online {
  import opened Rules
  import opened Holding
  import opened GateSpec
  import opened Release

  // ----- What is right

  ghost predicate EndsBy(events: seq<PendingEvent>, end: int) {
    forall i :: 0 <= i < |events| ==> events[i].decodedEnd <= end
  }

  /** Every finding that blocks starts at or behind the end of every event, give or take `slack` bytes. */
  ghost predicate BlocksAfter(cfg: Config, keys: set<CandidateKey>, events: seq<PendingEvent>, slack: nat) {
    forall k :: k in keys && Blocks(cfg.policy, FindingOf(cfg.rules, k)) ==> EndsBy(events, k.start + slack)
  }

  /** The events that are written: all of them, or those before a finding blocks. */
  ghost function Written(cfg: Config, tokens: seq<Token>): (events: seq<PendingEvent>) {
    if HasBlock(cfg, AllKeys(cfg.rules, TextOf(tokens))) then EventsOf(tokens)[..SentCount(cfg, tokens)] else EventsOf(tokens)
  }

  /** Each written event is masked with all the findings of the complete text, and the stream stops before any that blocks. */
  ghost predicate RightSent(cfg: Config, tokens: seq<Token>) {
    var all := AllKeys(cfg.rules, TextOf(tokens));
    && Sent(cfg, tokens) == Output(cfg.codec, Written(cfg, tokens), KeyCover(cfg, all))
    && (HasBlock(cfg, all) ==> BlocksAfter(cfg, all, Written(cfg, tokens), 0))
  }

  /** Event j was written past p before it could be seen that an IBAN begins at p. */
  ghost predicate Overtaken(rules: seq<CompiledRule>, tokens: seq<Token>, j: nat, p: nat) {
    && !NoIban(rules) && j < Released(rules, tokens) && p < EventsOf(tokens)[j].decodedEnd
    && PutOff(TextThen(rules, tokens, j), TextOf(tokens), p)
  }

  ghost predicate NoneOvertaken(rules: seq<CompiledRule>, tokens: seq<Token>) {
    forall j: nat, p: nat :: !Overtaken(rules, tokens, j, p)
  }

  lemma NoIbanNoneOvertaken(rules: seq<CompiledRule>, tokens: seq<Token>)
    requires NoIban(rules)
    ensures NoneOvertaken(rules, tokens)
  {
    hide NoIban;
  }

  // ----- What is known when an event is written

  /** An event is written when the text read ends with some frame, and its own end is settled. */
  lemma {:induction false} ThenSettled(rules: seq<CompiledRule>, tokens: seq<Token>, j: nat) returns (i: nat)
    requires j < Released(rules, tokens)
    ensures i <= |tokens| && TextThen(rules, tokens, j) == TextOf(tokens[..i]) <= TextOf(tokens)
    ensures EventsOf(tokens)[j].decodedEnd <= SafeEnd(rules, TextThen(rules, tokens, j))
    decreases |tokens|
  {
    hide *;
    NothingReleased(rules);
    var front := tokens[..|tokens| - 1];
    OneToken(rules, tokens, j);
    if j < Released(rules, front) {
      i := ThenSettled(rules, front, j);
      assert front[..i] == tokens[..i];
    } else {
      i := |tokens|;
      assert tokens[..i] == tokens;
    }
  }

  /** In particular when, at the end of every event, the hold-back covers the starts that were put off. */
  lemma HeldNoneOvertaken(rules: seq<CompiledRule>, tokens: seq<Token>)
    requires forall i :: 0 <= i <= |tokens| ==> StartsHeld(rules, TextOf(tokens[..i]), TextOf(tokens))
    ensures NoneOvertaken(rules, tokens)
  {
    hide Released, TextThen, TextOf, EventsOf, SafeEnd, NoIban;
    forall j: nat, p: nat ensures !Overtaken(rules, tokens, j, p) {
      if j < Released(rules, tokens) {
        var i := ThenSettled(rules, tokens, j);
        assert StartsHeld(rules, TextOf(tokens[..i]), TextOf(tokens));
      }
    }
  }

  lemma NothingReleased(rules: seq<CompiledRule>)
    ensures Released(rules, []) == 0
  {
  }

  lemma OneToken(rules: seq<CompiledRule>, tokens: seq<Token>, j: nat)
    requires tokens != [] && j < Released(rules, tokens)
    ensures var front := tokens[..|tokens| - 1];
            && TextOf(front) <= TextOf(tokens)
            && if j < Released(rules, front)
               then TextThen(rules, tokens, j) == TextThen(rules, front, j) && EventsOf(tokens)[j] == EventsOf(front)[j]
               else TextThen(rules, tokens, j) == TextOf(tokens)
                    && EventsOf(tokens)[j].decodedEnd <= SafeEnd(rules, TextOf(tokens))
  {
    hide SafeEnd, TextOf, EventsOf, SettledCount;
    LastToken(tokens);
    var n := Released(rules, tokens[..|tokens| - 1]);
    assert j >= n ==> EventsOf(tokens)[n..][j - n] == EventsOf(tokens)[j];
  }

  lemma LastToken(tokens: seq<Token>)
    requires tokens != []
    ensures var front := tokens[..|tokens| - 1];
            TextOf(front) <= TextOf(tokens) && forall j :: 0 <= j < |front| ==> EventsOf(tokens)[j] == EventsOf(front)[j]
  {
  }

  /** Later events are written with no less text read. */
  lemma {:induction false} ThenGrows(rules: seq<CompiledRule>, tokens: seq<Token>, h: nat, j: nat)
    requires h <= j < Released(rules, tokens)
    ensures TextThen(rules, tokens, h) <= TextThen(rules, tokens, j)
    decreases |tokens|
  {
    hide SafeEnd, EventsOf, TextOf;
    var n := Released(rules, tokens[..|tokens| - 1]);
    if j < n {
      ThenGrows(rules, tokens[..|tokens| - 1], h, j);
    } else if h < n {
      var _ := ThenSettled(rules, tokens, h);
    }
  }

  /** A finding that was not known when event j was written starts behind it, unless the event was written past a start
      that was put off; in any case the event ends no more than three bytes behind its start. */
  lemma LateForEvent(rules: seq<CompiledRule>, tokens: seq<Token>, j: nat, k: CandidateKey)
    requires j < Released(rules, tokens)
    requires k in AllKeys(rules, TextOf(tokens)) && k !in SeenAt(rules, TextThen(rules, tokens, j))
    ensures NoneOvertaken(rules, tokens) ==> EventsOf(tokens)[j].decodedEnd <= k.start
    ensures EventsOf(tokens)[j].decodedEnd <= k.start + 3
  {
    hide TextOf, EventsOf, TextThen, Released, AllKeys, KeysOf, Ready, NoIban;
    var text := TextThen(rules, tokens, j);
    var _ := ThenSettled(rules, tokens, j);
    var p := LateKeyCause(rules, text, TextOf(tokens), k);
    DecisionSettles(text, TextOf(tokens), p);
    if p < SafeEnd(rules, text) && p < EventsOf(tokens)[j].decodedEnd {
      assert Overtaken(rules, tokens, j, p);
    }
  }

  // ----- Online masking is offline masking

  /** If no start was overtaken, what is known of an event when it is written is all there is to know of it. */
  lemma KnownCover(cfg: Config, tokens: seq<Token>, j: nat, p: int)
    requires j < |tokens| && NoneOvertaken(cfg.rules, tokens) && InEvent(EventsOf(tokens)[j], p)
    ensures p in KeyCover(cfg, KnownAt(cfg.rules, tokens, j)) <==> p in KeyCover(cfg, AllKeys(cfg.rules, TextOf(tokens)))
  {
    hide TextOf, EventsOf, TextThen, Released, AllKeys, SeenAt, NoneOvertaken;
    var all, known := AllKeys(cfg.rules, TextOf(tokens)), KnownAt(cfg.rules, tokens, j);
    KnownGrows(cfg.rules, tokens, j);
    if KeyMasks(cfg, all, p) {
      var k :| k in all && Masks(cfg.policy, FindingOf(cfg.rules, k)) && k.start <= p < k.end;
      if k !in known {
        LateForEvent(cfg.rules, tokens, j, k);
      }
    }
  }

  /** Nothing that is found later reaches into a written event. */
  lemma EventRight(cfg: Config, tokens: seq<Token>, j: nat)
    requires j < |tokens| && NoneOvertaken(cfg.rules, tokens)
    ensures MaskedEvent(cfg.codec, EventsOf(tokens)[j], KeyCover(cfg, KnownAt(cfg.rules, tokens, j)))
         == MaskedEvent(cfg.codec, EventsOf(tokens)[j], KeyCover(cfg, AllKeys(cfg.rules, TextOf(tokens))))
  {
    hide TextOf, EventsOf, KnownAt, AllKeys, NoneOvertaken, KeyCover;
    var evt, all, known := EventsOf(tokens)[j], AllKeys(cfg.rules, TextOf(tokens)), KnownAt(cfg.rules, tokens, j);
    forall p | evt.decodedStart <= p < evt.decodedEnd ensures p in KeyCover(cfg, known) <==> p in KeyCover(cfg, all) {
      KnownCover(cfg, tokens, j, p);
    }
    MaskedEventLocal(cfg.codec, evt, KeyCover(cfg, known), KeyCover(cfg, all));
  }

  lemma {:induction false} EventsRight(cfg: Config, tokens: seq<Token>, n: nat)
    requires n <= |tokens| && NoneOvertaken(cfg.rules, tokens)
    ensures SentEvents(cfg, tokens, n)
         == Output(cfg.codec, EventsOf(tokens)[..n], KeyCover(cfg, AllKeys(cfg.rules, TextOf(tokens))))
    decreases n
  {
    hide TextOf, EventsOf, KnownAt, AllKeys, NoneOvertaken, KeyCover, MaskedEvent;
    if n > 0 {
      EventsRight(cfg, tokens, n - 1);
      EventRight(cfg, tokens, n - 1);
      assert EventsOf(tokens)[..n][..n - 1] == EventsOf(tokens)[..n - 1];
    }
  }

  /** What had been found when an event was written before a block does not block. */
  lemma {:induction false} SentUnblocked(cfg: Config, tokens: seq<Token>, j: nat)
    requires j < SentCount(cfg, tokens)
    ensures j < Released(cfg.rules, tokens) && !HasBlock(cfg, SeenAt(cfg.rules, TextThen(cfg.rules, tokens, j)))
    decreases |tokens|
  {
    var front := tokens[..|tokens| - 1];
    hide TextOf, Released, TextThen, SeenAt, HasBlock;
    if HasBlock(cfg, SeenAt(cfg.rules, TextOf(tokens))) {
      SentUnblocked(cfg, front, j);
      ReleasedPrefix(cfg.rules, tokens, |tokens| - 1);
    } else {
      var _ := ThenSettled(cfg.rules, tokens, j);
      KeysGrow(cfg.rules, TextThen(cfg.rules, tokens, j), TextOf(tokens));
      BlockGrows(cfg, SeenAt(cfg.rules, TextThen(cfg.rules, tokens, j)), SeenAt(cfg.rules, TextOf(tokens)));
    }
  }

  /** A written event ends no more than three bytes behind the start of any finding that blocks, and before it
      if no start was overtaken. */
  lemma BlockLate(cfg: Config, tokens: seq<Token>, j: nat, k: CandidateKey)
    requires j < SentCount(cfg, tokens)
    requires k in AllKeys(cfg.rules, TextOf(tokens)) && Blocks(cfg.policy, FindingOf(cfg.rules, k))
    ensures EventsOf(tokens)[j].decodedEnd <= k.start + if NoneOvertaken(cfg.rules, tokens) then 0 else 3
  {
    SentUnblocked(cfg, tokens, j);
    hide *;
    NotAmong(cfg, SeenAt(cfg.rules, TextThen(cfg.rules, tokens, j)), k);
    LateForEvent(cfg.rules, tokens, j, k);
  }

  lemma NotAmong(cfg: Config, keys: set<CandidateKey>, k: CandidateKey)
    requires !HasBlock(cfg, keys) && Blocks(cfg.policy, FindingOf(cfg.rules, k))
    ensures k !in keys
  {
  }

  /** If no start was overtaken, online masking is offline masking: what is written is masked with all the findings of the
      complete text, and a stream that is withheld stops before every finding that blocks. */
  lemma OnlineIsOffline(cfg: Config, tokens: seq<Token>)
    requires NoneOvertaken(cfg.rules, tokens)
    ensures RightSent(cfg, tokens)
  {
    hide TextOf, EventsOf, SentEvents, SentCount, AllKeys, NoneOvertaken, KeyCover, Output, HasBlock, Blocks;
    var n := if HasBlock(cfg, AllKeys(cfg.rules, TextOf(tokens))) then SentCount(cfg, tokens) else |tokens|;
    EventsRight(cfg, tokens, n);
    assert EventsOf(tokens)[..|tokens|] == EventsOf(tokens);
    if HasBlock(cfg, AllKeys(cfg.rules, TextOf(tokens))) {
      forall k, j: nat | k in AllKeys(cfg.rules, TextOf(tokens)) && Blocks(cfg.policy, FindingOf(cfg.rules, k)) && j < n
        ensures EventsOf(tokens)[j].decodedEnd <= k.start
      {
        BlockLate(cfg, tokens, j, k);
      }
    }
  }

  // ----- Without any condition

  /** Whatever the rules, a withheld stream stops no later than three bytes into a finding that blocks. */
  lemma StopsWithinThree(cfg: Config, tokens: seq<Token>)
    requires HasBlock(cfg, AllKeys(cfg.rules, TextOf(tokens)))
    ensures BlocksAfter(cfg, AllKeys(cfg.rules, TextOf(tokens)), Written(cfg, tokens), 3)
  {
    hide TextOf, EventsOf, SentCount, AllKeys, NoneOvertaken, HasBlock, Blocks;
    forall k, j: nat | k in AllKeys(cfg.rules, TextOf(tokens)) && Blocks(cfg.policy, FindingOf(cfg.rules, k))
                       && j < SentCount(cfg, tokens)
      ensures EventsOf(tokens)[j].decodedEnd <= k.start + 3
    {
      BlockLate(cfg, tokens, j, k);
    }
  }

  /** Whatever the rules, when the first i frames have been read no event already written ends later than three bytes behind
      the start of a finding reported afterwards. */
  lemma WrittenWithinThree(rules: seq<CompiledRule>, tokens: seq<Token>, i: nat, k: CandidateKey)
    requires i <= |tokens| && k in AllKeys(rules, TextOf(tokens)) && k !in SeenAt(rules, TextOf(tokens[..i]))
    ensures Released(rules, tokens[..i]) <= |tokens|
    ensures EndsBy(EventsOf(tokens)[..Released(rules, tokens[..i])], k.start + 3)
  {
    hide TextOf, EventsOf, Released, TextThen, AllKeys, SeenAt, NoneOvertaken;
    ReleasedPrefix(rules, tokens, i);
    forall j: nat | j < Released(rules, tokens[..i]) ensures EventsOf(tokens)[j].decodedEnd <= k.start + 3 {
      var _ := ThenSettled(rules, tokens[..i], j);
      KeysGrow(rules, TextThen(rules, tokens, j), TextOf(tokens[..i]));
      LateForEvent(rules, tokens, j, k);
    }
  }

  /** Whatever the rules, only the last three bytes of an event can be written without a mask they should have. */
  lemma OnlyLastThree(cfg: Config, tokens: seq<Token>, j: nat, p: int)
    requires j < |tokens| && p < EventsOf(tokens)[j].decodedEnd - 3
    ensures p in KeyCover(cfg, KnownAt(cfg.rules, tokens, j)) <==> p in KeyCover(cfg, AllKeys(cfg.rules, TextOf(tokens)))
  {
    hide TextOf, EventsOf, TextThen, Released, AllKeys, SeenAt, NoneOvertaken;
    var all, known := AllKeys(cfg.rules, TextOf(tokens)), KnownAt(cfg.rules, tokens, j);
    KnownGrows(cfg.rules, tokens, j);
    if KeyMasks(cfg, all, p) {
      var k :| k in all && Masks(cfg.policy, FindingOf(cfg.rules, k)) && k.start <= p < k.end;
      if k !in known {
        LateForEvent(cfg.rules, tokens, j, k);
      }
    }
  }
}
