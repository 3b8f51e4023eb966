/** The condition under which online masking is right is exact, and a run in which it fails. */
module OnlineExactly {
  import opened Bytes
  import opened Rules
  import opened Holding
  import opened SpanMask
  import opened GateSpec
  import opened Release
  import opened Online

  // ----- The shape of the rules decides when events are written

  lemma {:induction false} SameReleased(rules: seq<CompiledRule>, other: seq<CompiledRule>, tokens: seq<Token>)
    requires SameShape(rules, other)
    ensures Released(rules, tokens) == Released(other, tokens)
    ensures forall j: nat :: TextThen(rules, tokens, j) == TextThen(other, tokens, j)
  {
    hide SafeEnd, SameShape, EventsOf, TextOf;
    if tokens != [] {
      SameReleased(rules, other, tokens[..|tokens| - 1]);
      SameSafeEnd(rules, other, TextOf(tokens));
    }
  }

  lemma SameOvertaken(rules: seq<CompiledRule>, other: seq<CompiledRule>, tokens: seq<Token>)
    requires SameShape(rules, other)
    ensures NoneOvertaken(rules, tokens) ==> NoneOvertaken(other, tokens)
  {
    SameReleased(rules, other, tokens);
    hide Released, TextThen, EventsOf, TextOf;
    forall j: nat, p: nat ensures Overtaken(other, tokens, j, p) ==> Overtaken(rules, tokens, j, p) {
    }
  }

  // ----- A policy and an event format that show every difference

  function MaskEverything(): Policy { (class_, confidence) => Outcome(Mask, false) }

  /** Appends a byte to events whose text is covered at position q. */
  function Marking(q: nat): Codec {
    Codec(raw => Some([Some(seq(q + 1, _ => 0 as byte))]), (raw, choices) => Some(raw + Mark(choices, q)))
  }

  function Mark(choices: seq<Option<seq<byte>>>, q: nat): seq<byte> {
    if |choices| == 1 && choices[0].Some? && q < |choices[0].value| && choices[0].value[q] == STAR then [STAR] else []
  }

  lemma MarkedLength(q: nat, evt: PendingEvent, cover: iset<int>)
    ensures |MaskedEvent(Marking(q), evt, cover)|
         == |evt.raw| + if InEvent(evt, evt.decodedStart + q) && evt.decodedStart + q in cover then 1 else 0
  {
    var zeros: seq<byte> := seq(q + 1, _ => 0);
    var choices, local := [Some(zeros)], LocalCover(evt, cover);
    OneChoice(zeros, local);
    assert q in local <==> CoversLocally(evt, cover, q);
    if q in local {
      assert Touches(cover, evt.decodedStart, evt.decodedEnd) && Touches(local, 0, q + 1);
    }
  }

  lemma OneChoice(content: seq<byte>, cover: iset<int>)
    ensures Joined([Some(content)]) == content && MaskedChoices([Some(content)], cover) == [Some(Masked(content, cover, 0))]
  {
    assert [Some(content)][..0] == [];
  }

  // ----- An overtaken start shows

  /** The event whose text holds p. */
  lemma {:induction false} HoldingEvent(tokens: seq<Token>, j: nat, p: nat) returns (h: nat)
    requires j < |tokens| && p < EventsOf(tokens)[j].decodedEnd
    ensures h <= j && InEvent(EventsOf(tokens)[h], p)
  {
    EventAt(tokens, j);
    if p >= EventsOf(tokens)[j].decodedStart {
      h := j;
    } else {
      EventAt(tokens, j - 1);
      h := HoldingEvent(tokens, j - 1, p);
    }
  }

  /** If some event was written past an undecided start, so was the event that holds it. */
  lemma OvertakenInside(rules: seq<CompiledRule>, tokens: seq<Token>, j: nat, p: nat) returns (h: nat)
    requires Overtaken(rules, tokens, j, p)
    ensures Overtaken(rules, tokens, h, p) && InEvent(EventsOf(tokens)[h], p)
  {
    h := HoldingEvent(tokens, j, p);
    var _ := ThenSettled(rules, tokens, h);
    var _ := ThenSettled(rules, tokens, j);
    ThenGrows(rules, tokens, h, j);
    hide Released, TextThen, EventsOf, TextOf;
    DecisionSettles(TextThen(rules, tokens, h), TextThen(rules, tokens, j), p);
  }

  lemma CoverOfMore(cfg: Config, keys: set<CandidateKey>, more: set<CandidateKey>, p: int)
    requires keys <= more && p in KeyCover(cfg, keys)
    ensures p in KeyCover(cfg, more)
  {
  }

  /** With bare rules and everything masked, an overtaken start is masked in the end but not when its event is written. */
  lemma MaskedTooLate(rules: seq<CompiledRule>, tokens: seq<Token>, h: nat, p: nat, codec: Codec)
    requires forall i :: 0 <= i < |rules| ==> rules[i].rule.maxMatchLen > 0
    requires Overtaken(rules, tokens, h, p)
    ensures var cfg := Config(AllBare(rules), MaskEverything(), codec);
            && p in KeyCover(cfg, AllKeys(cfg.rules, TextOf(tokens)))
            && p !in KeyCover(cfg, KnownAt(cfg.rules, tokens, h))
  {
    var cfg := Config(AllBare(rules), MaskEverything(), codec);
    var i :| 0 <= i < |rules| && rules[i].rule.prefilter == Iban;
    BareShape(rules);
    SameReleased(rules, cfg.rules, tokens);
    hide Released, TextThen, EventsOf, TextOf, AllBare, AllKeys, KeysOf, Ready;
    var text := TextThen(rules, tokens, h);
    BareFinding(rules, TextOf(tokens), i, p);
    assert KeyMasks(cfg, AllKeys(cfg.rules, TextOf(tokens)), p) by {
      assert CandidateKey(i, p, p + 1) in AllKeys(cfg.rules, TextOf(tokens));
    }
    DecisionSettles(text, text, p);
    ReadyAreCandidates(cfg.rules, text);
    forall k | k in SeenAt(cfg.rules, text) ensures !(k.start <= p < k.end) {
      BareSilence(rules, text, Ready(cfg.rules, text, |text|), k);
    }
  }

  lemma {:induction false} ShorterSent(cfg: Config, q: nat, tokens: seq<Token>, n: nat, h: nat)
    requires n <= |tokens| && h < |tokens| && cfg.codec == Marking(q)
    requires var p := EventsOf(tokens)[h].decodedStart + q;
             && InEvent(EventsOf(tokens)[h], p) && p in KeyCover(cfg, AllKeys(cfg.rules, TextOf(tokens)))
             && p !in KeyCover(cfg, KnownAt(cfg.rules, tokens, h))
    ensures |SentEvents(cfg, tokens, n)| + (if h < n then 1 else 0)
         <= |Output(cfg.codec, EventsOf(tokens)[..n], KeyCover(cfg, AllKeys(cfg.rules, TextOf(tokens))))|
    decreases n
  {
    hide TextOf, EventsOf, KnownAt, AllKeys, KeyCover, MaskedEvent, Marking;
    if n > 0 {
      ShorterSent(cfg, q, tokens, n - 1, h);
      var evt, all := EventsOf(tokens)[n - 1], AllKeys(cfg.rules, TextOf(tokens));
      var known := KnownAt(cfg.rules, tokens, n - 1);
      MarkedLength(q, evt, KeyCover(cfg, known));
      MarkedLength(q, evt, KeyCover(cfg, all));
      KnownGrows(cfg.rules, tokens, n - 1);
      if evt.decodedStart + q in KeyCover(cfg, known) {
        CoverOfMore(cfg, known, all, evt.decodedStart + q);
      }
      assert EventsOf(tokens)[..n][..n - 1] == EventsOf(tokens)[..n - 1];
    }
  }

  lemma NothingBlocks(rules: seq<CompiledRule>, codec: Codec, keys: set<CandidateKey>)
    ensures !HasBlock(Config(rules, MaskEverything(), codec), keys)
  {
  }

  /** An overtaken start makes what the client receives wrong, for some expressions, policy and event format. */
  lemma OvertakenIsWrong(rules: seq<CompiledRule>, tokens: seq<Token>, j: nat, p: nat) returns (q: nat)
    requires forall i :: 0 <= i < |rules| ==> rules[i].rule.maxMatchLen > 0
    requires Overtaken(rules, tokens, j, p)
    ensures !RightSent(Config(AllBare(rules), MaskEverything(), Marking(q)), tokens)
  {
    hide TextOf, EventsOf, SentEvents, Released, TextThen, KnownAt, AllKeys, KeyCover, Output, AllBare, HasBlock, PutOff;
    var h := OvertakenInside(rules, tokens, j, p);
    q := p - EventsOf(tokens)[h].decodedStart;
    var cfg := Config(AllBare(rules), MaskEverything(), Marking(q));
    MaskedTooLate(rules, tokens, h, p, Marking(q));
    NothingBlocks(AllBare(rules), Marking(q), AllKeys(cfg.rules, TextOf(tokens)));
    ShorterSent(cfg, q, tokens, |tokens|, h);
    assert EventsOf(tokens)[..|tokens|] == EventsOf(tokens);
  }

  /** What the client receives is right for all expressions, validators, policies and event formats if and only if no event
      is written past the start of an IBAN that was put off. */
  lemma RightExactly(rules: seq<CompiledRule>, tokens: seq<Token>)
    requires forall i :: 0 <= i < |rules| ==> rules[i].rule.maxMatchLen > 0
    ensures (forall other, policy, codec :: SameShape(rules, other) ==> RightSent(Config(other, policy, codec), tokens))
            <==> NoneOvertaken(rules, tokens)
  {
    hide RightSent, Overtaken, SameShape, AllBare;
    if NoneOvertaken(rules, tokens) {
      forall other, policy, codec | SameShape(rules, other) ensures RightSent(Config(other, policy, codec), tokens) {
        SameOvertaken(rules, other, tokens);
        OnlineIsOffline(Config(other, policy, codec), tokens);
      }
    } else {
      var j: nat, p: nat :| Overtaken(rules, tokens, j, p);
      var q := OvertakenIsWrong(rules, tokens, j, p);
      BareShape(rules);
    }
  }

  // ----- A run that fails

  /** Each event is masked at exactly the positions that the findings of the complete text ask for. */
  ghost predicate RightCovers(cfg: Config, tokens: seq<Token>) {
    forall j, p :: 0 <= j < |tokens| && InEvent(EventsOf(tokens)[j], p) ==>
      (p in KeyCover(cfg, KnownAt(cfg.rules, tokens, j)) <==> p in KeyCover(cfg, AllKeys(cfg.rules, TextOf(tokens))))
  }

  /** Whatever the event format: the positions masked are right for all expressions, validators and policies if and only if no
      event is written past the start of an IBAN that was put off. */
  lemma CoversExactly(rules: seq<CompiledRule>, tokens: seq<Token>, codec: Codec)
    requires forall i :: 0 <= i < |rules| ==> rules[i].rule.maxMatchLen > 0
    ensures (forall other, policy :: SameShape(rules, other) ==> RightCovers(Config(other, policy, codec), tokens))
            <==> NoneOvertaken(rules, tokens)
  {
    hide Overtaken, SameShape, AllBare, KeyCover, KnownAt, AllKeys, EventsOf, TextOf;
    if NoneOvertaken(rules, tokens) {
      forall other, policy | SameShape(rules, other) ensures RightCovers(Config(other, policy, codec), tokens) {
        SameOvertaken(rules, other, tokens);
        forall j: nat, p | j < |tokens| && InEvent(EventsOf(tokens)[j], p)
          ensures var cfg := Config(other, policy, codec);
                  p in KeyCover(cfg, KnownAt(other, tokens, j)) <==> p in KeyCover(cfg, AllKeys(other, TextOf(tokens)))
        {
          KnownCover(Config(other, policy, codec), tokens, j, p);
        }
      }
    } else {
      var j: nat, p: nat :| Overtaken(rules, tokens, j, p);
      var h := OvertakenInside(rules, tokens, j, p);
      MaskedTooLate(rules, tokens, h, p, codec);
      BareShape(rules);
      OvertakenEvent(rules, tokens, h, p);
      assert !RightCovers(Config(AllBare(rules), MaskEverything(), codec), tokens);
    }
  }

  lemma OvertakenEvent(rules: seq<CompiledRule>, tokens: seq<Token>, j: nat, p: nat)
    requires Overtaken(rules, tokens, j, p)
    ensures j < |tokens|
  {
  }

  /** Events that are their own text. */
  function PlainText(): Codec {
    Codec(raw => Some([Some(raw)]),
          (raw, choices) => if |choices| == 1 then choices[0] else None)
  }

  /** The frames "G" and "A00". */
  function Split(): seq<Token> { [Token([71], [71]), Token([65, 48, 48], [65, 48, 48])] }

  lemma SplitEvents()
    ensures TextOf(Split()) == [71, 65, 48, 48] && TextOf(Split()[..1]) == [71]
    ensures EventsOf(Split()) == [PendingEvent([71], 0, 1), PendingEvent([65, 48, 48], 1, 4)]
    ensures EventsOf(Split()[..1]) == [PendingEvent([71], 0, 1)]
  {
    var first, none := Split()[..1], Split()[..0];
    assert first == [Token([71], [71])] && none == [] && first[..0] == [];
    assert TextOf(none) == [] && EventsOf(none) == [];
    assert TextOf(first) == [] + [71] == [71];
    assert EventsOf(first) == [] + [PendingEvent([71], 0, 1)];
    assert Split()[..|Split()| - 1] == first;
    assert [71 as byte] + [65, 48, 48] == [71, 65, 48, 48];
  }

  /** With one IBAN rule the first frame is written as soon as it is read. */
  lemma FirstAtOnce(r: CompiledRule)
    requires r.rule.prefilter == Iban
    ensures Released([r], Split()[..1]) == 1 && TextThen([r], Split(), 0) == [71]
    ensures Released([r], Split()) >= 1
  {
    SplitEvents();
    NothingHeld([r], [71]);
    hide SafeEnd, TextOf, EventsOf;
    var first := Split()[..1];
    assert first[..0] == [] && Released([r], []) == 0;
    assert EventsOf(first)[0..] == EventsOf(first);
    assert Split()[..|Split()| - 1] == first;
  }

  /** The start of the IBAN is overtaken. */
  lemma SplitOvertaken(r: CompiledRule)
    requires r.rule.prefilter == Iban
    ensures Overtaken([r], Split(), 0, 0)
  {
    SplitEvents();
    FirstAtOnce(r);
    hide Released, TextThen, TextOf, EventsOf;
    assert PutOff([71], [71, 65, 48, 48], 0);
    assert [r][0].rule.prefilter == Iban;
  }

  lemma PlainEvent(evt: PendingEvent, cover: iset<int>)
    requires evt.decodedEnd == evt.decodedStart + |evt.raw|
    ensures MaskedEvent(PlainText(), evt, cover) == Masked(evt.raw, cover, evt.decodedStart)
  {
    var local := LocalCover(evt, cover);
    OneChoice(evt.raw, local);
    forall i: int ensures i in local <==> CoversLocally(evt, cover, i) { }
    if Touches(cover, evt.decodedStart, evt.decodedEnd) {
      var q :| evt.decodedStart <= q < evt.decodedEnd && q in cover;
      assert q - evt.decodedStart in local;
      var a, b := Masked(evt.raw, local, 0), Masked(evt.raw, cover, evt.decodedStart);
      forall i | 0 <= i < |evt.raw| ensures a[i] == b[i] { assert i in local <==> CoversLocally(evt, cover, i); }
    } else {
      UntouchedMask(evt.raw, cover, evt.decodedStart);
    }
  }

  /** The only finding over the whole text is the first byte. */
  lemma OnlyStart(r: CompiledRule, cfg: Config, p: int)
    requires cfg.rules == AllBare([r]) && p in KeyCover(cfg, AllKeys(cfg.rules, [71, 65, 48, 48]))
    ensures p == 0
  {
    var text: seq<byte> := [71, 65, 48, 48];
    hide AllBare;
    var k :| k in AllKeys(cfg.rules, text) && k.start <= p < k.end;
    BareSilence([r], text, Candidates(cfg.rules, text, |text|), k);
  }

  lemma OneRule(r: CompiledRule)
    ensures AllBare([r]) == [Bare(r)]
  {
  }

  lemma SentTwo(cfg: Config)
    ensures |Split()| == 2
    ensures Sent(cfg, Split()) == SentEvents(cfg, Split(), 2) || HasBlock(cfg, AllKeys(cfg.rules, TextOf(Split())))
    ensures SentEvents(cfg, Split(), 2)
         == [] + MaskedEvent(cfg.codec, EventsOf(Split())[0], KeyCover(cfg, KnownAt(cfg.rules, Split(), 0)))
            + MaskedEvent(cfg.codec, EventsOf(Split())[1], KeyCover(cfg, KnownAt(cfg.rules, Split(), 1)))
  {
    hide MaskedEvent, KeyCover, KnownAt, EventsOf, HasBlock, AllKeys;
    assert SentEvents(cfg, Split(), 1)
        == [] + MaskedEvent(cfg.codec, EventsOf(Split())[0], KeyCover(cfg, KnownAt(cfg.rules, Split(), 0)));
  }

  lemma OutputTwo(codec: Codec, a: PendingEvent, b: PendingEvent, cover: iset<int>)
    ensures Output(codec, [a, b], cover) == [] + MaskedEvent(codec, a, cover) + MaskedEvent(codec, b, cover)
  {
    hide MaskedEvent;
    assert [a, b][..1] == [a] && [a][..0] == [] && Output(codec, [], cover) == [];
    assert Output(codec, [a], cover) == [] + MaskedEvent(codec, a, cover);
  }

  lemma FailingCovers(r: CompiledRule)
    requires r.rule.prefilter == Iban && r.rule.maxMatchLen > 0
    ensures var cfg := Config([Bare(r)], MaskEverything(), PlainText());
            var all := KeyCover(cfg, AllKeys(cfg.rules, TextOf(Split())));
            && 0 in all && (forall p :: p in all ==> p == 0)
            && 0 !in KeyCover(cfg, KnownAt(cfg.rules, Split(), 0))
            && (forall p :: p in KeyCover(cfg, KnownAt(cfg.rules, Split(), 1)) ==> p == 0)
  {
    hide *;
    var cfg := Config([Bare(r)], MaskEverything(), PlainText());
    var all, known := AllKeys(cfg.rules, TextOf(Split())), KnownAt(cfg.rules, Split(), 1);
    OneRule(r);
    SplitEvents();
    SplitOvertaken(r);
    MaskedTooLate([r], Split(), 0, 0, PlainText());
    KnownGrows(cfg.rules, Split(), 1);
    forall p | p in KeyCover(cfg, all) ensures p == 0 { OnlyStart(r, cfg, p); }
    forall p | p in KeyCover(cfg, known) ensures p == 0 { CoverOfMore(cfg, known, all, p); }
  }

  /** Masking the whole text would star out the first byte of the IBAN, but the client has received it. */
  lemma FailingRun(r: CompiledRule)
    requires r.rule.prefilter == Iban && r.rule.maxMatchLen > 0
    ensures var cfg := Config([Bare(r)], MaskEverything(), PlainText());
            && Sent(cfg, Split()) == [71, 65, 48, 48]
            && Output(cfg.codec, EventsOf(Split()), KeyCover(cfg, AllKeys(cfg.rules, TextOf(Split())))) == [STAR, 65, 48, 48]
  {
    hide *;
    var cfg := Config([Bare(r)], MaskEverything(), PlainText());
    var all := AllKeys(cfg.rules, TextOf(Split()));
    FailingCovers(r);
    SplitEvents();
    SentTwo(cfg);
    NothingBlocks(cfg.rules, PlainText(), all);
    OutputTwo(PlainText(), PendingEvent([71], 0, 1), PendingEvent([65, 48, 48], 1, 4), KeyCover(cfg, all));
    PlainG(KeyCover(cfg, all));
    PlainG(KeyCover(cfg, KnownAt(cfg.rules, Split(), 0)));
    PlainA00(KeyCover(cfg, all));
    PlainA00(KeyCover(cfg, KnownAt(cfg.rules, Split(), 1)));
  }

  lemma PlainG(cover: iset<int>)
    ensures MaskedEvent(PlainText(), PendingEvent([71], 0, 1), cover) == [if 0 in cover then STAR else 71]
  {
    hide MaskedEvent;
    PlainEvent(PendingEvent([71], 0, 1), cover);
  }

  lemma PlainA00(cover: iset<int>)
    requires forall p :: p in cover ==> p == 0
    ensures MaskedEvent(PlainText(), PendingEvent([65, 48, 48], 1, 4), cover) == [65, 48, 48]
  {
    hide MaskedEvent;
    PlainEvent(PendingEvent([65, 48, 48], 1, 4), cover);
  }
}
