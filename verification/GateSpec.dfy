/** The event pipeline as values: what is written, what waits, and what the findings so far mean for both. */
module GateSpec {
  import opened Bytes
  import opened Rules
  import opened Holding
  import opened SpanMask

  // ----- Policy and event format

  datatype Action = Block | Mask | LogOnly
  datatype Outcome = Outcome(action: Action, exempted: bool)

  /** The policy for one destination: an outcome for each class and confidence. An exempted finding is only logged. */
  type Policy = p: (string, real) -> Outcome
    | forall class_, confidence :: p(class_, confidence).exempted ==> p(class_, confidence).action == LogOnly
    witness ((class_, confidence) => Outcome(LogOnly, false))

  predicate Blocks(policy: Policy, f: Finding) {
    var o := policy(f.class_, f.confidence);
    !o.exempted && o.action == Block
  }

  predicate Masks(policy: Policy, f: Finding) {
    var o := policy(f.class_, f.confidence);
    !o.exempted && o.action == Mask
  }

  ghost predicate AnyMasks(policy: Policy, findings: seq<Finding>) {
    exists i :: 0 <= i < |findings| && Masks(policy, findings[i])
  }

  ghost predicate AnyBlocks(policy: Policy, findings: seq<Finding>) {
    exists i :: 0 <= i < |findings| && Blocks(policy, findings[i])
  }

  /** carriers reads the choices of an event's payload, None when it has no such shape;
      render writes the event again with other choices, None when that fails. */
  datatype Codec = Codec(carriers: seq<byte> -> Option<seq<Option<seq<byte>>>>,
                         render: (seq<byte>, seq<Option<seq<byte>>>) -> Option<seq<byte>>)

  datatype Config = Config(rules: seq<CompiledRule>, policy: Policy, codec: Codec)

  datatype PendingEvent = PendingEvent(raw: seq<byte>, decodedStart: nat, decodedEnd: nat)

  // ----- Masking events

  /** The covered positions of an event, counted from its first decoded byte. */
  ghost function LocalCover(evt: PendingEvent, cover: iset<int>): iset<int> { iset p | CoversLocally(evt, cover, p) }

  ghost predicate CoversLocally(evt: PendingEvent, cover: iset<int>, p: int) {
    0 <= p < evt.decodedEnd - evt.decodedStart && evt.decodedStart + p in cover
  }

  ghost function MaskedEvent(codec: Codec, evt: PendingEvent, cover: iset<int>): seq<byte> {
    if !Touches(cover, evt.decodedStart, evt.decodedEnd) then evt.raw else
    match codec.carriers(evt.raw)
    case None => evt.raw
    case Some(choices) =>
      if !Touches(LocalCover(evt, cover), 0, |Joined(choices)|) then evt.raw else
      match codec.render(evt.raw, MaskedChoices(choices, LocalCover(evt, cover)))
      case None => evt.raw
      case Some(frame) => frame
  }

  /** Only the covered positions of its own text matter to an event. */
  lemma MaskedEventLocal(codec: Codec, evt: PendingEvent, cover: iset<int>, other: iset<int>)
    requires forall p :: evt.decodedStart <= p < evt.decodedEnd ==> (p in cover <==> p in other)
    ensures MaskedEvent(codec, evt, cover) == MaskedEvent(codec, evt, other)
  {
    assert LocalCover(evt, cover) == LocalCover(evt, other);
    assert Touches(cover, evt.decodedStart, evt.decodedEnd) == Touches(other, evt.decodedStart, evt.decodedEnd);
  }

  /** Events written one after the other, each masked with the same covered positions. */
  ghost function Output(codec: Codec, events: seq<PendingEvent>, cover: iset<int>): seq<byte> {
    if events == [] then []
    else Output(codec, events[..|events| - 1], cover) + MaskedEvent(codec, events[|events| - 1], cover)
  }

  lemma OutputLast(codec: Codec, events: seq<PendingEvent>, m: nat, n: nat, cover: iset<int>)
    requires m < n <= |events|
    ensures Output(codec, events[m..n], cover)
         == Output(codec, events[m..n - 1], cover) + MaskedEvent(codec, events[n - 1], cover)
  {
    hide MaskedEvent;
    assert events[m..n][..|events[m..n]| - 1] == events[m..n - 1];
  }

  lemma OutputNothing(codec: Codec, cover: iset<int>)
    ensures Output(codec, [], cover) == []
  {
  }

  function RawOutput(events: seq<PendingEvent>): seq<byte> {
    if events == [] then [] else RawOutput(events[..|events| - 1]) + events[|events| - 1].raw
  }

  lemma {:induction false} OutputAppend(codec: Codec, a: seq<PendingEvent>, b: seq<PendingEvent>, cover: iset<int>)
    ensures Output(codec, a + b, cover) == Output(codec, a, cover) + Output(codec, b, cover)
    ensures RawOutput(a + b) == RawOutput(a) + RawOutput(b)
  {
    hide MaskedEvent;
    if b == [] {
      assert a + b == a;
    } else {
      assert (a + b)[..|a + b| - 1] == a + b[..|b| - 1];
      OutputAppend(codec, a, b[..|b| - 1], cover);
      assert (a + b)[|a + b| - 1] == b[|b| - 1];
    }
  }

  lemma {:induction false} OutputLocal(codec: Codec, events: seq<PendingEvent>, end: int, cover: iset<int>, other: iset<int>)
    requires forall i :: 0 <= i < |events| ==> events[i].decodedEnd <= end
    requires forall p :: p < end ==> (p in cover <==> p in other)
    ensures Output(codec, events, cover) == Output(codec, events, other)
  {
    if events != [] {
      var last := events[|events| - 1];
      OutputLocal(codec, events[..|events| - 1], end, cover, other);
      MaskedEventLocal(codec, last, cover, other);
    }
  }

  lemma {:induction false} OutputUncovered(codec: Codec, events: seq<PendingEvent>, cover: iset<int>)
    requires forall i :: 0 <= i < |events| ==> !Touches(cover, events[i].decodedStart, events[i].decodedEnd)
    ensures Output(codec, events, cover) == RawOutput(events)
  {
    if events != [] {
      OutputUncovered(codec, events[..|events| - 1], cover);
    }
  }

  /** How many events from the front end by `end`. */
  function SettledCount(events: seq<PendingEvent>, end: int): (k: nat)
    ensures k <= |events|
    ensures forall i :: 0 <= i < k ==> events[i].decodedEnd <= end
    ensures k < |events| ==> events[k].decodedEnd > end
  {
    if events == [] || events[0].decodedEnd > end then 0
    else
      var k := SettledCount(events[1..], end);
      assert forall i :: 0 < i < k + 1 ==> events[i] == events[1..][i - 1];
      1 + k
  }

  /** The findings that a stream has reported when it has read `text`. */
  ghost function SeenAt(rules: seq<CompiledRule>, text: seq<byte>): set<CandidateKey> {
    KeysOf(rules, text, Ready(rules, text, |text|))
  }

  // ----- What findings mean

  ghost predicate KeyMasks(cfg: Config, keys: set<CandidateKey>, p: int) {
    exists k :: k in keys && Masks(cfg.policy, FindingOf(cfg.rules, k)) && k.start <= p < k.end
  }

  /** The positions that findings with a mask action cover. */
  ghost function KeyCover(cfg: Config, keys: set<CandidateKey>): iset<int> { iset p | KeyMasks(cfg, keys, p) }

  ghost predicate HasBlock(cfg: Config, keys: set<CandidateKey>) {
    exists k :: k in keys && Blocks(cfg.policy, FindingOf(cfg.rules, k))
  }

  /** A block is a block of every larger set of findings. */
  lemma BlockGrows(cfg: Config, keys: set<CandidateKey>, more: set<CandidateKey>)
    requires keys <= more
    ensures HasBlock(cfg, keys) ==> HasBlock(cfg, more)
  {
  }

  ghost predicate HasMask(cfg: Config, keys: set<CandidateKey>) {
    exists k :: k in keys && Masks(cfg.policy, FindingOf(cfg.rules, k))
  }

  /** findings are those of the keys in `after` that were not in `before`. */
  ghost predicate NewFindings(rules: seq<CompiledRule>, findings: seq<Finding>, before: set<CandidateKey>, after: set<CandidateKey>) {
    && before <= after
    && (forall f :: f in findings ==> exists k :: k in after - before && f == FindingOf(rules, k))
    && (forall k :: k in after - before ==> FindingOf(rules, k) in findings)
  }

  lemma {:induction false} BagUnion(rules: seq<CompiledRule>, a: set<CandidateKey>, b: set<CandidateKey>)
    requires a !! b
    ensures Bag(rules, a + b) == Bag(rules, a) + Bag(rules, b)
    decreases |b|
  {
    if b == {} {
      assert a + b == a;
    } else {
      var k :| k in b;
      BagUnion(rules, a, b - {k});
      BagUnionStep(rules, a, b - {k}, k);
      assert b == (b - {k}) + {k};
    }
  }

  lemma BagUnionStep(rules: seq<CompiledRule>, a: set<CandidateKey>, b: set<CandidateKey>, k: CandidateKey)
    requires k !in a && k !in b && Bag(rules, a + b) == Bag(rules, a) + Bag(rules, b)
    ensures Bag(rules, a + (b + {k})) == Bag(rules, a) + Bag(rules, b + {k})
  {
    hide Bag, FindingOf;
    BagAdd(rules, a + b, k);
    BagAdd(rules, b, k);
    assert a + (b + {k}) == (a + b) + {k};
  }

  lemma FindingsAreNew(rules: seq<CompiledRule>, findings: seq<Finding>, before: set<CandidateKey>, after: set<CandidateKey>)
    requires before <= after
    requires multiset(findings) + Bag(rules, before) == Bag(rules, after)
    ensures NewFindings(rules, findings, before, after)
  {
    hide Bag, FindingOf;
    var added := after - before;
    assert before + added == after;
    BagUnion(rules, before, added);
    forall f ensures multiset(findings)[f] == Bag(rules, added)[f] {
      assert (multiset(findings) + Bag(rules, before))[f] == (Bag(rules, before) + Bag(rules, added))[f];
    }
    forall f ensures f in findings <==> exists k :: k in added && f == FindingOf(rules, k) {
      BagHas(rules, added, f);
      assert f in findings <==> f in multiset(findings);
    }
  }

  /** More text, more keys. */
  lemma KeysGrow(rules: seq<CompiledRule>, text: seq<byte>, longer: seq<byte>)
    requires text <= longer
    ensures SeenAt(rules, text) <= SeenAt(rules, longer) && SeenAt(rules, text) <= AllKeys(rules, longer)
  {
    forall k | k in SeenAt(rules, text) ensures k in SeenAt(rules, longer) {
      var c :| c in Ready(rules, text, |text|) && k in KeysAt(rules, text, c);
      ReadyKeys(rules, text, longer, c);
      NoticedLonger(rules, text, longer, c);
      assert c in Ready(rules, longer, |longer|);
    }
  }

  lemma NoticedLonger(rules: seq<CompiledRule>, text: seq<byte>, longer: seq<byte>, c: Candidate)
    requires text <= longer && Noticed(rules, text, c, |text|)
    ensures Noticed(rules, longer, c, |longer|)
  {
  }
}
