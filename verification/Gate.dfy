/** The streaming response pipeline: events are queued, released as far as the text is settled,
    masked with what is known by then, and withheld once a finding blocks. */
module Gate {
  import opened Bytes
  import opened Rules
  import opened Matching
  import opened Holding
  import opened Streaming
  import opened SpanMask
  import opened GateSpec

  // ----- The invariant of the pipeline, on values

  datatype Snapshot = Snapshot(decoded: seq<byte>, seen: set<CandidateKey>, maskSpans: seq<Finding>, blocked: bool,
                               added: seq<PendingEvent>, flushed: seq<PendingEvent>, pending: seq<PendingEvent>)

  ghost predicate InText(events: seq<PendingEvent>, n: nat) {
    forall i :: 0 <= i < |events| ==> events[i].decodedStart <= events[i].decodedEnd <= n
  }

  ghost predicate Inv(cfg: Config, s: Snapshot) {
    && s.added == s.flushed + s.pending && InText(s.added, |s.decoded|)
    && (s.blocked <==> HasBlock(cfg, s.seen))
    && (!s.blocked ==> Cover(Spans(s.maskSpans)) == KeyCover(cfg, s.seen))
    && (!s.blocked ==> (s.maskSpans == [] <==> !HasMask(cfg, s.seen)))
  }

  lemma AddKeeps(cfg: Config, s: Snapshot, e: PendingEvent, text: seq<byte>, s': Snapshot)
    requires Inv(cfg, s) && e.decodedStart == |s.decoded| && e.decodedEnd == |s.decoded + text|
    requires s' == s.(decoded := s.decoded + text, added := s.added + [e], pending := s.pending + [e])
    ensures Inv(cfg, s')
  {
    hide HasBlock, HasMask, KeyCover;
  }

  ghost predicate FindingMasks(policy: Policy, findings: seq<Finding>, p: int) {
    exists i :: 0 <= i < |findings| && Masks(policy, findings[i]) && findings[i].start <= p < findings[i].end
  }

  ghost function FindingCover(policy: Policy, findings: seq<Finding>): iset<int> { iset p | FindingMasks(policy, findings, p) }

  /** How findings change the verdict and the spans. */
  ghost predicate Ingested(policy: Policy, findings: seq<Finding>, spans: seq<Finding>, spans': seq<Finding>, blocked': bool) {
    && (blocked' <==> AnyBlocks(policy, findings))
    && (!blocked' ==> Cover(Spans(spans')) == Cover(Spans(spans)) + FindingCover(policy, findings))
    && (!blocked' ==> (spans' == [] <==> spans == [] && !AnyMasks(policy, findings)))
  }

  lemma CoverGrows(cfg: Config, findings: seq<Finding>, before: set<CandidateKey>, after: set<CandidateKey>)
    requires NewFindings(cfg.rules, findings, before, after)
    ensures KeyCover(cfg, after) == KeyCover(cfg, before) + FindingCover(cfg.policy, findings)
    ensures HasBlock(cfg, after) <==> HasBlock(cfg, before) || AnyBlocks(cfg.policy, findings)
    ensures HasMask(cfg, after) <==> HasMask(cfg, before) || AnyMasks(cfg.policy, findings)
  {
    forall i | 0 <= i < |findings| ensures exists k :: k in after - before && findings[i] == FindingOf(cfg.rules, k) {
      assert findings[i] in findings;
    }
    forall p ensures KeyMasks(cfg, after, p) <==> KeyMasks(cfg, before, p) || FindingMasks(cfg.policy, findings, p) {
    }
  }

  lemma IngestKeeps(cfg: Config, s: Snapshot, findings: seq<Finding>, s': Snapshot)
    requires Inv(cfg, s) && !s.blocked
    requires s' == s.(seen := s'.seen, maskSpans := s'.maskSpans, blocked := s'.blocked)
    requires NewFindings(cfg.rules, findings, s.seen, s'.seen)
    requires Ingested(cfg.policy, findings, s.maskSpans, s'.maskSpans, s'.blocked)
    ensures Inv(cfg, s')
  {
    hide KeyCover, HasBlock, HasMask, AnyBlocks, AnyMasks, FindingCover;
    CoverGrows(cfg, findings, s.seen, s'.seen);
  }

  /** Releasing queued events from the front. */
  lemma FlushKeeps(cfg: Config, s: Snapshot, k: nat)
    requires Inv(cfg, s) && k <= |s.pending|
    ensures Inv(cfg, s.(flushed := s.flushed + s.pending[..k], pending := s.pending[k..]))
    ensures InText(s.pending, |s.decoded|)
  {
    hide KeyCover, HasBlock, HasMask;
    assert s.pending == s.pending[..k] + s.pending[k..];
    assert s.flushed + s.pending == (s.flushed + s.pending[..k]) + s.pending[k..];
    forall i | 0 <= i < |s.pending| ensures s.pending[i] == s.added[|s.flushed| + i] { }
  }

  // ----- Policy loops

  datatype BlockDetail = BlockDetail(class_: string, ruleID: string)

  ghost predicate FirstBlock(policy: Policy, findings: seq<Finding>, detail: BlockDetail) {
    exists i :: && 0 <= i < |findings| && Blocks(policy, findings[i])
                && (forall j :: 0 <= j < i ==> !Blocks(policy, findings[j]))
                && detail == BlockDetail(findings[i].class_, findings[i].ruleID)
  }

  /** The detail names one of the findings that block. */
  ghost predicate Blames(cfg: Config, keys: set<CandidateKey>, detail: Option<BlockDetail>) {
    detail.Some? && exists k :: k in keys && BlamesKey(cfg, k, detail.value)
  }

  ghost predicate BlamesKey(cfg: Config, k: CandidateKey, detail: BlockDetail) {
    var f := FindingOf(cfg.rules, k);
    Blocks(cfg.policy, f) && detail == BlockDetail(f.class_, f.ruleID)
  }

  lemma BlamesMore(cfg: Config, keys: set<CandidateKey>, more: set<CandidateKey>, detail: Option<BlockDetail>)
    requires Blames(cfg, keys, detail) && keys <= more
    ensures Blames(cfg, more, detail)
  {
  }

  /** The first blocking finding of a scan blames a key of the scan. */
  lemma BlamedByScan(cfg: Config, findings: seq<Finding>, before: set<CandidateKey>, after: set<CandidateKey>, detail: BlockDetail)
    requires multiset(findings) + Bag(cfg.rules, before) == Bag(cfg.rules, after)
    requires FirstBlock(cfg.policy, findings, detail)
    ensures Blames(cfg, after, Some(detail))
  {
    hide Bag;
    var i :| 0 <= i < |findings| && Blocks(cfg.policy, findings[i])
             && (forall j :: 0 <= j < i ==> !Blocks(cfg.policy, findings[j]))
             && detail == BlockDetail(findings[i].class_, findings[i].ruleID);
    assert findings[i] in multiset(findings);
    BagHas(cfg.rules, after, findings[i]);
    var k :| k in after && findings[i] == FindingOf(cfg.rules, k);
    assert BlamesKey(cfg, k, detail);
  }

  /** The first finding that blocks. */
  method FindBlock(policy: Policy, findings: seq<Finding>) returns (detail: Option<BlockDetail>)
    ensures detail.Some? <==> AnyBlocks(policy, findings)
    ensures detail.Some? ==> FirstBlock(policy, findings, detail.value)
  {
    for i := 0 to |findings|
      invariant forall j :: 0 <= j < i ==> !Blocks(policy, findings[j])
    {
      if Blocks(policy, findings[i]) {
        return Some(BlockDetail(findings[i].class_, findings[i].ruleID));
      }
    }
    detail := None;
  }

  lemma FindingCoverStep(policy: Policy, findings: seq<Finding>, i: nat)
    requires i < |findings|
    ensures FindingCover(policy, findings[..i + 1])
         == FindingCover(policy, findings[..i]) + if Masks(policy, findings[i]) then Inside(SpanOf(findings[i])) else iset{}
  {
  }

  lemma SpansStep(findings: seq<Finding>, f: Finding)
    ensures Spans(findings + [f]) == Spans(findings) + [SpanOf(f)]
    ensures Cover(Spans(findings + [f])) == Cover(Spans(findings)) + Inside(SpanOf(f))
  {
    CoverOne(Spans(findings), SpanOf(f));
    assert Spans(findings + [f]) == Spans(findings) + [SpanOf(f)];
  }

  method CollectMaskSpans(policy: Policy, findings: seq<Finding>) returns (spans: seq<Finding>)
    ensures Cover(Spans(spans)) == FindingCover(policy, findings)
    ensures spans == [] <==> !AnyMasks(policy, findings)
  {
    spans := [];
    for i := 0 to |findings|
      invariant Cover(Spans(spans)) == FindingCover(policy, findings[..i])
      invariant spans == [] <==> forall j :: 0 <= j < i ==> !Masks(policy, findings[j])
    {
      FindingCoverStep(policy, findings, i);
      SpansStep(spans, findings[i]);
      if Masks(policy, findings[i]) {
        spans := spans + [findings[i]];
      }
    }
    assert findings[..|findings|] == findings;
  }

  /** Adds the spans that are not there yet. */
  method AppendMaskSpans(existing: seq<Finding>, more: seq<Finding>) returns (spans: seq<Finding>)
    ensures existing <= spans
    ensures Cover(Spans(spans)) == Cover(Spans(existing)) + Cover(Spans(more))
    ensures spans == [] <==> existing == [] && more == []
  {
    assert Cover(Spans(more[..0])) == iset{};
    var seen := Pairs(existing);
    spans := existing;
    hide Spans, Cover, Inside, HasSpan;
    for i := 0 to |more|
      invariant existing <= spans && (spans == [] ==> i == 0) && (i == 0 ==> spans == existing)
      invariant forall a, b :: (a, b) in seen <==> HasSpan(spans, a, b)
      invariant Cover(Spans(spans)) == Cover(Spans(existing)) + Cover(Spans(more[..i]))
    {
      assert more[..i + 1] == more[..i] + [more[i]];
      SpansStep(more[..i], more[i]);
      if (more[i].start, more[i].end) !in seen {
        SpansStep(spans, more[i]);
        HasSpanStep(spans, more[i]);
        spans := spans + [more[i]];
        seen := seen + {(more[i].start, more[i].end)};
      } else {
        AlreadyThere(spans, more[i]);
        AlreadyCovered(spans, more[i]);
      }
    }
    assert more[..|more|] == more;
  }

  ghost predicate HasSpan(spans: seq<Finding>, start: int, end: int) {
    exists i :: 0 <= i < |spans| && spans[i].start == start && spans[i].end == end
  }

  lemma HasSpanStep(spans: seq<Finding>, f: Finding)
    ensures forall a, b :: HasSpan(spans + [f], a, b) <==> HasSpan(spans, a, b) || (a == f.start && b == f.end)
  {
    forall a, b ensures HasSpan(spans + [f], a, b) <==> HasSpan(spans, a, b) || (a == f.start && b == f.end) {
      var all := spans + [f];
      assert all[|spans|] == f;
      if HasSpan(spans, a, b) {
        var i :| 0 <= i < |spans| && spans[i].start == a && spans[i].end == b;
        assert all[i] == spans[i];
      }
    }
  }

  method Pairs(spans: seq<Finding>) returns (pairs: set<(int, int)>)
    ensures forall a, b :: (a, b) in pairs <==> HasSpan(spans, a, b)
  {
    pairs := {};
    for i := 0 to |spans|
      invariant forall a, b :: (a, b) in pairs <==> HasSpan(spans[..i], a, b)
    {
      assert spans[..i + 1] == spans[..i] + [spans[i]];
      HasSpanStep(spans[..i], spans[i]);
      pairs := pairs + {(spans[i].start, spans[i].end)};
    }
    assert spans[..|spans|] == spans;
  }

  lemma AlreadyThere(spans: seq<Finding>, f: Finding)
    requires HasSpan(spans, f.start, f.end)
    ensures spans != []
  {
  }

  lemma AlreadyCovered(spans: seq<Finding>, f: Finding)
    requires HasSpan(spans, f.start, f.end)
    ensures Inside(SpanOf(f)) <= Cover(Spans(spans))
  {
    var i :| 0 <= i < |spans| && spans[i].start == f.start && spans[i].end == f.end;
    assert Spans(spans)[i] == SpanOf(f);
  }

  // ----- Rewriting one event

  lemma LocalSpan(evt: PendingEvent, spans: seq<Span>, s: Span, local: seq<Span>)
    requires evt.decodedStart <= evt.decodedEnd && Cover(local) == LocalCover(evt, Cover(spans))
    ensures var from := if s.start > evt.decodedStart then s.start else evt.decodedStart;
            var to := if s.end < evt.decodedEnd then s.end else evt.decodedEnd;
            LocalCover(evt, Cover(spans + [s]))
            == if from < to then Cover(local + [Span(from - evt.decodedStart, to - evt.decodedStart)]) else Cover(local)
  {
    var from := if s.start > evt.decodedStart then s.start else evt.decodedStart;
    var to := if s.end < evt.decodedEnd then s.end else evt.decodedEnd;
    CoverOne(spans, s);
    CoverOne(local, Span(from - evt.decodedStart, to - evt.decodedStart));
  }

  method ApplyMaskToEvent(codec: Codec, evt: PendingEvent, maskSpans: seq<Finding>) returns (out: seq<byte>)
    requires evt.decodedStart <= evt.decodedEnd
    ensures out == MaskedEvent(codec, evt, Cover(Spans(maskSpans)))
  {
    var local: seq<Span> := [];
    assert Spans(maskSpans[..0]) == [];
    for i := 0 to |maskSpans|
      invariant Cover(local) == LocalCover(evt, Cover(Spans(maskSpans[..i])))
      invariant forall j :: 0 <= j < |local| ==> local[j].start < local[j].end
    {
      assert maskSpans[..i + 1] == maskSpans[..i] + [maskSpans[i]];
      SpansStep(maskSpans[..i], maskSpans[i]);
      LocalSpan(evt, Spans(maskSpans[..i]), SpanOf(maskSpans[i]), local);
      var overlapStart := if maskSpans[i].start > evt.decodedStart then maskSpans[i].start else evt.decodedStart;
      var overlapEnd := if maskSpans[i].end < evt.decodedEnd then maskSpans[i].end else evt.decodedEnd;
      if overlapStart < overlapEnd {
        local := local + [Span(overlapStart - evt.decodedStart, overlapEnd - evt.decodedStart)];
      }
    }
    assert maskSpans[..|maskSpans|] == maskSpans;
    LocalTouches(evt, Cover(Spans(maskSpans)), local);
    if |local| == 0 {
      return evt.raw;
    }
    var choices := codec.carriers(evt.raw);
    if choices.None? {
      return evt.raw;
    }
    var masked, applied := MaskOpenAIChat(choices.value, local);
    if !applied {
      return evt.raw;
    }
    var frame := codec.render(evt.raw, masked);
    out := if frame.None? then evt.raw else frame.value;
  }

  lemma LocalTouches(evt: PendingEvent, cover: iset<int>, local: seq<Span>)
    requires Cover(local) == LocalCover(evt, cover)
    requires forall j :: 0 <= j < |local| ==> local[j].start < local[j].end
    ensures |local| == 0 <==> !Touches(cover, evt.decodedStart, evt.decodedEnd)
  {
    if |local| > 0 {
      assert Contains(local[0], local[0].start) && local[0].start in Cover(local);
      assert evt.decodedStart + local[0].start in cover;
    }
    if q :| evt.decodedStart <= q < evt.decodedEnd && q in cover {
      assert evt.decodedStart + (q - evt.decodedStart) == q;
      assert q - evt.decodedStart in Cover(local);
    }
  }

  /** Writes events one after the other. */
  method FlushMasked(codec: Codec, events: seq<PendingEvent>, maskSpans: seq<Finding>) returns (out: seq<byte>)
    requires forall i :: 0 <= i < |events| ==> events[i].decodedStart <= events[i].decodedEnd
    ensures out == Output(codec, events, Cover(Spans(maskSpans)))
  {
    out := [];
    for i := 0 to |events|
      invariant out == Output(codec, events[..i], Cover(Spans(maskSpans)))
    {
      assert events[..i + 1][..i] == events[..i];
      var masked := ApplyMaskToEvent(codec, events[i], maskSpans);
      out := out + masked;
    }
    assert events[..|events|] == events;
  }

  /** How many queued events end in the settled part. */
  method SafeCount(pending: seq<PendingEvent>, safeEnd: int) returns (k: nat)
    ensures k == SettledCount(pending, safeEnd) <= |pending|
  {
    k := 0;
    while k < |pending| && pending[k].decodedEnd <= safeEnd
      invariant k <= |pending| && SettledCount(pending, safeEnd) == k + SettledCount(pending[k..], safeEnd)
    {
      assert pending[k..][1..] == pending[k + 1..];
      k := k + 1;
    }
  }

  /** A scan step, on values: what Feed and Finalize return keeps the invariant. */
  lemma ScanKeeps(cfg: Config, s: Snapshot, findings: seq<Finding>, s': Snapshot)
    requires Inv(cfg, s) && !s.blocked && s.seen <= s'.seen
    requires s' == s.(seen := s'.seen, maskSpans := s'.maskSpans, blocked := s'.blocked)
    requires multiset(findings) + Bag(cfg.rules, s.seen) == Bag(cfg.rules, s'.seen)
    requires Ingested(cfg.policy, findings, s.maskSpans, s'.maskSpans, s'.blocked)
    ensures Inv(cfg, s')
  {
    hide *;
    FindingsAreNew(cfg.rules, findings, s.seen, s'.seen);
    IngestKeeps(cfg, s, findings, s');
  }

  /** What Inv says of the spans and the verdict. */
  lemma InvKnown(cfg: Config, s: Snapshot)
    requires Inv(cfg, s)
    ensures s.blocked <==> HasBlock(cfg, s.seen)
    ensures !s.blocked ==> Cover(Spans(s.maskSpans)) == KeyCover(cfg, s.seen)
    ensures !s.blocked ==> (s.maskSpans == [] <==> !HasMask(cfg, s.seen))
    ensures s.added == s.flushed + s.pending
  {
    hide HasBlock, HasMask, KeyCover;
  }

  /** While nothing has been decoded every event is empty, and writing it as it came is masking it. */
  lemma NothingDecoded(cfg: Config, s: Snapshot, cover: iset<int>)
    requires Inv(cfg, s) && s.decoded == []
    ensures RawOutput(s.pending) == Output(cfg.codec, s.pending, cover)
    ensures SettledCount(s.pending, SafeEnd(cfg.rules, [])) == |s.pending|
  {
    hide KeyCover, HasBlock, HasMask;
    FlushKeeps(cfg, s, 0);
    OutputUncovered(cfg.codec, s.pending, cover);
    AllSettled(s.pending, 0);
  }

  lemma {:induction false} AllSettled(events: seq<PendingEvent>, end: int)
    requires forall i :: 0 <= i < |events| ==> events[i].decodedEnd <= end
    ensures SettledCount(events, end) == |events|
  {
    if events != [] {
      AllSettled(events[1..], end);
    }
  }

  lemma MoreFindings(rules: seq<CompiledRule>, all: seq<Finding>, findings: seq<Finding>,
                     before: set<CandidateKey>, after: set<CandidateKey>)
    requires multiset(all) == Bag(rules, before)
    requires multiset(findings) + Bag(rules, before) == Bag(rules, after)
    ensures multiset(all + findings) == Bag(rules, after)
  {
  }

  datatype Verdict = Forwarded | Rewritten | Withheld | Exempted

  /** Block before mask before nothing. */
  ghost function RightVerdict(cfg: Config, keys: set<CandidateKey>): Verdict {
    if HasBlock(cfg, keys) then Withheld else if HasMask(cfg, keys) then Rewritten else Forwarded
  }

  lemma Verdicts(cfg: Config, keys: set<CandidateKey>)
    ensures RightVerdict(cfg, keys)
         == if HasBlock(cfg, keys) then Withheld else if HasMask(cfg, keys) then Rewritten else Forwarded
  {
    hide HasBlock, HasMask;
  }

  method RawBytes(events: seq<PendingEvent>) returns (out: seq<byte>)
    ensures out == RawOutput(events)
  {
    out := [];
    for i := 0 to |events|
      invariant out == RawOutput(events[..i])
    {
      assert events[..i + 1][..i] == events[..i];
      out := out + events[i].raw;
    }
    assert events[..|events|] == events;
  }

  method IngestFindings(policy: Policy, findings: seq<Finding>, maskSpans: seq<Finding>)
    returns (blocked': bool, detail: Option<BlockDetail>, maskSpans': seq<Finding>)
    ensures Ingested(policy, findings, maskSpans, maskSpans', blocked')
    ensures blocked' <==> detail.Some?
    ensures blocked' ==> FirstBlock(policy, findings, detail.value)
  {
    detail := FindBlock(policy, findings);
    blocked', maskSpans' := detail.Some?, maskSpans;
    if !blocked' {
      var spans := CollectMaskSpans(policy, findings);
      maskSpans' := AppendMaskSpans(maskSpans, spans);
    }
  }

  class StreamScanner {
    const streamScan: StreamScan
    const policy: Policy
    const codec: Codec
    var decoded: seq<byte>
    var feededDecodedLen: nat
    var pending: seq<PendingEvent>
    var allFindings: seq<Finding>
    var maskSpans: seq<Finding>
    var blocked: bool
    var blockDetail: Option<BlockDetail>
    /** What the client has received. */
    var written: seq<byte>
    /** All events added, and those of them already written. */
    ghost var added: seq<PendingEvent>
    ghost var flushed: seq<PendingEvent>

    ghost function Cfg(): Config { Config(streamScan.m.rules, policy, codec) }

    /** What has been found in the text that was fed. */
    ghost function Seen(): set<CandidateKey>
      reads this, streamScan
    {
      streamScan.seen
    }

    ghost function State(): Snapshot
      reads this, streamScan
    {
      Snapshot(decoded, streamScan.seen, maskSpans, blocked, added, flushed, pending)
    }

    ghost predicate Valid()
      reads this, streamScan, streamScan.m.automaton
    {
      && streamScan.Valid() && feededDecodedLen <= |decoded| && streamScan.fed == decoded[..feededDecodedLen]
      && Inv(Cfg(), State())
      && multiset(allFindings) == Bag(streamScan.m.rules, streamScan.seen)
      && (blocked ==> Blames(Cfg(), streamScan.seen, blockDetail))
    }

    constructor (m: Matcher, policy: Policy, codec: Codec)
      requires m.Valid()
      ensures Valid() && fresh(streamScan) && streamScan.m == m && this.policy == policy && this.codec == codec
      ensures decoded == written == [] && added == flushed == pending == [] && !blocked
    {
      hide *;
      var scan := new StreamScan(m);
      streamScan := scan;
      this.policy, this.codec := policy, codec;
      decoded, feededDecodedLen, pending, allFindings, maskSpans := [], 0, [], [], [];
      blocked, blockDetail, written := false, None, [];
      added, flushed := [], [];
      new;
      NothingAdded();
    }

    lemma NothingAdded()
      requires streamScan.Valid() && streamScan.fed == [] && streamScan.seen == {}
      requires decoded == [] && feededDecodedLen == 0 && !blocked
      requires added == flushed == pending == [] && allFindings == maskSpans == []
      ensures Valid()
    {
      hide SafeEnd, StreamScan.Valid;
    }

    /** What Valid says, in parts that the methods below pass on. */
    lemma Parts()
      requires Valid()
      ensures streamScan.Valid() && feededDecodedLen <= |decoded| && streamScan.fed == decoded[..feededDecodedLen]
      ensures Inv(Cfg(), State())
      ensures State() == Snapshot(decoded, streamScan.seen, maskSpans, blocked, added, flushed, pending)
      ensures multiset(allFindings) == Bag(streamScan.m.rules, streamScan.seen)
      ensures blocked ==> Blames(Cfg(), streamScan.seen, blockDetail)
      ensures streamScan.seen == SeenAt(streamScan.m.rules, decoded[..feededDecodedLen])
      ensures Cfg() == Config(streamScan.m.rules, policy, codec)
    {
      streamScan.ValidReads();
      streamScan.Opened(streamScan.fed, |streamScan.fed|, streamScan.seen, []);
    }

    lemma Whole()
      requires streamScan.Valid() && feededDecodedLen <= |decoded| && streamScan.fed == decoded[..feededDecodedLen]
      requires Inv(Cfg(), Snapshot(decoded, streamScan.seen, maskSpans, blocked, added, flushed, pending))
      requires multiset(allFindings) == Bag(streamScan.m.rules, streamScan.seen)
      requires blocked ==> Blames(Cfg(), streamScan.seen, blockDetail)
      ensures Valid()
    {
    }

    lemma FedKeys()
      requires streamScan.Valid()
      ensures streamScan.seen == SeenAt(streamScan.m.rules, streamScan.fed)
    {
      streamScan.ValidReads();
      streamScan.Opened(streamScan.fed, |streamScan.fed|, streamScan.seen, []);
    }

    /** Queues an event with its decoded text. */
    method AddEvent(raw: seq<byte>, text: seq<byte>)
      requires Valid()
      modifies this
      ensures Valid()
      ensures decoded == old(decoded) + text && written == old(written) && flushed == old(flushed)
      ensures added == old(added) + [PendingEvent(raw, |old(decoded)|, |decoded|)]
      ensures pending == old(pending) + [PendingEvent(raw, |old(decoded)|, |decoded|)]
      ensures blocked == old(blocked) && blockDetail == old(blockDetail) && maskSpans == old(maskSpans)
      ensures feededDecodedLen == old(feededDecodedLen)
    {
      hide *;
      Parts();
      ghost var s := State();
      var startOff := |decoded|;
      decoded := decoded + text;
      var e := PendingEvent(raw, startOff, |decoded|);
      pending := pending + [e];
      added := added + [e];
      AddKeeps(Cfg(), s, e, text, Snapshot(decoded, streamScan.seen, maskSpans, blocked, added, flushed, pending));
      assert decoded[..feededDecodedLen] == s.decoded[..feededDecodedLen];
      Whole();
    }

    /** Records findings: unless the stream is blocked already, latches a block or adds the spans to mask. */
    method Ingest(findings: seq<Finding>)
      modifies this`allFindings, this`maskSpans, this`blocked, this`blockDetail
      ensures allFindings == old(allFindings) + findings
      ensures old(blocked) ==> blocked && blockDetail == old(blockDetail) && maskSpans == old(maskSpans)
      ensures !old(blocked) ==> Ingested(policy, findings, old(maskSpans), maskSpans, blocked)
      ensures !old(blocked) && blocked ==> blockDetail.Some? && FirstBlock(policy, findings, blockDetail.value)
    {
      allFindings := allFindings + findings;
      if blocked {
        return;
      }
      blocked, blockDetail, maskSpans := IngestFindings(policy, findings, maskSpans);
    }

    /** Feeds what has not been fed yet and ingests what comes back. */
    method ScanNew() returns (hold: int)
      requires Valid() && !blocked
      modifies this`feededDecodedLen, this`allFindings, this`maskSpans, this`blocked, this`blockDetail, streamScan
      ensures Valid() && feededDecodedLen == |decoded|
      ensures blocked <==> HasBlock(Cfg(), SeenAt(streamScan.m.rules, decoded))
      ensures blocked ==> Blames(Cfg(), SeenAt(streamScan.m.rules, decoded), blockDetail)
      ensures hold == |decoded| - SafeEnd(streamScan.m.rules, decoded)
    {
      hide *;
      Parts();
      ghost var cfg, s, all := Cfg(), State(), allFindings;
      var chunk := decoded[feededDecodedLen..];
      assert decoded == streamScan.fed + chunk;
      KeysGrow(cfg.rules, streamScan.fed, decoded);
      var findings, h := streamScan.Feed(chunk, decoded);
      hold := h;
      feededDecodedLen := |decoded|;
      Ingest(findings);
      assert decoded[..feededDecodedLen] == decoded;
      ghost var s' := Snapshot(decoded, streamScan.seen, maskSpans, blocked, added, flushed, pending);
      FedKeys();
      ScanKeeps(cfg, s, findings, s');
      InvKnown(cfg, s');
      MoreFindings(cfg.rules, all, findings, s.seen, s'.seen);
      if blocked {
        BlamedByScan(cfg, findings, s.seen, s'.seen, blockDetail.value);
      }
      Whole();
    }

    /** Writes the queued events that end by safeEnd, masked with what has been found. */
    method Release(safeEnd: int)
      requires Valid() && !blocked
      modifies this`pending, this`written, this`flushed
      ensures Valid()
      ensures var k := SettledCount(old(pending), safeEnd);
              && flushed == old(flushed) + old(pending)[..k] && pending == old(pending)[k..]
              && written == old(written) + Output(codec, old(pending)[..k], KeyCover(Cfg(), Seen()))
    {
      hide *;
      Parts();
      ghost var cfg, s := Cfg(), State();
      InvKnown(cfg, s);
      var k := SafeCount(pending, safeEnd);
      FlushKeeps(cfg, s, k);
      StartsFirst(pending, |decoded|, k);
      var events := pending[..k];
      var out := FlushMasked(codec, events, maskSpans);
      pending := pending[k..];
      written := written + out;
      flushed := flushed + events;
      Whole();
      SeenIs();
    }

    lemma SeenIs()
      ensures Seen() == streamScan.seen
    {
    }

    lemma StartsFirst(events: seq<PendingEvent>, n: nat, k: nat)
      requires InText(events, n) && k <= |events|
      ensures forall i :: 0 <= i < |events[..k]| ==> events[..k][i].decodedStart <= events[..k][i].decodedEnd
    {
    }

    /** Scans what is new and releases what is settled: unless a finding blocks, the longest part of the queue that ends in
        the settled part is written, each event masked with everything found so far. */
    method ScanAndFlush()
      requires Valid()
      modifies this`feededDecodedLen, this`allFindings, this`maskSpans, this`blocked, this`blockDetail,
               this`pending, this`written, this`flushed, streamScan
      ensures Valid()
      ensures !old(blocked) ==> (blocked <==> HasBlock(Cfg(), SeenAt(streamScan.m.rules, decoded)))
      ensures !old(blocked) && blocked ==> Blames(Cfg(), SeenAt(streamScan.m.rules, decoded), blockDetail)
      ensures old(blocked) ==> blocked
      ensures blocked ==> written == old(written) && flushed == old(flushed) && pending == old(pending)
      ensures !blocked ==>
                var k := SettledCount(old(pending), SafeEnd(streamScan.m.rules, decoded));
                && flushed == old(flushed) + old(pending)[..k] && pending == old(pending)[k..]
                && written == old(written)
                              + Output(codec, old(pending)[..k], KeyCover(Cfg(), SeenAt(streamScan.m.rules, decoded)))
    {
      hide *;
      if blocked {
        return;
      }
      if |decoded| == 0 {
        FlushAllPending();
        return;
      }
      var hold := ScanNew();
      if blocked {
        return;
      }
      var safeEnd := |decoded| - hold;
      if safeEnd < 0 {
        safeEnd := 0;
      }
      SafeEndRange();
      assert decoded[..feededDecodedLen] == decoded;
      Parts();
      SeenIs();
      Release(safeEnd);
      SeenIs();
    }

    lemma SafeEndRange()
      ensures 0 <= SafeEnd(streamScan.m.rules, decoded) <= |decoded|
    {
    }

    /** Writes everything queued as it came: nothing has been decoded. */
    method FlushAllPending()
      requires Valid() && !blocked && |decoded| == 0
      modifies this`pending, this`written, this`flushed
      ensures Valid() && pending == [] && flushed == old(flushed) + old(pending)
      ensures written == old(written) + RawOutput(old(pending))
      ensures var cover := KeyCover(Cfg(), SeenAt(streamScan.m.rules, decoded));
              && SettledCount(old(pending), SafeEnd(streamScan.m.rules, decoded)) == |old(pending)|
              && written == old(written) + Output(codec, old(pending), cover)
      ensures old(pending)[..|old(pending)|] == old(pending) && old(pending)[|old(pending)|..] == []
      ensures !HasBlock(Cfg(), SeenAt(streamScan.m.rules, decoded))
    {
      hide *;
      Parts();
      ghost var cfg, s := Cfg(), State();
      assert decoded == [] && decoded[..feededDecodedLen] == decoded;
      InvKnown(cfg, s);
      NothingDecoded(cfg, s, KeyCover(cfg, SeenAt(streamScan.m.rules, decoded)));
      var out := RawBytes(pending);
      assert pending[..|pending|] == pending && pending[|pending|..] == [];
      FlushKeeps(cfg, s, |pending|);
      written := written + out;
      flushed := flushed + pending;
      pending := [];
      Whole();
    }

    /** Ends the stream: scans the rest, and unless a finding blocks, writes what is still queued, masked with every finding
        of the text. */
    method Finalize() returns (verdict: Verdict)
      requires Valid()
      modifies this`feededDecodedLen, this`allFindings, this`maskSpans, this`blocked, this`blockDetail,
               this`pending, this`written, this`flushed, streamScan
      ensures blocked <==> HasBlock(Cfg(), AllKeys(streamScan.m.rules, decoded))
      ensures verdict == RightVerdict(Cfg(), AllKeys(streamScan.m.rules, decoded))
      ensures added == flushed + pending
      ensures blocked ==> written == old(written) && flushed == old(flushed) && pending == old(pending)
      ensures blocked ==> Blames(Cfg(), AllKeys(streamScan.m.rules, decoded), blockDetail)
      ensures !blocked ==>
                && pending == [] && flushed == old(flushed) + old(pending)
                && written == old(written)
                              + Output(codec, old(pending), KeyCover(Cfg(), AllKeys(streamScan.m.rules, decoded)))
    {
      hide *;
      Blocked();
      if !blocked && feededDecodedLen < |decoded| {
        var _ := ScanNew();
        Blocked();
      }
      if !blocked {
        Drain();
      }
      Verdicts(Cfg(), AllKeys(streamScan.m.rules, decoded));
      if blocked {
        return Withheld;
      }
      ghost var s := State();
      StateIs();
      FlushKeeps(Cfg(), s, |pending|);
      InvKnown(Cfg(), s);
      StartsFirst(pending, |decoded|, |pending|);
      assert pending[..|pending|] == pending;
      var out := FlushMasked(codec, pending, maskSpans);
      written := written + out;
      flushed := flushed + pending;
      pending := [];
      verdict := if |maskSpans| > 0 then Rewritten else Forwarded;
    }

    lemma StateIs()
      ensures State() == Snapshot(decoded, streamScan.seen, maskSpans, blocked, added, flushed, pending)
    {
    }

    /** A block found so far is a block of the whole text. */
    lemma Blocked()
      requires Valid()
      ensures blocked ==> HasBlock(Cfg(), AllKeys(streamScan.m.rules, decoded))
      ensures blocked ==> Blames(Cfg(), AllKeys(streamScan.m.rules, decoded), blockDetail)
      ensures added == flushed + pending && feededDecodedLen <= |decoded|
    {
      hide *;
      Parts();
      InvKnown(Cfg(), State());
      KeysGrow(Cfg().rules, decoded[..feededDecodedLen], decoded);
      if blocked {
        BlockGrows(Cfg(), streamScan.seen, AllKeys(streamScan.m.rules, decoded));
        BlamesMore(Cfg(), streamScan.seen, AllKeys(streamScan.m.rules, decoded), blockDetail);
      }
    }

    /** The last drain: everything still waiting is tried on the whole text. */
    method Drain()
      requires Valid() && !blocked && feededDecodedLen == |decoded|
      modifies this`allFindings, this`maskSpans, this`blocked, this`blockDetail, streamScan
      ensures streamScan.seen == AllKeys(streamScan.m.rules, decoded)
      ensures Inv(Cfg(), State())
      ensures blocked <==> HasBlock(Cfg(), streamScan.seen)
      ensures blocked ==> Blames(Cfg(), streamScan.seen, blockDetail)
      ensures added == flushed + pending
    {
      hide *;
      Parts();
      ghost var s := State();
      assert decoded[..feededDecodedLen] == decoded;
      KeysGrow(Cfg().rules, decoded, decoded);
      var findings := streamScan.Finalize(decoded);
      Ingest(findings);
      StateIs();
      ScanKeeps(Cfg(), s, findings, State());
      InvKnown(Cfg(), State());
      if blocked {
        BlamedByScan(Cfg(), findings, s.seen, streamScan.seen, blockDetail.value);
      }
    }
  }
}
