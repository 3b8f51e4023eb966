/** A request body: every extracted text is scanned and what it finds is acted on in the raw bytes. */
module Request {
  import opened Bytes
  import opened Rules
  import opened Matching
  import opened SpanMask
  import opened RawMapping
  import opened GateSpec
  import opened Gate

  /** The finding g of unit u, at the raw span that unit maps it to. */
  function Mapped(u: ScanUnit, g: Finding): Finding {
    match RawSpan(u, g.start, g.end)
    case None => g.(start := u.rawContentStart, end := u.rawContentEnd)
    case Some(span) => g.(start := span.0, end := span.1)
  }

  predicate SameKey(f: Finding, g: Finding) { f.ruleID == g.ruleID && f.start == g.start && f.end == g.end }

  /** A unit whose ranges lie inside the body. */
  ghost predicate InBody(u: ScanUnit, bodyLen: int) {
    exists from, to :: 0 <= from <= to <= bodyLen && Sound(u, from, to)
  }

  ghost predicate FoundIn(rules: seq<CompiledRule>, u: ScanUnit, g: Finding) { g in Bag(rules, AllKeys(rules, u.text)) }

  /** A finding of the scanner has a non-empty range inside its text. */
  lemma FindingInText(rules: seq<CompiledRule>, text: seq<byte>, g: Finding)
    requires g in Bag(rules, AllKeys(rules, text))
    ensures 0 <= g.start < g.end <= |text|
  {
    hide Bag;
    BagHas(rules, AllKeys(rules, text), g);
    var k :| k in AllKeys(rules, text) && g == FindingOf(rules, k);
    hide FindingOf;
    var c :| c in Candidates(rules, text, |text|) && k in KeysAt(rules, text, c);
    assert k.ruleIndex < |rules|;
    assert FindingOf(rules, k).start == k.start && FindingOf(rules, k).end == k.end by { KeySpan(rules, k); }
  }

  lemma KeySpan(rules: seq<CompiledRule>, k: CandidateKey)
    ensures FindingOf(rules, k).start == k.start && FindingOf(rules, k).end == k.end
  {
  }

  /** The mapped span of a finding is a non-empty range of the body: neither fallback nor skip applies. */
  lemma MappedInBody(rules: seq<CompiledRule>, u: ScanUnit, g: Finding, bodyLen: int)
    requires InBody(u, bodyLen) && FoundIn(rules, u, g)
    ensures RawSpan(u, g.start, g.end).Some?
    ensures 0 <= Mapped(u, g).start < Mapped(u, g).end <= bodyLen
  {
    hide Bag, AllKeys, Sound;
    FindingInText(rules, u.text, g);
    var from, to :| 0 <= from <= to <= bodyLen && Sound(u, from, to);
    RawSpanIsHull(u, from, to, g.start, g.end);
  }

  /** f is finding g of unit i, and no earlier unit has a finding with the same rule and raw span. */
  ghost predicate Source(rules: seq<CompiledRule>, units: seq<ScanUnit>, i: int, g: Finding, f: Finding) {
    && 0 <= i < |units| && FoundIn(rules, units[i], g) && f == Mapped(units[i], g)
    && forall j, h :: 0 <= j < i && FoundIn(rules, units[j], h) ==> !SameKey(f, Mapped(units[j], h))
  }

  ghost predicate Maps(rules: seq<CompiledRule>, units: seq<ScanUnit>, f: Finding) {
    exists i, g :: Source(rules, units, i, g, f)
  }

  ghost predicate Has(findings: seq<Finding>, f: Finding) {
    exists j :: 0 <= j < |findings| && SameKey(findings[j], f)
  }

  /** findings are in the body, each with its own rule and raw span, and each is a finding of the first unit that has one
      with that rule and raw span. */
  ghost predicate Collected(rules: seq<CompiledRule>, units: seq<ScanUnit>, bodyLen: nat, findings: seq<Finding>) {
    && (forall i :: 0 <= i < |findings| ==> 0 <= findings[i].start < findings[i].end <= bodyLen)
    && (forall i :: 0 <= i < |findings| ==> Maps(rules, units, findings[i]))
    && (forall i, j :: 0 <= i < j < |findings| ==> !SameKey(findings[i], findings[j]))
  }

  /** No finding of a unit has been lost. */
  ghost predicate Complete(rules: seq<CompiledRule>, units: seq<ScanUnit>, findings: seq<Finding>) {
    forall i, g :: 0 <= i < |units| && FoundIn(rules, units[i], g) ==> Has(findings, Mapped(units[i], g))
  }

  ghost predicate AllMapped(u: ScanUnit, gs: seq<Finding>, findings: seq<Finding>) {
    forall i :: 0 <= i < |gs| ==> Has(findings, Mapped(u, gs[i]))
  }

  /** A finding of the last unit that has not been reported yet. */
  lemma Collect(rules: seq<CompiledRule>, before: seq<ScanUnit>, bodyLen: nat, findings: seq<Finding>, u: ScanUnit, g: Finding)
    requires Collected(rules, before + [u], bodyLen, findings) && Complete(rules, before, findings)
    requires FoundIn(rules, u, g) && InBody(u, bodyLen) && !Has(findings, Mapped(u, g))
    ensures Collected(rules, before + [u], bodyLen, findings + [Mapped(u, g)])
  {
    hide InBody, FoundIn, Mapped, RawSpan;
    MappedInBody(rules, u, g, bodyLen);
    var all, f := before + [u], Mapped(u, g);
    forall j, h | 0 <= j < |before| && FoundIn(rules, all[j], h) ensures !SameKey(f, Mapped(all[j], h)) {
      assert all[j] == before[j] && Has(findings, Mapped(before[j], h));
      SameHas(findings, f, Mapped(before[j], h));
    }
    assert Source(rules, all, |before|, g, f);
    hide Source, Complete;
  }

  lemma SameHas(findings: seq<Finding>, f: Finding, g: Finding)
    requires Has(findings, g) && !Has(findings, f)
    ensures !SameKey(f, g)
  {
  }

  lemma HasGrows(findings: seq<Finding>, f: Finding)
    ensures Has(findings + [f], f) && forall g :: Has(findings, g) ==> Has(findings + [f], g)
  {
    var all := findings + [f];
    assert all[|findings|] == f;
    forall g | Has(findings, g) ensures Has(all, g) {
      var j :| 0 <= j < |findings| && SameKey(findings[j], g);
      assert all[j] == findings[j];
    }
  }

  lemma MoreUnits(rules: seq<CompiledRule>, units: seq<ScanUnit>, u: ScanUnit, bodyLen: nat, findings: seq<Finding>)
    requires Collected(rules, units, bodyLen, findings)
    ensures Collected(rules, units + [u], bodyLen, findings)
  {
    hide FoundIn, Mapped;
    var all := units + [u];
    forall f | Maps(rules, units, f) ensures Maps(rules, all, f) {
      var i, g :| Source(rules, units, i, g, f);
      assert forall j :: 0 <= j <= i ==> all[j] == units[j];
      assert Source(rules, all, i, g, f);
    }
  }

  lemma UnitDone(rules: seq<CompiledRule>, units: seq<ScanUnit>, u: ScanUnit, gs: seq<Finding>, before: seq<Finding>, findings: seq<Finding>)
    requires Complete(rules, units, before) && (forall f :: Has(before, f) ==> Has(findings, f))
    requires AllMapped(u, gs, findings) && multiset(gs) == Bag(rules, AllKeys(rules, u.text))
    ensures Complete(rules, units + [u], findings)
  {
  }

  /** Maps the findings of one unit; `seen` holds the rule and raw span of everything reported so far. */
  method MapUnit(m: Matcher, ghost before: seq<ScanUnit>, u: ScanUnit, unitFindings: seq<Finding>, bodyLen: nat,
                 findings: seq<Finding>, seen: set<(string, int, int)>)
    returns (findings': seq<Finding>, seen': set<(string, int, int)>)
    requires Collected(m.rules, before + [u], bodyLen, findings) && Complete(m.rules, before, findings) && InBody(u, bodyLen)
    requires forall i :: 0 <= i < |unitFindings| ==> FoundIn(m.rules, u, unitFindings[i])
    requires forall f: Finding :: (f.ruleID, f.start, f.end) in seen <==> Has(findings, f)
    ensures Collected(m.rules, before + [u], bodyLen, findings') && AllMapped(u, unitFindings, findings')
    ensures forall f :: Has(findings, f) ==> Has(findings', f)
    ensures forall f: Finding :: (f.ruleID, f.start, f.end) in seen' <==> Has(findings', f)
  {
    findings', seen' := findings, seen;
    hide Collected, Complete, InBody, FoundIn, Has, RawSpan;
    for i := 0 to |unitFindings|
      invariant Collected(m.rules, before + [u], bodyLen, findings') && Complete(m.rules, before, findings')
      invariant AllMapped(u, unitFindings[..i], findings')
      invariant forall f :: Has(findings, f) ==> Has(findings', f)
      invariant forall f: Finding :: (f.ruleID, f.start, f.end) in seen' <==> Has(findings', f)
    {
      var g := unitFindings[i];
      assert unitFindings[..i + 1] == unitFindings[..i] + [g];
      MappedInBody(m.rules, u, g, bodyLen);
      var span := RawSpan(u, g.start, g.end);
      var rawStart, rawEnd := u.rawContentStart, u.rawContentEnd;
      if span.Some? {
        rawStart, rawEnd := span.value.0, span.value.1;
      }
      if rawStart < 0 || rawEnd <= rawStart || rawEnd > bodyLen {
        continue;
      }
      var f := g.(start := rawStart, end := rawEnd);
      if (g.ruleID, rawStart, rawEnd) !in seen' {
        Collect(m.rules, before, bodyLen, findings', u, g);
        HasGrows(findings', f);
        CompleteGrows(m.rules, before, findings', f);
        KeyAdded(findings', f);
        seen' := seen' + {(g.ruleID, rawStart, rawEnd)};
        findings' := findings' + [f];
      }
    }
    assert unitFindings[..|unitFindings|] == unitFindings;
  }

  lemma CompleteGrows(rules: seq<CompiledRule>, units: seq<ScanUnit>, findings: seq<Finding>, f: Finding)
    requires Complete(rules, units, findings)
    ensures Complete(rules, units, findings + [f])
  {
    hide FoundIn, Mapped, Has;
    HasGrows(findings, f);
  }

  lemma KeyAdded(findings: seq<Finding>, f: Finding)
    ensures forall g :: Has(findings + [f], g) <==> Has(findings, g) || SameKey(f, g)
  {
    HasGrows(findings, f);
  }

  /** Scans every unit and maps its findings to the body, once for each rule and raw span. */
  method ScanUnits(m: Matcher, units: seq<ScanUnit>, bodyLen: nat) returns (findings: seq<Finding>)
    requires m.Valid() && forall i :: 0 <= i < |units| ==> InBody(units[i], bodyLen)
    ensures Collected(m.rules, units, bodyLen, findings) && Complete(m.rules, units, findings)
  {
    findings := [];
    var seen: set<(string, int, int)> := {};
    hide Matcher.Valid, Has, InBody, FoundIn, Collected, Complete, AllMapped;
    HasNone();
    NothingCollected(m.rules, units[..0], bodyLen);
    for i := 0 to |units|
      invariant Collected(m.rules, units[..i], bodyLen, findings) && Complete(m.rules, units[..i], findings)
      invariant forall f: Finding :: (f.ruleID, f.start, f.end) in seen <==> Has(findings, f)
    {
      var unitFindings := m.Find(units[i].text);
      ghost var before := findings;
      assert units[..i + 1] == units[..i] + [units[i]];
      FoundAll(m.rules, units[i], unitFindings);
      MoreUnits(m.rules, units[..i], units[i], bodyLen, findings);
      findings, seen := MapUnit(m, units[..i], units[i], unitFindings, bodyLen, findings, seen);
      UnitDone(m.rules, units[..i], units[i], unitFindings, before, findings);
    }
    assert units[..|units|] == units;
  }

  lemma NothingCollected(rules: seq<CompiledRule>, units: seq<ScanUnit>, bodyLen: nat)
    requires units == []
    ensures Collected(rules, units, bodyLen, []) && Complete(rules, units, [])
  {
  }

  lemma HasNone()
    ensures forall f :: !Has([], f)
  {
  }

  lemma FoundAll(rules: seq<CompiledRule>, u: ScanUnit, gs: seq<Finding>)
    requires multiset(gs) == Bag(rules, AllKeys(rules, u.text))
    ensures forall i :: 0 <= i < |gs| ==> FoundIn(rules, u, gs[i])
  {
  }

  lemma ChosenInRange(findings: seq<Finding>, chosen: seq<Finding>, n: int)
    requires InRange(Spans(findings), n) && forall j :: 0 <= j < |chosen| ==> chosen[j] in findings
    ensures InRange(Spans(chosen), n)
  {
    forall j | 0 <= j < |chosen| ensures 0 <= Spans(chosen)[j].start <= Spans(chosen)[j].end <= n {
      var i :| 0 <= i < |findings| && findings[i] == chosen[j];
      assert Spans(findings)[i] == SpanOf(chosen[j]);
    }
  }

  ghost predicate AllExempted(policy: Policy, findings: seq<Finding>) {
    forall i :: 0 <= i < |findings| ==> policy(findings[i].class_, findings[i].confidence).exempted
  }

  lemma OneMore(policy: Policy, findings: seq<Finding>, f: Finding)
    ensures AllExempted(policy, findings + [f]) <==> AllExempted(policy, findings) && policy(f.class_, f.confidence).exempted
    ensures AnyMasks(policy, findings + [f]) <==> AnyMasks(policy, findings) || Masks(policy, f)
    ensures AnyBlocks(policy, findings + [f]) <==> AnyBlocks(policy, findings) || Blocks(policy, f)
    ensures !AnyBlocks(policy, findings) && Blocks(policy, f) ==>
              FirstBlock(policy, findings + [f], BlockDetail(f.class_, f.ruleID))
    ensures forall detail :: FirstBlock(policy, findings, detail) ==> FirstBlock(policy, findings + [f], detail)
  {
    var all := findings + [f];
    assert all[|findings|] == f && forall i :: 0 <= i < |findings| ==> all[i] == findings[i];
    if Masks(policy, f) { assert Masks(policy, all[|findings|]); }
    if Blocks(policy, f) { assert Blocks(policy, all[|findings|]); }
    if AnyMasks(policy, findings) {
      var i :| 0 <= i < |findings| && Masks(policy, findings[i]);
      assert Masks(policy, all[i]);
    }
    if AnyBlocks(policy, findings) {
      var i :| 0 <= i < |findings| && Blocks(policy, findings[i]);
      assert Blocks(policy, all[i]);
    }
  }

  /** Acts on the findings of a body: withholds it if one blocks, otherwise masks what has to be masked. */
  method ApplyActions(policy: Policy, body: seq<byte>, findings: seq<Finding>)
    returns (verdict: Verdict, forwarded: seq<byte>, detail: Option<BlockDetail>)
    requires InRange(Spans(findings), |body|)
    ensures verdict == Withheld <==> AnyBlocks(policy, findings)
    ensures verdict == Withheld ==> detail.Some? && FirstBlock(policy, findings, detail.value)
    ensures verdict == Rewritten <==> AnyMasks(policy, findings) && !AnyBlocks(policy, findings)
    ensures verdict == Exempted <==> findings != [] && AllExempted(policy, findings)
    ensures verdict != Withheld ==> forwarded == Masked(body, FindingCover(policy, findings), 0)
    ensures verdict != Withheld && verdict != Rewritten ==> forwarded == body
  {
    hide InRange;
    detail, forwarded := None, body;
    var spans: seq<Finding> := [];
    var anyExempted, allExempted := false, true;
    hide FirstBlock, FindingCover, AllExempted, AnyMasks, AnyBlocks, Cover;
    NoneYet(policy);
    for i := 0 to |findings|
      invariant allExempted <==> AllExempted(policy, findings[..i])
      invariant (anyExempted ==> i > 0) && (allExempted && i > 0 ==> anyExempted)
      invariant spans != [] <==> AnyMasks(policy, findings[..i])
      invariant Cover(Spans(spans)) == FindingCover(policy, findings[..i])
      invariant forall j :: 0 <= j < |spans| ==> spans[j] in findings
      invariant detail.Some? <==> AnyBlocks(policy, findings[..i])
      invariant detail.Some? ==> FirstBlock(policy, findings[..i], detail.value)
    {
      var f := findings[i];
      assert findings[..i + 1] == findings[..i] + [f];
      OneMore(policy, findings[..i], f);
      FindingCoverStep(policy, findings, i);
      SpansStep(spans, f);
      var result := policy(f.class_, f.confidence);
      if result.exempted {
        anyExempted := true;
      } else {
        allExempted := false;
      }
      match result.action {
        case Block =>
          if detail.None? {
            detail := Some(BlockDetail(f.class_, f.ruleID));
          }
        case Mask =>
          spans := spans + [f];
        case LogOnly =>
      }
    }
    assert findings[..|findings|] == findings;
    if allExempted {
      ExemptedOnly(policy, findings);
    }
    UnmaskedBody(policy, findings, body);
    if detail.Some? {
      verdict := Withheld;
    } else if |spans| > 0 {
      ChosenInRange(findings, spans, |body|);
      forwarded := MaskBody(body, spans);
      verdict := Rewritten;
    } else if allExempted && anyExempted {
      verdict := Exempted;
    } else {
      verdict := Forwarded;
    }
  }

  lemma NoneYet(policy: Policy)
    ensures AllExempted(policy, []) && !AnyMasks(policy, []) && !AnyBlocks(policy, [])
    ensures Cover(Spans([])) == FindingCover(policy, [])
  {
    assert FindingCover(policy, []) == iset{};
  }

  lemma ExemptedOnly(policy: Policy, findings: seq<Finding>)
    requires AllExempted(policy, findings)
    ensures !AnyMasks(policy, findings) && !AnyBlocks(policy, findings)
  {
  }

  lemma UnmaskedBody(policy: Policy, findings: seq<Finding>, body: seq<byte>)
    ensures !AnyMasks(policy, findings) ==> Masked(body, FindingCover(policy, findings), 0) == body
  {
  }
}
