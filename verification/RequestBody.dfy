/** The request path from end to end: parsed body, extracted texts, findings, and the body that is sent on. */
module RequestBody {
  import opened Bytes
  import opened Rules
  import opened Matching
  import opened SpanMask
  import opened JsonString
  import opened JsonGrammar
  import opened RawMapping
  import opened NestedMask
  import opened DocumentMask
  import opened NestedDocument
  import opened JsonSyntax
  import opened SyntaxSplice
  import opened GateSpec
  import opened Gate
  import opened Equivalence
  import opened Request

  // ----- What can be extracted

  /** A string or number of the body. */
  ghost predicate Direct(root: JsonNode, u: ScanUnit) {
    exists leaf :: leaf in ScalarLeaves(root) && u == UnitOf(leaf)
  }

  /** A string or number of the JSON that a string of the body holds. */
  ghost predicate Nested(root: JsonNode, u: ScanUnit) {
    exists outer, inner, leaf :: outer in ScalarLeaves(root) && outer.JString? && ReadFrom(inner, outer.text)
                                 && leaf in ScalarLeaves(inner) && u == ComposedUnit(leaf, outer)
  }

  /** Which strings and numbers a provider's body is searched for varies; every one of them is of this kind. */
  ghost predicate Extracted(root: JsonNode, units: seq<ScanUnit>) {
    forall i :: 0 <= i < |units| ==> Direct(root, units[i]) || Nested(root, units[i])
  }

  lemma DirectInBody(root: JsonNode, u: ScanUnit, data: seq<byte>)
    requires ReadFrom(root, data) && Direct(root, u)
    ensures InBody(u, |data|)
  {
    hide ReadFrom, Sound, UnitOf;
    var leaf :| leaf in ScalarLeaves(root) && u == UnitOf(leaf);
    LeavesReadFrom(root, data);
    LeafSound(leaf, data);
    assert Sound(u, u.rawContentStart, u.rawContentEnd);
  }

  lemma NestedInBody(root: JsonNode, u: ScanUnit, data: seq<byte>)
    requires ReadFrom(root, data) && Nested(root, u)
    ensures InBody(u, |data|)
  {
    hide ReadFrom, Sound, ComposedUnit;
    var outer, inner, leaf :| outer in ScalarLeaves(root) && outer.JString? && ReadFrom(inner, outer.text)
                              && leaf in ScalarLeaves(inner) && u == ComposedUnit(leaf, outer);
    LeavesReadFrom(root, data);
    LeavesReadFrom(inner, outer.text);
    ComposedSound(leaf, outer, data);
    assert Sound(u, outer.rawContentStart, outer.rawContentEnd);
  }

  /** Every extracted text has one source range for each byte, in order and inside the body. */
  lemma ExtractedInBody(root: JsonNode, units: seq<ScanUnit>, data: seq<byte>)
    requires ReadFrom(root, data) && Extracted(root, units)
    ensures forall i :: 0 <= i < |units| ==> InBody(units[i], |data|)
  {
    hide ReadFrom, InBody, Direct, Nested;
    forall i | 0 <= i < |units| ensures InBody(units[i], |data|) {
      if Direct(root, units[i]) { DirectInBody(root, units[i], data); } else { NestedInBody(root, units[i], data); }
    }
  }

  // ----- What the findings of the texts ask for

  ghost predicate BlocksRequest(rules: seq<CompiledRule>, policy: Policy, units: seq<ScanUnit>) {
    exists i, g :: 0 <= i < |units| && FoundIn(rules, units[i], g) && Blocks(policy, g)
  }

  ghost predicate MasksByte(rules: seq<CompiledRule>, policy: Policy, units: seq<ScanUnit>, p: int) {
    exists i, g :: 0 <= i < |units| && FoundIn(rules, units[i], g) && Masks(policy, g)
                   && Mapped(units[i], g).start <= p < Mapped(units[i], g).end
  }

  /** The bytes of the body that some finding of some text has masked. */
  ghost function RequestCover(rules: seq<CompiledRule>, policy: Policy, units: seq<ScanUnit>): iset<int> {
    iset p | MasksByte(rules, policy, units, p)
  }

  function ActionOf(policy: Policy, r: CompiledRule): Action { policy(r.rule.class_, r.confidence).action }

  function ActionFor(policy: Policy, f: Finding): Action { policy(f.class_, f.confidence).action }

  /** The policy treats rules with the same identifier alike. */
  ghost predicate Alike(policy: Policy, rules: seq<CompiledRule>) {
    forall i, j :: 0 <= i < |rules| && 0 <= j < |rules| && rules[i].rule.id == rules[j].rule.id ==>
      ActionOf(policy, rules[i]) == ActionOf(policy, rules[j])
  }

  lemma DistinctIsAlike(policy: Policy, rules: seq<CompiledRule>)
    requires DistinctIDs(rules)
    ensures Alike(policy, rules)
  {
  }

  /** An exempted finding is only logged, so the action alone decides. */
  lemma ActionDecides(policy: Policy, f: Finding)
    ensures Blocks(policy, f) <==> ActionFor(policy, f) == Block
    ensures Masks(policy, f) <==> ActionFor(policy, f) == Mask
  {
  }

  /** Findings of rules with the same identifier are treated alike. */
  lemma SameRule(policy: Policy, rules: seq<CompiledRule>, u: ScanUnit, g: Finding, v: ScanUnit, h: Finding)
    requires Alike(policy, rules) && FoundIn(rules, u, g) && FoundIn(rules, v, h) && g.ruleID == h.ruleID
    ensures ActionFor(policy, g) == ActionFor(policy, h)
  {
    hide Bag, AllKeys;
    var j := KeyOf(rules, u.text, g);
    var k := KeyOf(rules, v.text, h);
    assert ActionFor(policy, g) == ActionOf(policy, rules[j.ruleIndex]);
    assert ActionFor(policy, h) == ActionOf(policy, rules[k.ruleIndex]);
  }

  lemma MappedAlike(policy: Policy, u: ScanUnit, g: Finding)
    ensures Mapped(u, g).ruleID == g.ruleID && ActionFor(policy, Mapped(u, g)) == ActionFor(policy, g)
  {
  }

  /** A collected finding is treated like some finding of a text, with its span. */
  lemma Stands(rules: seq<CompiledRule>, policy: Policy, units: seq<ScanUnit>, bodyLen: nat, findings: seq<Finding>, j: nat)
    returns (i: nat, g: Finding)
    requires Collected(rules, units, bodyLen, findings) && j < |findings|
    ensures i < |units| && FoundIn(rules, units[i], g) && findings[j] == Mapped(units[i], g)
    ensures ActionFor(policy, g) == ActionFor(policy, findings[j])
  {
    hide FoundIn, Mapped;
    assert Maps(rules, units, findings[j]);
    i, g :| Source(rules, units, i, g, findings[j]);
    MappedAlike(policy, units[i], g);
  }

  /** The collected finding that stands for a finding of a text has its span and is treated like it. */
  lemma Represented(rules: seq<CompiledRule>, policy: Policy, units: seq<ScanUnit>, bodyLen: nat, findings: seq<Finding>,
                    i: nat, g: Finding)
    returns (j: nat)
    requires Alike(policy, rules) && Collected(rules, units, bodyLen, findings) && Complete(rules, units, findings)
    requires i < |units| && FoundIn(rules, units[i], g)
    ensures j < |findings| && findings[j].start == Mapped(units[i], g).start && findings[j].end == Mapped(units[i], g).end
    ensures ActionFor(policy, findings[j]) == ActionFor(policy, g)
  {
    hide FoundIn, Mapped, Alike, ActionFor;
    j :| 0 <= j < |findings| && SameKey(findings[j], Mapped(units[i], g));
    var k, h := Stands(rules, policy, units, bodyLen, findings, j);
    MappedAlike(policy, units[i], g);
    MappedAlike(policy, units[k], h);
    SameRule(policy, rules, units[i], g, units[k], h);
  }

  /** Whatever the identifiers, a collected finding blocks or masks only if a finding of a text does. */
  lemma NothingAdded(rules: seq<CompiledRule>, policy: Policy, units: seq<ScanUnit>, bodyLen: nat, findings: seq<Finding>)
    requires Collected(rules, units, bodyLen, findings)
    ensures AnyBlocks(policy, findings) ==> BlocksRequest(rules, policy, units)
    ensures FindingCover(policy, findings) <= RequestCover(rules, policy, units)
  {
    hide FoundIn, Mapped, Collected, Blocks, Masks, ActionFor;
    if AnyBlocks(policy, findings) {
      var j :| 0 <= j < |findings| && Blocks(policy, findings[j]);
      var k, h := Stands(rules, policy, units, bodyLen, findings, j);
      ActionDecides(policy, findings[j]);
      ActionDecides(policy, h);
    }
    forall p | FindingMasks(policy, findings, p) ensures MasksByte(rules, policy, units, p) {
      var j :| 0 <= j < |findings| && Masks(policy, findings[j]) && findings[j].start <= p < findings[j].end;
      var k, h := Stands(rules, policy, units, bodyLen, findings, j);
      ActionDecides(policy, findings[j]);
      ActionDecides(policy, h);
    }
  }

  /** Removing duplicates never hides a block from a policy that treats rules with the same identifier alike. */
  lemma BlockedAlike(rules: seq<CompiledRule>, policy: Policy, units: seq<ScanUnit>, bodyLen: nat, findings: seq<Finding>)
    requires Alike(policy, rules) && Collected(rules, units, bodyLen, findings) && Complete(rules, units, findings)
    ensures AnyBlocks(policy, findings) <==> BlocksRequest(rules, policy, units)
  {
    hide FoundIn, Mapped, Collected, Complete, Blocks, ActionFor, Alike;
    NothingAdded(rules, policy, units, bodyLen, findings);
    if BlocksRequest(rules, policy, units) {
      var i, g :| 0 <= i < |units| && FoundIn(rules, units[i], g) && Blocks(policy, g);
      var j := Represented(rules, policy, units, bodyLen, findings, i, g);
      ActionDecides(policy, findings[j]);
      ActionDecides(policy, g);
    }
  }

  /** Nor does it change what is masked. */
  lemma MaskedAlike(rules: seq<CompiledRule>, policy: Policy, units: seq<ScanUnit>, bodyLen: nat, findings: seq<Finding>)
    requires Alike(policy, rules) && Collected(rules, units, bodyLen, findings) && Complete(rules, units, findings)
    ensures FindingCover(policy, findings) == RequestCover(rules, policy, units)
  {
    hide FoundIn, Mapped, Collected, Complete, Masks, ActionFor, Alike;
    NothingAdded(rules, policy, units, bodyLen, findings);
    forall p | MasksByte(rules, policy, units, p) ensures FindingMasks(policy, findings, p) {
      var i, g :| 0 <= i < |units| && FoundIn(rules, units[i], g) && Masks(policy, g)
                  && Mapped(units[i], g).start <= p < Mapped(units[i], g).end;
      var j := Represented(rules, policy, units, bodyLen, findings, i, g);
      ActionDecides(policy, findings[j]);
      ActionDecides(policy, g);
    }
  }

  lemma CollectedInRange(rules: seq<CompiledRule>, units: seq<ScanUnit>, bodyLen: nat, findings: seq<Finding>)
    requires Collected(rules, units, bodyLen, findings)
    ensures InRange(Spans(findings), bodyLen)
  {
    hide Maps;
    forall i | 0 <= i < |findings| ensures Spans(findings)[i] == SpanOf(findings[i]) { }
  }

  // ----- The body that is sent on is still a document

  lemma DirectSpan(root: JsonNode, body: seq<byte>, u: ScanUnit, g: Finding)
    requires ReadFrom(root, body) && Direct(root, u) && 0 <= g.start < g.end <= |u.text|
    ensures LeafSpan(root, body, SpanOf(Mapped(u, g)))
  {
    hide ReadFrom, UnitOf, RawSpan;
    var leaf :| leaf in ScalarLeaves(root) && u == UnitOf(leaf);
    LeavesReadFrom(root, body);
    UnitText(leaf);
    LeafPlace(body, leaf, g.start, g.end);
    assert SpanOfLeaf(leaf, body, g.start, g.end, SpanOf(Mapped(u, g)));
  }

  lemma UnitText(leaf: JsonNode)
    requires leaf.JString? || leaf.JNumber?
    ensures UnitOf(leaf).text == leaf.text
  {
  }

  lemma NestedSpan(root: JsonNode, body: seq<byte>, u: ScanUnit, g: Finding)
    requires ReadFrom(root, body) && Nested(root, u) && 0 <= g.start < g.end <= |u.text|
    ensures LeafSpan(root, body, SpanOf(Mapped(u, g)))
  {
    hide ReadFrom, ComposedUnit, UnitOf, RawSpan;
    var outer, inner, leaf :| outer in ScalarLeaves(root) && outer.JString? && ReadFrom(inner, outer.text)
                              && leaf in ScalarLeaves(inner) && u == ComposedUnit(leaf, outer);
    ComposedText(leaf, outer);
    LeavesReadFrom(root, body);
    LeavesReadFrom(inner, outer.text);
    var ia, ib := ComposedSpan(body, outer, leaf, g.start, g.end);
    LeafPlace(body, outer, ia, ib);
    assert SpanOfLeaf(outer, body, ia, ib, SpanOf(Mapped(u, g)));
  }

  lemma ComposedText(leaf: JsonNode, outer: JsonNode)
    requires (leaf.JString? || leaf.JNumber?) && outer.JString?
    ensures ComposedUnit(leaf, outer).text == leaf.text
  {
  }

  /** The span of a finding lies in one string or number of the body. */
  lemma FindingSpan(root: JsonNode, body: seq<byte>, rules: seq<CompiledRule>, u: ScanUnit, g: Finding)
    requires ReadFrom(root, body) && (Direct(root, u) || Nested(root, u)) && FoundIn(rules, u, g)
    ensures LeafSpan(root, body, SpanOf(Mapped(u, g)))
  {
    hide ReadFrom, Bag, AllKeys, Direct, Nested, LeafSpan;
    FindingInText(rules, u.text, g);
    if Direct(root, u) { DirectSpan(root, body, u, g); } else { NestedSpan(root, body, u, g); }
  }

  /** Every byte that collected findings mask belongs to a range of a string or number. */
  lemma MasksFromLeaves(rules: seq<CompiledRule>, policy: Policy, units: seq<ScanUnit>, root: JsonNode, body: seq<byte>,
                        findings: seq<Finding>)
    requires ReadFrom(root, body) && Extracted(root, units) && Collected(rules, units, |body|, findings)
    ensures FromLeaves(root, body, FindingCover(policy, findings))
  {
    hide ReadFrom, FoundIn, Direct, Nested, LeafSpan, Mapped, Collected, Masks, ActionFor;
    var cover := FindingCover(policy, findings);
    forall p | p in cover ensures exists span :: SpanAt(root, body, cover, span, p) {
      var j :| 0 <= j < |findings| && Masks(policy, findings[j]) && findings[j].start <= p < findings[j].end;
      var i, g := Stands(rules, policy, units, |body|, findings, j);
      FindingSpan(root, body, rules, units[i], g);
      var span := SpanOf(findings[j]);
      forall q | q in Inside(span) ensures q in cover { assert FindingMasks(policy, findings, q); }
      assert SpanAt(root, body, cover, span, p);
    }
  }

  /** The masked body spells the same tree with its strings and numbers read again. If the body passed the syntax check, so does
      the masked one exactly when no number is touched. */
  lemma ForwardedReads(rules: seq<CompiledRule>, policy: Policy, units: seq<ScanUnit>, root: JsonNode, body: seq<byte>,
                       findings: seq<Finding>)
    requires Document(root, body) && Extracted(root, units) && Collected(rules, units, |body|, findings)
    ensures var cover := FindingCover(policy, findings);
            && Document(MaskedNode(root, body, cover), Masked(body, cover, 0))
            && (Conforms(root, body) ==>
                  (ValidJSON(Masked(body, cover, 0)) <==> forall p :: p in cover ==> !InNumber(root, p)))
  {
    hide *;
    DocumentReads(root, body);
    MasksFromLeaves(rules, policy, units, root, body, findings);
    var cover := FindingCover(policy, findings);
    MaskedDocument(root, body, cover);
    if Conforms(root, body) {
      MaskedValid(root, body, cover);
    }
  }

  // ----- So is the JSON that its strings hold

  /** The finding was made in a string or number of the JSON that the outer string holds, or in the outer string itself at a place
      that fits that JSON. */
  ghost predicate InsideJSON(outer: JsonNode, inner: JsonNode, u: ScanUnit, g: Finding)
    requires outer.JString?
  {
    || (u == UnitOf(outer) && FitsJSON(inner, outer.text, g.start, g.end))
    || exists leaf :: leaf in ScalarLeaves(inner) && u == ComposedUnit(leaf, outer)
  }

  /** Every finding to be masked that reaches the string is of this kind. */
  ghost predicate MasksInside(rules: seq<CompiledRule>, policy: Policy, units: seq<ScanUnit>, outer: JsonNode, inner: JsonNode)
    requires outer.JString?
  {
    forall i, g :: 0 <= i < |units| && FoundIn(rules, units[i], g) && Masks(policy, g)
                   && Mapped(units[i], g).start <= outer.rawContentEnd && outer.rawContentStart < Mapped(units[i], g).end ==>
      InsideJSON(outer, inner, units[i], g)
  }

  lemma InsideFinding(body: seq<byte>, rules: seq<CompiledRule>, outer: JsonNode, inner: JsonNode, u: ScanUnit, g: Finding,
                      cover: iset<int>, p: int)
    requires outer.JString? && FoundIn(rules, u, g) && InsideJSON(outer, inner, u, g)
    requires ReadFrom(outer, body) && ReadFrom(inner, outer.text)
    requires RawSpan(u, g.start, g.end).Some? && Inside(SpanOf(Mapped(u, g))) <= cover && Contains(SpanOf(Mapped(u, g)), p)
    ensures InnerSpanAt(outer, inner, cover, p)
  {
    hide ReadFrom, Bag, AllKeys, ComposedUnit, RawSpan, FitsJSON;
    FindingInText(rules, u.text, g);
    var span := SpanOf(Mapped(u, g));
    if u == UnitOf(outer) && FitsJSON(inner, outer.text, g.start, g.end) {
      assert InnerSpan(outer, inner, cover, g.start, g.end, span);
    } else {
      var leaf :| leaf in ScalarLeaves(inner) && u == ComposedUnit(leaf, outer);
      ComposedText(leaf, outer);
      var ia, ib := NestedFits(body, outer, inner, leaf, g.start, g.end);
      assert InnerSpan(outer, inner, cover, ia, ib, span);
    }
  }

  lemma MasksFromInner(body: seq<byte>, rules: seq<CompiledRule>, policy: Policy, units: seq<ScanUnit>, findings: seq<Finding>,
                       outer: JsonNode, inner: JsonNode)
    requires outer.JString? && ReadFrom(outer, body) && ReadFrom(inner, outer.text)
    requires MasksInside(rules, policy, units, outer, inner) && Collected(rules, units, |body|, findings)
    requires forall i :: 0 <= i < |units| ==> InBody(units[i], |body|)
    ensures FromInner(outer, inner, FindingCover(policy, findings))
  {
    hide ReadFrom, FoundIn, InsideJSON, InnerSpanAt, Mapped, Collected, Masks, ActionFor, InBody, RawSpan;
    var cover := FindingCover(policy, findings);
    forall p | p in cover && outer.rawContentStart <= p <= outer.rawContentEnd ensures InnerSpanAt(outer, inner, cover, p) {
      var j :| 0 <= j < |findings| && Masks(policy, findings[j]) && findings[j].start <= p < findings[j].end;
      var i, g := Stands(rules, policy, units, |body|, findings, j);
      ActionDecides(policy, findings[j]);
      ActionDecides(policy, g);
      HasRawSpan(rules, units[i], |body|, g);
      forall q | q in Inside(SpanOf(findings[j])) ensures q in cover { assert FindingMasks(policy, findings, q); }
      InsideFinding(body, rules, outer, inner, units[i], g, cover, p);
    }
  }

  lemma HasRawSpan(rules: seq<CompiledRule>, u: ScanUnit, bodyLen: nat, g: Finding)
    requires InBody(u, bodyLen) && FoundIn(rules, u, g)
    ensures RawSpan(u, g.start, g.end).Some?
  {
    hide Bag, AllKeys, WellRanged;
    FindingInText(rules, u.text, g);
  }

  /** The string read from the masked body holds the same JSON with masked strings and numbers, which passes the syntax check
      exactly if no number is touched. */
  ghost predicate StillHolds(body: seq<byte>, cover: iset<int>, outer: JsonNode, inner: JsonNode) {
    && outer.JString? && 0 <= outer.rawContentStart <= |body|
    && var text := MaskedNode(outer, body, cover).text;
       && Document(MaskedInner(inner, body[outer.rawContentStart..], outer.rawContentStart, cover, text), text)
       && (ValidJSON(text) <==> forall q :: q in InnerCover(outer, inner, cover) ==> !InNumber(inner, q))
  }

  ghost predicate HoldsJSON(rules: seq<CompiledRule>, policy: Policy, units: seq<ScanUnit>, root: JsonNode,
                            outer: JsonNode, inner: JsonNode) {
    && outer in ScalarLeaves(root) && outer.JString? && Document(inner, outer.text) && Conforms(inner, outer.text)
    && MasksInside(rules, policy, units, outer, inner)
  }

  lemma NestedReads(rules: seq<CompiledRule>, policy: Policy, units: seq<ScanUnit>, root: JsonNode, body: seq<byte>,
                    findings: seq<Finding>, outer: JsonNode, inner: JsonNode)
    requires Document(root, body) && Extracted(root, units)
    requires Collected(rules, units, |body|, findings) && HoldsJSON(rules, policy, units, root, outer, inner)
    ensures StillHolds(body, FindingCover(policy, findings), outer, inner)
  {
    hide ReadFrom, Document, Conforms, ValidJSON, Collected, MasksInside, FromLeaves, FromInner, InnerCover, FindingCover, Extracted,
         InBody, MaskedNode, MaskedInner, InNumber;
    DocumentReads(root, body);
    DocumentReads(inner, outer.text);
    ExtractedInBody(root, units, body);
    MasksFromLeaves(rules, policy, units, root, body, findings);
    LeavesReadFrom(root, body);
    MasksFromInner(body, rules, policy, units, findings, outer, inner);
    MaskedInside(root, body, FindingCover(policy, findings), outer, inner);
  }

  /** Scans a request body and acts on it. It is withheld only if a finding of an extracted text blocks, and otherwise sent on
      with only source bytes of findings to be masked starred out. What is sent on is read as the same tree with masked strings
      and numbers, and a string that holds JSON still holds it if its findings fit that JSON; both pass the syntax check, if
      they did before, exactly when no number is touched. If the policy treats rules with the same identifier alike, the body
      is withheld whenever a finding blocks, and exactly the source bytes of the findings to be masked are starred out. */
  method GuardBody(m: Matcher, policy: Policy, body: seq<byte>, ghost root: JsonNode, units: seq<ScanUnit>)
    returns (verdict: Verdict, forwarded: seq<byte>, ghost cover: iset<int>)
    requires m.Valid() && Document(root, body) && Extracted(root, units)
    ensures verdict == Withheld ==> BlocksRequest(m.rules, policy, units)
    ensures verdict != Withheld ==> forwarded == Masked(body, cover, 0)
    ensures cover <= RequestCover(m.rules, policy, units)
    ensures verdict != Withheld ==>
              && Document(MaskedNode(root, body, cover), forwarded)
              && (Conforms(root, body) ==> (ValidJSON(forwarded) <==> forall p :: p in cover ==> !InNumber(root, p)))
              && forall outer, inner :: HoldsJSON(m.rules, policy, units, root, outer, inner) ==>
                   StillHolds(body, cover, outer, inner)
    ensures Alike(policy, m.rules) ==>
              && (verdict == Withheld <==> BlocksRequest(m.rules, policy, units))
              && cover == RequestCover(m.rules, policy, units)
  {
    ghost var n := |body|;
    ExtractedInBody(root, units, body);
    hide *;
    var findings := ScanUnits(m, units, |body|);
    cover := FindingCover(policy, findings);
    CollectedInRange(m.rules, units, n, findings);
    NothingAdded(m.rules, policy, units, n, findings);
    ForwardedReads(m.rules, policy, units, root, body, findings);
    forall outer, inner | HoldsJSON(m.rules, policy, units, root, outer, inner) ensures StillHolds(body, cover, outer, inner) {
      NestedReads(m.rules, policy, units, root, body, findings, outer, inner);
    }
    if Alike(policy, m.rules) {
      BlockedAlike(m.rules, policy, units, n, findings);
      MaskedAlike(m.rules, policy, units, n, findings);
    }
    var detail;
    verdict, forwarded, detail := ApplyActions(policy, body, findings);
  }
}
