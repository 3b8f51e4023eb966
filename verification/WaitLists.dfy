/** The waiting lists of a stream and the loops that drain and extend them. */
module WaitLists {
  import opened Bytes
  import opened AhoCorasick
  import opened Rules
  import opened Matching
  import opened Holding

  datatype PendingCandidate = PendingCandidate(start: int, kind: Prefilter)
  datatype PendingLiteral = PendingLiteral(start: int, ruleIndex: nat)

  ghost predicate Tables(rules: seq<CompiledRule>, digitRules: seq<nat>, ibanRules: seq<nat>) {
    UsableRules(rules) && Lists(rules, digitRules, Digit) && Lists(rules, ibanRules, Iban)
  }

  predicate Starts(kind: Prefilter, text: seq<byte>, pos: int) {
    && 0 <= pos < |text|
    && ((kind == Digit && IsDigitCandidateStart(text, pos)) || (kind == Iban && IsIBANCandidateStart(text, pos)))
  }

  ghost predicate Fits(rules: seq<CompiledRule>, text: seq<byte>, pc: PendingCandidate) {
    pc.start + ScanWindowLen(MaxLenOf(rules, pc.kind)) <= |text|
  }

  predicate LiteralFits(rules: seq<CompiledRule>, text: seq<byte>, pl: PendingLiteral) {
    pl.ruleIndex < |rules| && pl.start + ScanWindowLen(rules[pl.ruleIndex].rule.maxMatchLen) <= |text|
  }

  /** The three lists hold exactly what has been noticed in the first n bytes and cannot be tried yet. */
  ghost predicate WaitingLists(rules: seq<CompiledRule>, text: seq<byte>, n: nat, cands: seq<PendingCandidate>,
                               literals: seq<PendingLiteral>, deferred: seq<int>)
    requires n <= |text|
  {
    && (forall pc :: pc in cands <==> pc.start < n && Starts(pc.kind, text, pc.start) && !Fits(rules, text, pc))
    && (forall pl :: pl in literals <==>
          && Noticed(rules, text, Candidate(pl.ruleIndex, pl.start), n)
          && rules[pl.ruleIndex].rule.prefilter == Literal && !LiteralFits(rules, text, pl))
    && (forall p :: p in deferred <==> p < n && IBANDecision(text, p) == Defer)
  }

  // ----- The candidates a loop adds to those tried

  ghost function OfKind(rules: seq<CompiledRule>, pc: PendingCandidate): set<Candidate> {
    set i | 0 <= i < |rules| && rules[i].rule.prefilter == pc.kind :: Candidate(i, pc.start)
  }

  /** All rules of its kind at each of the candidates that fit. */
  ghost function Fitting(rules: seq<CompiledRule>, text: seq<byte>, cands: seq<PendingCandidate>): set<Candidate> {
    set pc, c | pc in cands && Fits(rules, text, pc) && c in OfKind(rules, pc) :: c
  }

  ghost function FittingLiterals(rules: seq<CompiledRule>, text: seq<byte>, literals: seq<PendingLiteral>): set<Candidate> {
    set pl | pl in literals && LiteralFits(rules, text, pl) :: Candidate(pl.ruleIndex, pl.start)
  }

  lemma FittingStep(rules: seq<CompiledRule>, text: seq<byte>, cands: seq<PendingCandidate>, i: nat)
    requires i < |cands|
    ensures Fitting(rules, text, cands[..i + 1])
         == Fitting(rules, text, cands[..i]) + if Fits(rules, text, cands[i]) then OfKind(rules, cands[i]) else {}
  {
    assert cands[..i + 1] == cands[..i] + [cands[i]];
  }

  lemma FittingLiteralsStep(rules: seq<CompiledRule>, text: seq<byte>, literals: seq<PendingLiteral>, i: nat)
    requires i < |literals|
    ensures FittingLiterals(rules, text, literals[..i + 1])
         == FittingLiterals(rules, text, literals[..i])
            + if LiteralFits(rules, text, literals[i]) then {Candidate(literals[i].ruleIndex, literals[i].start)} else {}
  {
    assert literals[..i + 1] == literals[..i] + [literals[i]];
  }

  method MaxMatchLenFor(rules: seq<CompiledRule>, digitRules: seq<nat>, ibanRules: seq<nat>, kind: Prefilter)
    returns (maxLen: int)
    requires Tables(rules, digitRules, ibanRules) && (kind == Digit || kind == Iban)
    ensures maxLen == MaxLenOf(rules, kind)
  {
    var indexes := if kind == Digit then digitRules else ibanRules;
    assert Lists(rules, indexes, kind);
    Bounded(rules, indexes, kind);
    ghost var top := MaxLenOf(rules, kind);
    maxLen := 0;
    hide *;
    for j := 0 to |indexes|
      invariant 0 <= maxLen <= top
      invariant forall i :: 0 <= i < j ==> rules[indexes[i]].rule.maxMatchLen <= maxLen
    {
      var n := rules[indexes[j]].rule.maxMatchLen;
      if n > maxLen {
        maxLen := n;
      }
    }
    MaxReached(rules, indexes, kind, maxLen);
  }

  lemma Bounded(rules: seq<CompiledRule>, indexes: seq<nat>, kind: Prefilter)
    requires Lists(rules, indexes, kind)
    ensures forall i :: 0 <= i < |indexes| ==>
              indexes[i] < |rules| && rules[indexes[i]].rule.maxMatchLen <= MaxLenOf(rules, kind)
  {
  }

  lemma MaxReached(rules: seq<CompiledRule>, indexes: seq<nat>, kind: Prefilter, maxLen: int)
    requires Lists(rules, indexes, kind) && 0 <= maxLen
    requires forall i :: 0 <= i < |indexes| ==> rules[indexes[i]].rule.maxMatchLen <= maxLen
    ensures MaxLenOf(rules, kind) <= maxLen
  {
  }

  /** Tries all rules of a kind at one position. */
  method ScanKind(rules: seq<CompiledRule>, digitRules: seq<nat>, ibanRules: seq<nat>, text: seq<byte>,
                  pc: PendingCandidate, findings: seq<Finding>, seen: set<CandidateKey>,
                  ghost tried: set<Candidate>, ghost before: set<CandidateKey>)
    returns (findings': seq<Finding>, seen': set<CandidateKey>)
    requires Tables(rules, digitRules, ibanRules) && (pc.kind == Digit || pc.kind == Iban)
    requires Scanned(rules, text, tried, before, findings, seen)
    ensures Scanned(rules, text, tried + OfKind(rules, pc), before, findings', seen')
  {
    var indexes := if pc.kind == Digit then digitRules else ibanRules;
    assert Lists(rules, indexes, pc.kind);
    assert WithIndexes(indexes, pc.start) == OfKind(rules, pc);
    hide Scanned;
    findings', seen' := ScanRules(rules, text, indexes, pc.start, findings, seen, tried, before);
  }

  /** Tries the pending candidates whose windows are complete and keeps the others. */
  method DrainCandidates(rules: seq<CompiledRule>, digitRules: seq<nat>, ibanRules: seq<nat>, text: seq<byte>,
                         cands: seq<PendingCandidate>, findings: seq<Finding>, seen: set<CandidateKey>,
                         ghost tried: set<Candidate>, ghost before: set<CandidateKey>)
    returns (remaining: seq<PendingCandidate>, findings': seq<Finding>, seen': set<CandidateKey>)
    requires Tables(rules, digitRules, ibanRules)
    requires forall j :: 0 <= j < |cands| ==> cands[j].kind == Digit || cands[j].kind == Iban
    requires Scanned(rules, text, tried, before, findings, seen)
    ensures forall pc :: pc in remaining <==> pc in cands && !Fits(rules, text, pc)
    ensures Scanned(rules, text, tried + Fitting(rules, text, cands), before, findings', seen')
  {
    hide Scanned, Tables, Fits;
    remaining, findings', seen' := [], findings, seen;
    assert tried + Fitting(rules, text, cands[..0]) == tried;
    for i := 0 to |cands|
      invariant forall pc :: pc in remaining <==> pc in cands[..i] && !Fits(rules, text, pc)
      invariant Scanned(rules, text, tried + Fitting(rules, text, cands[..i]), before, findings', seen')
    {
      var pc := cands[i];
      FittingStep(rules, text, cands, i);
      assert cands[..i + 1] == cands[..i] + [pc];
      ghost var done := tried + Fitting(rules, text, cands[..i]);
      var fits := CanResolve(rules, digitRules, ibanRules, text, pc);
      if fits {
        findings', seen' := ScanKind(rules, digitRules, ibanRules, text, pc, findings', seen', done, before);
        assert done + OfKind(rules, pc) == tried + Fitting(rules, text, cands[..i + 1]);
      } else {
        remaining := remaining + [pc];
        assert done == tried + Fitting(rules, text, cands[..i + 1]);
      }
    }
    assert cands[..|cands|] == cands;
  }

  method CanResolve(rules: seq<CompiledRule>, digitRules: seq<nat>, ibanRules: seq<nat>, text: seq<byte>,
                    pc: PendingCandidate) returns (fits: bool)
    requires Tables(rules, digitRules, ibanRules) && (pc.kind == Digit || pc.kind == Iban)
    ensures fits == Fits(rules, text, pc)
  {
    var maxLen := MaxMatchLenFor(rules, digitRules, ibanRules, pc.kind);
    fits := pc.start + ScanWindowLen(maxLen) <= |text|;
  }

  /** Tries a digit candidate, or keeps it if its window is not complete. */
  method ProcessDigit(rules: seq<CompiledRule>, digitRules: seq<nat>, ibanRules: seq<nat>, text: seq<byte>, start: int,
                      cands: seq<PendingCandidate>, findings: seq<Finding>, seen: set<CandidateKey>,
                      ghost tried: set<Candidate>, ghost before: set<CandidateKey>)
    returns (cands': seq<PendingCandidate>, findings': seq<Finding>, seen': set<CandidateKey>)
    requires Tables(rules, digitRules, ibanRules)
    requires Scanned(rules, text, tried, before, findings, seen)
    ensures var pc := PendingCandidate(start, Digit);
            && cands' == (if Fits(rules, text, pc) then cands else cands + [pc])
            && Scanned(rules, text, tried + (if Fits(rules, text, pc) then OfKind(rules, pc) else {}), before, findings', seen')
  {
    hide Scanned, Tables, Fits;
    cands', findings', seen' := cands, findings, seen;
    var pc := PendingCandidate(start, Digit);
    var fits := CanResolve(rules, digitRules, ibanRules, text, pc);
    if fits {
      findings', seen' := ScanKind(rules, digitRules, ibanRules, text, pc, findings, seen, tried, before);
    } else {
      cands' := cands + [pc];
      assert tried + {} == tried;
    }
  }

  /** Tries an IBAN candidate, or keeps it if its window is not complete. */
  method ProcessIBAN(rules: seq<CompiledRule>, digitRules: seq<nat>, ibanRules: seq<nat>, text: seq<byte>, start: int,
                     cands: seq<PendingCandidate>, findings: seq<Finding>, seen: set<CandidateKey>,
                     ghost tried: set<Candidate>, ghost before: set<CandidateKey>)
    returns (cands': seq<PendingCandidate>, findings': seq<Finding>, seen': set<CandidateKey>)
    requires Tables(rules, digitRules, ibanRules)
    requires Scanned(rules, text, tried, before, findings, seen)
    ensures var pc := PendingCandidate(start, Iban);
            && cands' == (if Fits(rules, text, pc) then cands else cands + [pc])
            && Scanned(rules, text, tried + (if Fits(rules, text, pc) then OfKind(rules, pc) else {}), before, findings', seen')
  {
    hide Scanned, Tables, Fits;
    cands', findings', seen' := cands, findings, seen;
    var pc := PendingCandidate(start, Iban);
    var fits := CanResolve(rules, digitRules, ibanRules, text, pc);
    if fits {
      findings', seen' := ScanKind(rules, digitRules, ibanRules, text, pc, findings, seen, tried, before);
    } else {
      cands' := cands + [pc];
      assert tried + {} == tried;
    }
  }

  /** The put-off starts that turn out to be IBAN starts. */
  ghost function Promoted(text: seq<byte>, deferred: seq<int>): set<PendingCandidate> {
    set p | p in deferred && IBANDecision(text, p) == Yes :: PendingCandidate(p, Iban)
  }

  ghost function FittingIn(rules: seq<CompiledRule>, text: seq<byte>, pcs: set<PendingCandidate>): set<Candidate> {
    set pc, c | pc in pcs && Fits(rules, text, pc) && c in OfKind(rules, pc) :: c
  }

  lemma PromotedStep(rules: seq<CompiledRule>, text: seq<byte>, deferred: seq<int>, i: nat)
    requires i < |deferred|
    ensures var pc := PendingCandidate(deferred[i], Iban);
            && Promoted(text, deferred[..i + 1])
               == Promoted(text, deferred[..i]) + (if IBANDecision(text, deferred[i]) == Yes then {pc} else {})
            && FittingIn(rules, text, Promoted(text, deferred[..i + 1]))
               == FittingIn(rules, text, Promoted(text, deferred[..i]))
                  + (if IBANDecision(text, deferred[i]) == Yes && Fits(rules, text, pc) then OfKind(rules, pc) else {})
  {
    hide Fits, OfKind;
    assert deferred[..i + 1] == deferred[..i] + [deferred[i]];
  }

  /** Decides again the starts that were put off. */
  method DrainDeferred(rules: seq<CompiledRule>, digitRules: seq<nat>, ibanRules: seq<nat>, text: seq<byte>,
                       deferred: seq<int>, cands: seq<PendingCandidate>, findings: seq<Finding>, seen: set<CandidateKey>,
                       ghost tried: set<Candidate>, ghost before: set<CandidateKey>)
    returns (still: seq<int>, cands': seq<PendingCandidate>, findings': seq<Finding>, seen': set<CandidateKey>)
    requires Tables(rules, digitRules, ibanRules)
    requires Scanned(rules, text, tried, before, findings, seen)
    ensures forall p :: p in still <==> p in deferred && IBANDecision(text, p) == Defer
    ensures forall pc :: pc in cands' <==> pc in cands || (pc in Promoted(text, deferred) && !Fits(rules, text, pc))
    ensures Scanned(rules, text, tried + FittingIn(rules, text, Promoted(text, deferred)), before, findings', seen')
  {
    hide Scanned, Tables, Fits, OfKind;
    still, cands', findings', seen' := [], cands, findings, seen;
    assert tried + FittingIn(rules, text, Promoted(text, deferred[..0])) == tried;
    assert Promoted(text, deferred[..0]) == {};
    hide FittingIn, Promoted, IBANDecision;
    for i := 0 to |deferred|
      invariant forall p :: p in still <==> p in deferred[..i] && IBANDecision(text, p) == Defer
      invariant forall pc :: pc in cands' <==> pc in cands || (pc in Promoted(text, deferred[..i]) && !Fits(rules, text, pc))
      invariant Scanned(rules, text, tried + FittingIn(rules, text, Promoted(text, deferred[..i])), before, findings', seen')
    {
      var pos := deferred[i];
      PromotedStep(rules, text, deferred, i);
      assert deferred[..i + 1] == deferred[..i] + [pos];
      ghost var done := FittingIn(rules, text, Promoted(text, deferred[..i]));
      match IBANDecision(text, pos) {
        case Yes =>
          cands', findings', seen' :=
            ProcessIBAN(rules, digitRules, ibanRules, text, pos, cands', findings', seen', tried + done, before);
          ghost var pc := PendingCandidate(pos, Iban);
          ghost var more := if Fits(rules, text, pc) then OfKind(rules, pc) else {};
          assert tried + done + more == tried + (done + more);
        case Defer =>
          still := still + [pos];
          assert done + {} == done;
        case No =>
          assert done + {} == done;
      }
    }
    assert deferred[..|deferred|] == deferred;
  }

  /** Tries the pending keyword candidates whose windows are complete and keeps the others. */
  method DrainLiterals(rules: seq<CompiledRule>, text: seq<byte>, literals: seq<PendingLiteral>,
                       findings: seq<Finding>, seen: set<CandidateKey>,
                       ghost tried: set<Candidate>, ghost before: set<CandidateKey>)
    returns (remaining: seq<PendingLiteral>, findings': seq<Finding>, seen': set<CandidateKey>)
    requires UsableRules(rules)
    requires forall j :: 0 <= j < |literals| ==> literals[j].ruleIndex < |rules|
    requires Scanned(rules, text, tried, before, findings, seen)
    ensures forall pl :: pl in remaining <==> pl in literals && !LiteralFits(rules, text, pl)
    ensures Scanned(rules, text, tried + FittingLiterals(rules, text, literals), before, findings', seen')
  {
    hide Scanned;
    remaining, findings', seen' := [], findings, seen;
    assert tried + FittingLiterals(rules, text, literals[..0]) == tried;
    hide FittingLiterals;
    for i := 0 to |literals|
      invariant forall pl :: pl in remaining <==> pl in literals[..i] && !LiteralFits(rules, text, pl)
      invariant Scanned(rules, text, tried + FittingLiterals(rules, text, literals[..i]), before, findings', seen')
    {
      var pl := literals[i];
      FittingLiteralsStep(rules, text, literals, i);
      assert literals[..i + 1] == literals[..i] + [pl];
      ghost var done := FittingLiterals(rules, text, literals[..i]);
      if pl.start + ScanWindowLen(rules[pl.ruleIndex].rule.maxMatchLen) <= |text| {
        findings', seen' := ScanRule(rules, text, pl.ruleIndex, pl.start, findings', seen', tried + done, before);
        assert tried + done + {Candidate(pl.ruleIndex, pl.start)} == tried + (done + {Candidate(pl.ruleIndex, pl.start)});
      } else {
        remaining := remaining + [pl];
        assert done + {} == done;
      }
    }
    assert literals[..|literals|] == literals;
  }

  /** Tries the rule of every keyword that ends with byte n, or keeps it if its window is not complete. */
  method FeedHits(rules: seq<CompiledRule>, text: seq<byte>, hits: seq<KeywordHit>, n: nat, literals: seq<PendingLiteral>,
                  findings: seq<Finding>, seen: set<CandidateKey>,
                  ghost tried: set<Candidate>, ghost before: set<CandidateKey>)
    returns (literals': seq<PendingLiteral>, findings': seq<Finding>, seen': set<CandidateKey>)
    requires forall i :: 0 <= i < |hits| ==> hits[i].ruleIndex < |rules| && rules[hits[i].ruleIndex].rule.maxMatchLen > 0
    requires Scanned(rules, text, tried, before, findings, seen)
    ensures forall pl :: pl in literals' <==>
              pl in literals || (Candidate(pl.ruleIndex, pl.start) in HitCandidates(hits, n) && !LiteralFits(rules, text, pl))
    ensures Scanned(rules, text, tried + FittingHits(rules, text, HitCandidates(hits, n)), before, findings', seen')
  {
    hide Scanned, FittingHits, HitCandidates;
    literals', findings', seen' := literals, findings, seen;
    NoHitsYet(rules, text, hits, n);
    assert tried + {} == tried;
    for i := 0 to |hits|
      invariant forall pl :: pl in literals' <==>
                  pl in literals || (Candidate(pl.ruleIndex, pl.start) in HitCandidates(hits[..i], n) && !LiteralFits(rules, text, pl))
      invariant Scanned(rules, text, tried + FittingHits(rules, text, HitCandidates(hits[..i], n)), before, findings', seen')
    {
      var start := n - hits[i].length;
      var pl := PendingLiteral(start, hits[i].ruleIndex);
      FittingHitsStep(rules, text, hits, i, n);
      ghost var done := FittingHits(rules, text, HitCandidates(hits[..i], n));
      if start + ScanWindowLen(rules[hits[i].ruleIndex].rule.maxMatchLen) <= |text| {
        findings', seen' := ScanRule(rules, text, hits[i].ruleIndex, start, findings', seen', tried + done, before);
        assert tried + done + {Candidate(hits[i].ruleIndex, start)} == tried + (done + {Candidate(hits[i].ruleIndex, start)});
      } else {
        literals' := literals' + [pl];
        assert done + {} == done;
      }
    }
    assert hits[..|hits|] == hits;
  }

  ghost function FittingHits(rules: seq<CompiledRule>, text: seq<byte>, cs: set<Candidate>): set<Candidate> {
    set c | c in cs && LiteralFits(rules, text, PendingLiteral(c.start, c.ruleIndex))
  }

  lemma NoHitsYet(rules: seq<CompiledRule>, text: seq<byte>, hits: seq<KeywordHit>, n: nat)
    ensures HitCandidates(hits[..0], n) == {} && FittingHits(rules, text, {}) == {}
  {
  }

  lemma FittingHitsStep(rules: seq<CompiledRule>, text: seq<byte>, hits: seq<KeywordHit>, i: nat, n: nat)
    requires i < |hits|
    ensures var c := Candidate(hits[i].ruleIndex, n - hits[i].length);
            && HitCandidates(hits[..i + 1], n) == HitCandidates(hits[..i], n) + {c}
            && FittingHits(rules, text, HitCandidates(hits[..i + 1], n))
               == FittingHits(rules, text, HitCandidates(hits[..i], n))
                  + (if LiteralFits(rules, text, PendingLiteral(c.start, c.ruleIndex)) then {c} else {})
  {
    HitCandidatesStep(hits, i, n);
    hide HitCandidates;
  }
}
