/** The streaming scanner: chunks in, findings out as soon as they are certain, and a hold-back length. */
module Streaming {
  import opened Bytes
  import opened Sorting
  import opened AhoCorasick
  import opened Rules
  import opened Matching
  import opened Holding
  import opened WaitLists

  // ----- More text for the same position

  lemma NoticedResume(rules: seq<CompiledRule>, prior: seq<byte>, text: seq<byte>, c: Candidate)
    requires prior <= text
    ensures Noticed(rules, text, c, |prior|) <==>
              || Noticed(rules, prior, c, |prior|)
              || (c.ruleIndex < |rules| && rules[c.ruleIndex].rule.prefilter == Iban
                  && IBANDecision(prior, c.start) == Defer && IBANDecision(text, c.start) == Yes)
  {
  }

  /** What has been tried stays tried, with the same keys. */
  lemma Rebase(rules: seq<CompiledRule>, prior: seq<byte>, text: seq<byte>, before: set<CandidateKey>,
               findings: seq<Finding>, seen: set<CandidateKey>)
    requires prior <= text
    requires Scanned(rules, prior, Ready(rules, prior, |prior|), before, findings, seen)
    ensures Scanned(rules, text, Ready(rules, prior, |prior|), before, findings, seen)
  {
    var tried := Ready(rules, prior, |prior|);
    forall c | c in tried ensures KeysAt(rules, prior, c) == KeysAt(rules, text, c) {
      ReadyKeys(rules, prior, text, c);
    }
    assert KeysOf(rules, prior, tried) == KeysOf(rules, text, tried);
  }

  /** The lists as the three drains leave them. */
  ghost predicate Drained(rules: seq<CompiledRule>, text: seq<byte>,
                          cands: seq<PendingCandidate>, literals: seq<PendingLiteral>, deferred: seq<int>,
                          cands': seq<PendingCandidate>, literals': seq<PendingLiteral>, deferred': seq<int>)
  {
    && (forall pc :: pc in cands' <==> (pc in cands || pc in Promoted(text, deferred)) && !Fits(rules, text, pc))
    && (forall pl :: pl in literals' <==> pl in literals && !LiteralFits(rules, text, pl))
    && (forall p :: p in deferred' <==> p in deferred && IBANDecision(text, p) == Defer)
  }

  lemma ResumeLists(rules: seq<CompiledRule>, prior: seq<byte>, text: seq<byte>,
                    cands: seq<PendingCandidate>, literals: seq<PendingLiteral>, deferred: seq<int>,
                    cands': seq<PendingCandidate>, literals': seq<PendingLiteral>, deferred': seq<int>)
    requires prior <= text
    requires WaitingLists(rules, prior, |prior|, cands, literals, deferred)
    requires Drained(rules, text, cands, literals, deferred, cands', literals', deferred')
    ensures WaitingLists(rules, text, |prior|, cands', literals', deferred')
  {
    forall p ensures p < |prior| && IBANDecision(text, p) == Defer <==> p in deferred' {
      DecisionSettles(prior, text, p);
    }
    forall pc: PendingCandidate
      ensures pc in cands' <==> pc.start < |prior| && Starts(pc.kind, text, pc.start) && !Fits(rules, text, pc)
    {
      DecisionSettles(prior, text, pc.start);
      DecisionSettles(text, text, pc.start);
    }
    forall pl: PendingLiteral
      ensures pl in literals' <==>
                && Noticed(rules, text, Candidate(pl.ruleIndex, pl.start), |prior|)
                && rules[pl.ruleIndex].rule.prefilter == Literal && !LiteralFits(rules, text, pl)
    {
      NoticedResume(rules, prior, text, Candidate(pl.ruleIndex, pl.start));
    }
  }

  /** The candidates tried before and by the three drains are those that can be tried now. */
  ghost function DrainedTried(rules: seq<CompiledRule>, prior: seq<byte>, text: seq<byte>,
                              cands: seq<PendingCandidate>, literals: seq<PendingLiteral>, deferred: seq<int>): set<Candidate>
  {
    Ready(rules, prior, |prior|) + Fitting(rules, text, cands) + FittingIn(rules, text, Promoted(text, deferred))
    + FittingLiterals(rules, text, literals)
  }

  lemma ResumeTried(rules: seq<CompiledRule>, prior: seq<byte>, text: seq<byte>,
                    cands: seq<PendingCandidate>, literals: seq<PendingLiteral>, deferred: seq<int>)
    requires prior <= text
    requires WaitingLists(rules, prior, |prior|, cands, literals, deferred)
    ensures DrainedTried(rules, prior, text, cands, literals, deferred) == Ready(rules, text, |prior|)
  {
    var all := DrainedTried(rules, prior, text, cands, literals, deferred);
    forall c: Candidate | c in Ready(rules, text, |prior|) ensures c in all {
      ReadyIsTried(rules, prior, text, cands, literals, deferred, c);
    }
    forall c: Candidate | c in all ensures c in Ready(rules, text, |prior|) {
      TriedIsReady(rules, prior, text, cands, literals, deferred, c);
    }
  }

  lemma ReadyIsTried(rules: seq<CompiledRule>, prior: seq<byte>, text: seq<byte>,
                     cands: seq<PendingCandidate>, literals: seq<PendingLiteral>, deferred: seq<int>, c: Candidate)
    requires prior <= text
    requires WaitingLists(rules, prior, |prior|, cands, literals, deferred)
    requires Noticed(rules, text, c, |prior|) && Needed(rules, c) <= |text|
    ensures c in DrainedTried(rules, prior, text, cands, literals, deferred)
  {
    NoticedResume(rules, prior, text, c);
    var kind := rules[c.ruleIndex].rule.prefilter;
    var pc := PendingCandidate(c.start, kind);
    if c !in Ready(rules, prior, |prior|) {
      if kind == Literal {
        assert PendingLiteral(c.start, c.ruleIndex) in literals;
      } else {
        assert c in OfKind(rules, pc);
        if Noticed(rules, prior, c, |prior|) {
          assert pc in cands;
        } else {
          assert c.start in deferred && pc in Promoted(text, deferred);
        }
      }
    }
  }

  lemma TriedIsReady(rules: seq<CompiledRule>, prior: seq<byte>, text: seq<byte>,
                     cands: seq<PendingCandidate>, literals: seq<PendingLiteral>, deferred: seq<int>, c: Candidate)
    requires prior <= text
    requires WaitingLists(rules, prior, |prior|, cands, literals, deferred)
    requires c in DrainedTried(rules, prior, text, cands, literals, deferred)
    ensures c in Ready(rules, text, |prior|)
  {
    hide Ready, Fitting, FittingIn, FittingLiterals, Promoted, WaitingLists;
    if c in Ready(rules, prior, |prior|) {
      StaysReady(rules, prior, text, c);
    } else if c in Fitting(rules, text, cands) {
      FittingReady(rules, prior, text, cands, literals, deferred, c);
    } else if c in FittingIn(rules, text, Promoted(text, deferred)) {
      PromotedReady(rules, prior, text, cands, literals, deferred, c);
    } else {
      LiteralReady(rules, prior, text, cands, literals, deferred, c);
    }
  }

  /** A candidate tried before. */
  lemma StaysReady(rules: seq<CompiledRule>, prior: seq<byte>, text: seq<byte>, c: Candidate)
    requires prior <= text && c in Ready(rules, prior, |prior|)
    ensures c in Ready(rules, text, |prior|)
  {
    NoticedResume(rules, prior, text, c);
    hide Noticed;
  }

  /** A digit or IBAN start that waited for its window. */
  lemma FittingReady(rules: seq<CompiledRule>, prior: seq<byte>, text: seq<byte>,
                     cands: seq<PendingCandidate>, literals: seq<PendingLiteral>, deferred: seq<int>, c: Candidate)
    requires prior <= text && WaitingLists(rules, prior, |prior|, cands, literals, deferred)
    requires c in Fitting(rules, text, cands)
    ensures c in Ready(rules, text, |prior|)
  {
    NoticedResume(rules, prior, text, c);
    var pc :| pc in cands && Fits(rules, text, pc) && c in OfKind(rules, pc);
    assert Starts(pc.kind, prior, pc.start);
  }

  /** An IBAN start that was put off. */
  lemma PromotedReady(rules: seq<CompiledRule>, prior: seq<byte>, text: seq<byte>,
                      cands: seq<PendingCandidate>, literals: seq<PendingLiteral>, deferred: seq<int>, c: Candidate)
    requires prior <= text && WaitingLists(rules, prior, |prior|, cands, literals, deferred)
    requires c in FittingIn(rules, text, Promoted(text, deferred))
    ensures c in Ready(rules, text, |prior|)
  {
    NoticedResume(rules, prior, text, c);
    var pc :| pc in Promoted(text, deferred) && Fits(rules, text, pc) && c in OfKind(rules, pc);
    assert IBANDecision(prior, pc.start) == Defer;
  }

  /** A keyword that waited for its window. */
  lemma LiteralReady(rules: seq<CompiledRule>, prior: seq<byte>, text: seq<byte>,
                     cands: seq<PendingCandidate>, literals: seq<PendingLiteral>, deferred: seq<int>, c: Candidate)
    requires prior <= text && WaitingLists(rules, prior, |prior|, cands, literals, deferred)
    requires c in FittingLiterals(rules, text, literals)
    ensures c in Ready(rules, text, |prior|)
  {
    NoticedResume(rules, prior, text, c);
    hide IBANDecision;
    var pl :| pl in literals && LiteralFits(rules, text, pl) && c == Candidate(pl.ruleIndex, pl.start);
    assert Noticed(rules, prior, c, |prior|);
  }

  // ----- One more byte of the same text

  ghost function IfStarts(rules: seq<CompiledRule>, text: seq<byte>, n: nat, kind: Prefilter): set<Candidate> {
    var pc := PendingCandidate(n, kind);
    if Starts(kind, text, n) && Fits(rules, text, pc) then OfKind(rules, pc) else {}
  }

  lemma ByteTried(rules: seq<CompiledRule>, text: seq<byte>, n: nat, hits: set<Candidate>)
    requires n < |text|
    requires forall c :: c in hits ==> c.ruleIndex < |rules| && rules[c.ruleIndex].rule.prefilter == Literal
    requires Candidates(rules, text, n + 1)
          == Candidates(rules, text, n) + hits + StartsAt(rules, text, n, Digit) + StartsAt(rules, text, n, Iban)
    ensures Ready(rules, text, n) + FittingHits(rules, text, hits) + IfStarts(rules, text, n, Digit) + IfStarts(rules, text, n, Iban)
         == Ready(rules, text, n + 1)
  {
    hide Candidates;
    forall kind | kind == Digit || kind == Iban
      ensures ReadyIn(rules, text, StartsAt(rules, text, n, kind)) == IfStarts(rules, text, n, kind)
    {
    }
    assert ReadyIn(rules, text, hits) == FittingHits(rules, text, hits);
    hide StartsAt, IfStarts, FittingHits;
  }

  /** The lists as one byte leaves them. */
  ghost predicate Extended(rules: seq<CompiledRule>, text: seq<byte>, n: nat, hits: set<Candidate>,
                           cands: seq<PendingCandidate>, literals: seq<PendingLiteral>, deferred: seq<int>,
                           cands': seq<PendingCandidate>, literals': seq<PendingLiteral>, deferred': seq<int>)
  {
    && (forall pc :: pc in cands' <==>
          pc in cands || (pc.start == n && Starts(pc.kind, text, n) && !Fits(rules, text, pc)))
    && (forall pl :: pl in literals' <==>
          pl in literals || (Candidate(pl.ruleIndex, pl.start) in hits && !LiteralFits(rules, text, pl)))
    && (forall p :: p in deferred' <==> p in deferred || (p == n && IBANDecision(text, n) == Defer))
  }

  lemma ByteLists(rules: seq<CompiledRule>, text: seq<byte>, n: nat, hits: set<Candidate>,
                  cands: seq<PendingCandidate>, literals: seq<PendingLiteral>, deferred: seq<int>,
                  cands': seq<PendingCandidate>, literals': seq<PendingLiteral>, deferred': seq<int>)
    requires n < |text|
    requires forall c :: c in hits ==> c.ruleIndex < |rules| && rules[c.ruleIndex].rule.prefilter == Literal
    requires Candidates(rules, text, n + 1)
          == Candidates(rules, text, n) + hits + StartsAt(rules, text, n, Digit) + StartsAt(rules, text, n, Iban)
    requires WaitingLists(rules, text, n, cands, literals, deferred)
    requires Extended(rules, text, n, hits, cands, literals, deferred, cands', literals', deferred')
    ensures WaitingLists(rules, text, n + 1, cands', literals', deferred')
  {
    var m: nat := n + 1;
    forall pl: PendingLiteral
      ensures pl in literals' <==>
                && Noticed(rules, text, Candidate(pl.ruleIndex, pl.start), m)
                && rules[pl.ruleIndex].rule.prefilter == Literal && !LiteralFits(rules, text, pl)
    {
      var c := Candidate(pl.ruleIndex, pl.start);
      assert c in Candidates(rules, text, m) <==> Noticed(rules, text, c, m);
      assert c in Candidates(rules, text, n) <==> Noticed(rules, text, c, n);
    }
  }

  // ----- The hold-back length

  /** hold is the largest of the automaton's partial match and the distances to the pending starts. */
  ghost predicate LargestHold(kws: seq<Keyword>, text: seq<byte>, cands: seq<PendingCandidate>,
                              literals: seq<PendingLiteral>, hold: int)
  {
    && hold >= |LongestLive(kws, Fold(text))|
    && (forall j :: 0 <= j < |cands| ==> hold >= |text| - cands[j].start)
    && (forall j :: 0 <= j < |literals| ==> hold >= |text| - literals[j].start)
    && (|| hold == |LongestLive(kws, Fold(text))|
        || (exists j :: 0 <= j < |cands| && hold == |text| - cands[j].start)
        || (exists j :: 0 <= j < |literals| && hold == |text| - literals[j].start))
  }

  /** A partial keyword of the automaton is a partial keyword of a rule, and the other way round. */
  lemma GrowIsLive(rules: seq<CompiledRule>, kws: seq<Keyword>, text: seq<byte>, q: nat)
    requires HoldsKeywords(rules, kws) && q < |text|
    ensures CouldGrow(rules, text, q) <==> Live(kws, Fold(text[q..]))
  {
    var p := Fold(text[q..]);
    if CouldGrow(rules, text, q) {
      var i, j :| 0 <= i < |rules| && rules[i].rule.prefilter == Literal && 0 <= j < |rules[i].rule.keywords|
                  && p <= Fold(rules[i].rule.keywords[j]);
      var k := Keyword(Fold(rules[i].rule.keywords[j]), i);
      assert IsKeyword(rules, k) && k in kws;
    }
    if Live(kws, p) {
      var i :| 0 <= i < |kws| && p <= kws[i].word;
      assert kws[i] in kws && IsKeyword(rules, kws[i]);
    }
  }

  lemma PendingInDoubt(rules: seq<CompiledRule>, text: seq<byte>, cands: seq<PendingCandidate>,
                       literals: seq<PendingLiteral>, deferred: seq<int>, q: int)
    requires UsableRules(rules) && WaitingLists(rules, text, |text|, cands, literals, deferred)
    ensures (exists pc :: pc in cands && pc.start == q) || (exists pl :: pl in literals && pl.start == q)
            <==> 0 <= q < |text| && exists i: nat :: Waiting(rules, text, Candidate(i, q))
  {
    if pc :| pc in cands && pc.start == q {
      var i :| 0 <= i < |rules| && rules[i].rule.prefilter == pc.kind;
      assert Waiting(rules, text, Candidate(i, q));
    }
    if pl :| pl in literals && pl.start == q {
      assert Waiting(rules, text, Candidate(pl.ruleIndex, q));
    }
    if 0 <= q < |text| && exists i: nat :: Waiting(rules, text, Candidate(i, q)) {
      var i: nat :| Waiting(rules, text, Candidate(i, q));
      if rules[i].rule.prefilter == Literal {
        assert PendingLiteral(q, i) in literals && PendingLiteral(q, i).start == q;
      } else {
        assert PendingCandidate(q, rules[i].rule.prefilter) in cands && PendingCandidate(q, rules[i].rule.prefilter).start == q;
      }
    }
  }

  /** The hold-back length reaches back exactly to the first position in doubt. */
  lemma HoldIsDoubt(rules: seq<CompiledRule>, kws: seq<Keyword>, text: seq<byte>, cands: seq<PendingCandidate>,
                    literals: seq<PendingLiteral>, deferred: seq<int>, hold: int)
    requires UsableRules(rules) && HoldsKeywords(rules, kws)
    requires WaitingLists(rules, text, |text|, cands, literals, deferred)
    requires LargestHold(kws, text, cands, literals, hold)
    ensures hold == |text| - SafeEnd(rules, text)
  {
    hide Live, HoldsKeywords, UsableRules, WaitingLists, CouldGrow, Waiting;
    forall q: nat | InDoubt(rules, text, q) ensures |text| - q <= hold {
      if CouldGrow(rules, text, q) {
        GrowIsLive(rules, kws, text, q);
        assert IsSuffix(Fold(text[q..]), Fold(text));
        LongestLiveIsLongest(kws, Fold(text), Fold(text[q..]));
      } else {
        PendingInDoubt(rules, text, cands, literals, deferred, q);
      }
    }
    var q := |text| - hold;
    if hold > 0 {
      if hold == |LongestLive(kws, Fold(text))| {
        assert LongestLive(kws, Fold(text)) == Fold(text[q..]);
        GrowIsLive(rules, kws, text, q);
      } else {
        PendingInDoubt(rules, text, cands, literals, deferred, q);
      }
      assert InDoubt(rules, text, q);
    }
  }

  method LargestOf(ghost kws: seq<Keyword>, ghost text: seq<byte>, partial: int, currentEnd: int,
                   cands: seq<PendingCandidate>, literals: seq<PendingLiteral>) returns (hold: int)
    requires currentEnd == |text| && partial == |LongestLive(kws, Fold(text))|
    ensures LargestHold(kws, text, cands, literals, hold)
  {
    hide LongestLive, Fold;
    hold := partial;
    for j := 0 to |cands|
      invariant LargestHold(kws, text, cands[..j], [], hold)
    {
      var uncertain := currentEnd - cands[j].start;
      if uncertain > hold {
        hold := uncertain;
      }
    }
    assert cands[..|cands|] == cands;
    for j := 0 to |literals|
      invariant LargestHold(kws, text, cands, literals[..j], hold)
    {
      var uncertain := currentEnd - literals[j].start;
      if uncertain > hold {
        hold := uncertain;
      }
    }
    assert literals[..|literals|] == literals;
  }

  /** Tries the digit and IBAN candidates that start at n, or keeps them. */
  method FeedStarts(rules: seq<CompiledRule>, digitRules: seq<nat>, ibanRules: seq<nat>, text: seq<byte>, n: nat,
                    cands: seq<PendingCandidate>, deferred: seq<int>, findings: seq<Finding>, seen: set<CandidateKey>,
                    ghost tried: set<Candidate>, ghost before: set<CandidateKey>)
    returns (cands': seq<PendingCandidate>, deferred': seq<int>, findings': seq<Finding>, seen': set<CandidateKey>)
    requires Tables(rules, digitRules, ibanRules) && n < |text|
    requires Scanned(rules, text, tried, before, findings, seen)
    ensures forall pc :: pc in cands' <==>
              pc in cands || (pc.start == n && Starts(pc.kind, text, n) && !Fits(rules, text, pc))
    ensures forall p :: p in deferred' <==> p in deferred || (p == n && IBANDecision(text, n) == Defer)
    ensures Scanned(rules, text, tried + IfStarts(rules, text, n, Digit) + IfStarts(rules, text, n, Iban),
                    before, findings', seen')
  {
    DecisionSettles(text, text, n);
    hide Scanned, Tables, Fits, OfKind, IBANDecision, IsIBANCandidateStart, IsDigitCandidateStart;
    cands', deferred', findings', seen' := cands, deferred, findings, seen;
    ghost var digits := IfStarts(rules, text, n, Digit);
    if IsDigitCandidateStart(text, n) {
      cands', findings', seen' := ProcessDigit(rules, digitRules, ibanRules, text, n, cands', findings', seen', tried, before);
    } else {
      assert tried + {} == tried;
    }
    match IBANDecision(text, n) {
      case Yes =>
        cands', findings', seen' :=
          ProcessIBAN(rules, digitRules, ibanRules, text, n, cands', findings', seen', tried + digits, before);
      case Defer =>
        deferred' := deferred' + [n];
        assert tried + digits + {} == tried + digits;
      case No =>
        assert tried + digits + {} == tried + digits;
    }
  }

  lemma ByteDone(rules: seq<CompiledRule>, kws: seq<Keyword>, text: seq<byte>, n: nat, before: set<CandidateKey>,
                 cands: seq<PendingCandidate>, literals: seq<PendingLiteral>, deferred: seq<int>,
                 cands': seq<PendingCandidate>, literals': seq<PendingLiteral>, deferred': seq<int>,
                 hits: seq<KeywordHit>, findings: seq<Finding>, seen: set<CandidateKey>)
    requires UsableRules(rules) && HoldsKeywords(rules, kws) && NonEmptyWords(kws) && n < |text|
    requires hits == OutAt(kws, LongestLive(kws, Fold(text[..n + 1])))
    requires WaitingLists(rules, text, n, cands, literals, deferred)
    requires Extended(rules, text, n, HitCandidates(hits, n + 1), cands, literals, deferred, cands', literals', deferred')
    requires Scanned(rules, text,
                     Ready(rules, text, n) + FittingHits(rules, text, HitCandidates(hits, n + 1))
                     + IfStarts(rules, text, n, Digit) + IfStarts(rules, text, n, Iban), before, findings, seen)
    ensures WaitingLists(rules, text, n + 1, cands', literals', deferred')
    ensures Scanned(rules, text, Ready(rules, text, n + 1), before, findings, seen)
  {
    hide OutAt, LongestLive, HoldsKeywords, NonEmptyWords, UsableRules, Scanned, Candidates, WaitingLists, Extended,
         StartsAt, IfStarts, FittingHits, Ready;
    NextByte(rules, kws, text, n);
    HitRulesExist(rules, kws, text, n + 1);
    ByteLists(rules, text, n, HitCandidates(hits, n + 1), cands, literals, deferred, cands', literals', deferred');
    ByteTried(rules, text, n, HitCandidates(hits, n + 1));
  }

  lemma ListsExtended(rules: seq<CompiledRule>, text: seq<byte>, n: nat, hits: set<Candidate>,
                      cands: seq<PendingCandidate>, literals: seq<PendingLiteral>, deferred: seq<int>,
                      cands': seq<PendingCandidate>, literals': seq<PendingLiteral>, deferred': seq<int>)
    requires forall pc :: pc in cands' <==>
               pc in cands || (pc.start == n && Starts(pc.kind, text, n) && !Fits(rules, text, pc))
    requires forall pl :: pl in literals' <==>
               pl in literals || (Candidate(pl.ruleIndex, pl.start) in hits && !LiteralFits(rules, text, pl))
    requires forall p :: p in deferred' <==> p in deferred || (p == n && IBANDecision(text, n) == Defer)
    ensures Extended(rules, text, n, hits, cands, literals, deferred, cands', literals', deferred')
  {
  }

  lemma ListsDrained(rules: seq<CompiledRule>, text: seq<byte>,
                     cands: seq<PendingCandidate>, literals: seq<PendingLiteral>, deferred: seq<int>, cands1: seq<PendingCandidate>,
                     cands': seq<PendingCandidate>, literals': seq<PendingLiteral>, deferred': seq<int>)
    requires forall pc :: pc in cands1 <==> pc in cands && !Fits(rules, text, pc)
    requires forall pc :: pc in cands' <==> pc in cands1 || (pc in Promoted(text, deferred) && !Fits(rules, text, pc))
    requires forall pl :: pl in literals' <==> pl in literals && !LiteralFits(rules, text, pl)
    requires forall p :: p in deferred' <==> p in deferred && IBANDecision(text, p) == Defer
    ensures Drained(rules, text, cands, literals, deferred, cands', literals', deferred')
  {
  }

  lemma ListsKinds(rules: seq<CompiledRule>, text: seq<byte>,
                   cands: seq<PendingCandidate>, literals: seq<PendingLiteral>, deferred: seq<int>)
    requires WaitingLists(rules, text, |text|, cands, literals, deferred)
    ensures forall j :: 0 <= j < |cands| ==> cands[j].kind == Digit || cands[j].kind == Iban
    ensures forall j :: 0 <= j < |literals| ==> literals[j].ruleIndex < |rules|
  {
  }

  lemma DrainDone(rules: seq<CompiledRule>, prior: seq<byte>, text: seq<byte>, before: set<CandidateKey>,
                  cands: seq<PendingCandidate>, literals: seq<PendingLiteral>, deferred: seq<int>,
                  cands': seq<PendingCandidate>, literals': seq<PendingLiteral>, deferred': seq<int>,
                  findings: seq<Finding>, seen: set<CandidateKey>)
    requires prior <= text
    requires WaitingLists(rules, prior, |prior|, cands, literals, deferred)
    requires Drained(rules, text, cands, literals, deferred, cands', literals', deferred')
    requires Scanned(rules, text,
                     Ready(rules, prior, |prior|) + Fitting(rules, text, cands)
                     + FittingIn(rules, text, Promoted(text, deferred)) + FittingLiterals(rules, text, literals),
                     before, findings, seen)
    ensures WaitingLists(rules, text, |prior|, cands', literals', deferred')
    ensures Scanned(rules, text, Ready(rules, text, |prior|), before, findings, seen)
  {
    hide Scanned, WaitingLists, Drained, Ready, Fitting, FittingIn, FittingLiterals;
    ResumeLists(rules, prior, text, cands, literals, deferred, cands', literals', deferred');
    ResumeTried(rules, prior, text, cands, literals, deferred);
  }

  // ----- The end of the stream

  ghost function LiteralCandidates(literals: seq<PendingLiteral>): set<Candidate> {
    set pl | pl in literals :: Candidate(pl.ruleIndex, pl.start)
  }

  ghost function KindCandidates(rules: seq<CompiledRule>, cands: seq<PendingCandidate>): set<Candidate> {
    set pc, c | pc in cands && c in OfKind(rules, pc) :: c
  }

  method PromoteDeferred(text: seq<byte>, deferred: seq<int>, cands: seq<PendingCandidate>)
    returns (cands': seq<PendingCandidate>)
    requires forall j :: 0 <= j < |cands| ==> cands[j].kind == Digit || cands[j].kind == Iban
    ensures forall j :: 0 <= j < |cands'| ==> cands'[j].kind == Digit || cands'[j].kind == Iban
    ensures forall pc :: pc in cands' <==> pc in cands || pc in Promoted(text, deferred)
  {
    hide IBANDecision;
    cands' := cands;
    for i := 0 to |deferred|
      invariant forall j :: 0 <= j < |cands'| ==> cands'[j].kind == Digit || cands'[j].kind == Iban
      invariant forall pc :: pc in cands' <==> pc in cands || pc in Promoted(text, deferred[..i])
    {
      assert deferred[..i + 1] == deferred[..i] + [deferred[i]];
      if IBANDecision(text, deferred[i]) == Yes {
        cands' := cands' + [PendingCandidate(deferred[i], Iban)];
      }
    }
    assert deferred[..|deferred|] == deferred;
  }

  method FinalLiterals(rules: seq<CompiledRule>, text: seq<byte>, literals: seq<PendingLiteral>,
                       findings: seq<Finding>, seen: set<CandidateKey>,
                       ghost tried: set<Candidate>, ghost before: set<CandidateKey>)
    returns (findings': seq<Finding>, seen': set<CandidateKey>)
    requires UsableRules(rules)
    requires forall j :: 0 <= j < |literals| ==> literals[j].ruleIndex < |rules|
    requires Scanned(rules, text, tried, before, findings, seen)
    ensures Scanned(rules, text, tried + LiteralCandidates(literals), before, findings', seen')
  {
    hide Scanned;
    findings', seen' := findings, seen;
    assert tried + LiteralCandidates(literals[..0]) == tried;
    for i := 0 to |literals|
      invariant Scanned(rules, text, tried + LiteralCandidates(literals[..i]), before, findings', seen')
    {
      var pl := literals[i];
      assert literals[..i + 1] == literals[..i] + [pl];
      ghost var done := tried + LiteralCandidates(literals[..i]);
      assert done + {Candidate(pl.ruleIndex, pl.start)} == tried + LiteralCandidates(literals[..i + 1]);
      findings', seen' := ScanRule(rules, text, pl.ruleIndex, pl.start, findings', seen', done, before);
    }
    assert literals[..|literals|] == literals;
  }

  method FinalCandidates(rules: seq<CompiledRule>, digitRules: seq<nat>, ibanRules: seq<nat>, text: seq<byte>,
                         cands: seq<PendingCandidate>, findings: seq<Finding>, seen: set<CandidateKey>,
                         ghost tried: set<Candidate>, ghost before: set<CandidateKey>)
    returns (findings': seq<Finding>, seen': set<CandidateKey>)
    requires Tables(rules, digitRules, ibanRules)
    requires forall j :: 0 <= j < |cands| ==> cands[j].kind == Digit || cands[j].kind == Iban
    requires Scanned(rules, text, tried, before, findings, seen)
    ensures Scanned(rules, text, tried + KindCandidates(rules, cands), before, findings', seen')
  {
    hide Scanned, Tables, OfKind;
    findings', seen' := findings, seen;
    assert tried + KindCandidates(rules, cands[..0]) == tried;
    for i := 0 to |cands|
      invariant Scanned(rules, text, tried + KindCandidates(rules, cands[..i]), before, findings', seen')
    {
      assert cands[..i + 1] == cands[..i] + [cands[i]];
      ghost var done := tried + KindCandidates(rules, cands[..i]);
      assert done + OfKind(rules, cands[i]) == tried + KindCandidates(rules, cands[..i + 1]);
      findings', seen' := ScanKind(rules, digitRules, ibanRules, text, cands[i], findings', seen', done, before);
    }
    assert cands[..|cands|] == cands;
  }

  /** After the last drain every candidate of the text has been tried. */
  lemma FinalTried(rules: seq<CompiledRule>, text: seq<byte>, cands: seq<PendingCandidate>,
                   literals: seq<PendingLiteral>, deferred: seq<int>, cands': seq<PendingCandidate>)
    requires UsableRules(rules)
    requires WaitingLists(rules, text, |text|, cands, literals, deferred)
    requires forall pc :: pc in cands' <==> pc in cands || pc in Promoted(text, deferred)
    ensures Ready(rules, text, |text|) + LiteralCandidates(literals) + KindCandidates(rules, cands')
         == Candidates(rules, text, |text|)
  {
    var all := Ready(rules, text, |text|) + LiteralCandidates(literals) + KindCandidates(rules, cands');
    forall c: Candidate | Noticed(rules, text, c, |text|) ensures c in all {
      var kind := rules[c.ruleIndex].rule.prefilter;
      if c !in Ready(rules, text, |text|) {
        if kind == Literal {
          assert PendingLiteral(c.start, c.ruleIndex) in literals;
        } else {
          assert PendingCandidate(c.start, kind) in cands && c in OfKind(rules, PendingCandidate(c.start, kind));
        }
      }
    }
  }

  lemma FinalDone(rules: seq<CompiledRule>, text: seq<byte>, before: set<CandidateKey>, findings: seq<Finding>, seen: set<CandidateKey>)
    requires Scanned(rules, text, Candidates(rules, text, |text|), before, findings, seen)
    ensures seen == AllKeys(rules, text)
    ensures multiset(findings) + Bag(rules, before) == Bag(rules, seen)
  {
  }

  class StreamScan {
    const m: Matcher
    var state: nat
    var absoluteOffset: nat
    var pendingCandidates: seq<PendingCandidate>
    var pendingLiteral: seq<PendingLiteral>
    var deferredIBANStarts: seq<int>
    var seen: set<CandidateKey>
    /** All bytes fed so far. */
    ghost var fed: seq<byte>

    /** The stream holds `text` and has read its first n bytes; `findings` were reported since seen was `before`. */
    ghost predicate Reading(text: seq<byte>, n: nat, before: set<CandidateKey>, findings: seq<Finding>)
      reads this`state, this`pendingCandidates, this`pendingLiteral, this`deferredIBANStarts, this`seen, m.automaton
    {
      && m.Valid() && n <= |text|
      && m.automaton.At(state, Fold(text[..n]))
      && WaitingLists(m.rules, text, n, pendingCandidates, pendingLiteral, deferredIBANStarts)
      && Scanned(m.rules, text, Ready(m.rules, text, n), before, findings, seen)
    }

    /** Every field is determined by the bytes fed so far: how they were split into chunks leaves no trace. */
    ghost predicate Valid()
      reads this, m.automaton
    {
      absoluteOffset == |fed| && Reading(fed, |fed|, seen, [])
    }

    constructor (m: Matcher)
      requires m.Valid()
      ensures Valid() && this.m == m && fed == [] && seen == {}
    {
      hide *;
      this.m := m;
      state, absoluteOffset, pendingCandidates, pendingLiteral, deferredIBANStarts, seen := 0, 0, [], [], [], {};
      fed := [];
      new;
      NothingFed();
    }

    lemma NothingFed()
      requires m.Valid() && fed == [] && state == 0 && absoluteOffset == 0 && seen == {}
      requires pendingCandidates == [] && pendingLiteral == [] && deferredIBANStarts == []
      ensures Valid()
    {
      m.StartState();
      NothingScanned(m.rules, []);
      assert Ready(m.rules, [], 0) == Candidates(m.rules, [], 0);
    }

    /** The number of trailing bytes whose fate is still open. */
    method HoldLen(currentEnd: nat) returns (hold: int)
      requires Valid() && currentEnd == |fed|
      ensures hold == |fed| - SafeEnd(m.rules, fed)
    {
      hide *;
      AtEnd();
      var partial := m.automaton.PartialMatchLen(state, Fold(fed));
      hold := LargestOf(m.automaton.keywords, fed, partial, currentEnd, pendingCandidates, pendingLiteral);
      HoldFound(hold);
    }

    lemma AtEnd()
      requires Valid()
      ensures m.automaton.Built() && m.automaton.At(state, Fold(fed))
    {
      assert fed[..|fed|] == fed;
    }

    lemma HoldFound(hold: int)
      requires Valid() && LargestHold(m.automaton.keywords, fed, pendingCandidates, pendingLiteral, hold)
      ensures hold == |fed| - SafeEnd(m.rules, fed)
    {
      hide Scanned, LargestHold, Trie, Linked;
      HoldIsDoubt(m.rules, m.automaton.keywords, fed, pendingCandidates, pendingLiteral, deferredIBANStarts, hold);
    }

    lemma Opened(text: seq<byte>, n: nat, before: set<CandidateKey>, findings: seq<Finding>)
      requires Reading(text, n, before, findings)
      ensures n <= |text| && m.Valid() && m.automaton.Built() && m.automaton.At(state, Fold(text[..n]))
      ensures Tables(m.rules, m.digitRules, m.ibanRules) && UsableRules(m.rules)
      ensures HoldsKeywords(m.rules, m.automaton.keywords) && NonEmptyWords(m.automaton.keywords)
      ensures WaitingLists(m.rules, text, n, pendingCandidates, pendingLiteral, deferredIBANStarts)
      ensures Scanned(m.rules, text, Ready(m.rules, text, n), before, findings, seen)
      ensures n < |text| ==> Fold(text[..n + 1]) == Fold(text[..n]) + [LowerASCII(text[n])]
    {
      hide Scanned, WaitingLists, Trie, Linked;
      if n < |text| { FoldStep(text, n); }
    }

    lemma Close(text: seq<byte>, n: nat, before: set<CandidateKey>, findings: seq<Finding>)
      requires m.Valid() && n <= |text|
      requires m.automaton.At(state, Fold(text[..n]))
      requires WaitingLists(m.rules, text, n, pendingCandidates, pendingLiteral, deferredIBANStarts)
      requires Scanned(m.rules, text, Ready(m.rules, text, n), before, findings, seen)
      ensures Reading(text, n, before, findings)
    {
    }

    /** Reads the byte at n. */
    method FeedByte(text: seq<byte>, n: nat, b: byte, findings: seq<Finding>, ghost before: set<CandidateKey>)
      returns (findings': seq<Finding>)
      requires n < |text| && b == text[n] && Reading(text, n, before, findings)
      modifies this`state, this`pendingCandidates, this`pendingLiteral, this`deferredIBANStarts, this`seen
      ensures Reading(text, n + 1, before, findings')
    {
      hide *;
      Opened(text, n, before, findings);
      ghost var tried := Ready(m.rules, text, n);
      ghost var literals, cands, deferred := pendingLiteral, pendingCandidates, deferredIBANStarts;
      state := m.automaton.Step(state, LowerASCII(b), Fold(text[..n]));
      var hits := m.automaton.Hits(state, Fold(text[..n + 1]));
      NextByte(m.rules, m.automaton.keywords, text, n);
      pendingLiteral, findings', seen :=
        FeedHits(m.rules, text, hits, n + 1, pendingLiteral, findings, seen, tried, before);
      pendingCandidates, deferredIBANStarts, findings', seen :=
        FeedStarts(m.rules, m.digitRules, m.ibanRules, text, n, pendingCandidates, deferredIBANStarts, findings', seen,
                   tried + FittingHits(m.rules, text, HitCandidates(hits, n + 1)), before);
      ListsExtended(m.rules, text, n, HitCandidates(hits, n + 1), cands, literals, deferred,
                    pendingCandidates, pendingLiteral, deferredIBANStarts);
      ByteDone(m.rules, m.automaton.keywords, text, n, before, cands, literals, deferred,
               pendingCandidates, pendingLiteral, deferredIBANStarts, hits, findings', seen);
      Close(text, n + 1, before, findings');
    }

    /** Looks again at everything that was waiting, now that more of the stream is known. */
    method Drain(text: seq<byte>) returns (findings: seq<Finding>)
      requires Valid() && fed <= text
      modifies this`pendingCandidates, this`pendingLiteral, this`deferredIBANStarts, this`seen
      ensures Reading(text, |fed|, old(seen), findings)
    {
      hide *;
      ValidReads();
      Opened(fed, |fed|, seen, []);
      ghost var before, tried := seen, Ready(m.rules, fed, |fed|);
      ghost var literals, cands, deferred := pendingLiteral, pendingCandidates, deferredIBANStarts;
      Rebase(m.rules, fed, text, before, [], seen);
      ListsKinds(m.rules, fed, pendingCandidates, pendingLiteral, deferredIBANStarts);
      pendingCandidates, findings, seen :=
        DrainCandidates(m.rules, m.digitRules, m.ibanRules, text, pendingCandidates, [], seen, tried, before);
      tried := tried + Fitting(m.rules, text, cands);
      ghost var cands1 := pendingCandidates;
      deferredIBANStarts, pendingCandidates, findings, seen :=
        DrainDeferred(m.rules, m.digitRules, m.ibanRules, text, deferredIBANStarts, pendingCandidates, findings, seen, tried, before);
      tried := tried + FittingIn(m.rules, text, Promoted(text, deferred));
      pendingLiteral, findings, seen :=
        DrainLiterals(m.rules, text, pendingLiteral, findings, seen, tried, before);
      ListsDrained(m.rules, text, cands, literals, deferred, cands1, pendingCandidates, pendingLiteral, deferredIBANStarts);
      DrainDone(m.rules, fed, text, before, cands, literals, deferred,
                pendingCandidates, pendingLiteral, deferredIBANStarts, findings, seen);
      assert text[..|fed|] == fed;
      Close(text, |fed|, before, findings);
    }

    lemma ValidReads()
      requires Valid()
      ensures Reading(fed, |fed|, seen, []) && fed[..|fed|] == fed && absoluteOffset == |fed| && m.Valid()
    {
    }

    /** Feeds one chunk; `reassembled` is everything fed so far including it. Reports what became certain, sorted,
        and how many bytes at the end have to be held back. A chunk whose bytes are not all in `reassembled` is ignored. */
    method Feed(chunk: seq<byte>, reassembled: seq<byte>) returns (findings: seq<Finding>, holdLen: int)
      requires Valid() && (0 < |chunk| && |fed| + |chunk| <= |reassembled| ==> reassembled == fed + chunk)
      modifies this
      ensures Valid() && SortedBy(findings, Before)
      ensures multiset(findings) + Bag(m.rules, old(seen)) == Bag(m.rules, seen)
      ensures if 0 < |chunk| && |reassembled| < old(|fed|) + |chunk| then unchanged(this) && findings == [] && holdLen == 0
              else fed == old(fed) + chunk && holdLen == |fed| - SafeEnd(m.rules, fed)
    {
      hide *;
      findings := [];
      if |chunk| == 0 {
        ValidReads();
        NothingNew();
        assert fed + chunk == fed;
        holdLen := HoldLen(absoluteOffset);
        return;
      }
      ValidReads();
      if |reassembled| < absoluteOffset + |chunk| {
        NothingNew();
        holdLen := 0;
        return;
      }
      var chunkStart := absoluteOffset;
      var chunkEnd := chunkStart + |chunk|;
      ghost var before := seen;
      findings := Drain(reassembled);
      for i := 0 to |chunk|
        modifies this`state, this`pendingCandidates, this`pendingLiteral, this`deferredIBANStarts, this`seen
        invariant Reading(reassembled, chunkStart + i, before, findings)
      {
        findings := FeedByte(reassembled, chunkStart + i, chunk[i], findings, before);
      }
      absoluteOffset := chunkEnd;
      fed := reassembled;
      ChunkDone(before, findings);
      findings := SortFindings(findings);
      holdLen := HoldLen(chunkEnd);
    }

    lemma NothingNew()
      ensures SortedBy([], Before) && multiset([]) + Bag(m.rules, seen) == Bag(m.rules, seen)
    {
    }

    lemma ChunkDone(before: set<CandidateKey>, findings: seq<Finding>)
      requires Reading(fed, |fed|, before, findings) && absoluteOffset == |fed|
      ensures Valid() && multiset(findings) + Bag(m.rules, before) == Bag(m.rules, seen)
    {
    }

    /** Ends the stream: tries everything that is still waiting against the text as it is. */
    method Finalize(reassembled: seq<byte>) returns (findings: seq<Finding>)
      requires Valid() && reassembled == fed
      modifies this`pendingCandidates, this`pendingLiteral, this`deferredIBANStarts, this`seen
      ensures SortedBy(findings, Before)
      ensures seen == AllKeys(m.rules, fed)
      ensures multiset(findings) + Bag(m.rules, old(seen)) == Bag(m.rules, seen)
    {
      hide *;
      ValidReads();
      Opened(fed, |fed|, seen, []);
      ListsKinds(m.rules, fed, pendingCandidates, pendingLiteral, deferredIBANStarts);
      ghost var before, tried := seen, Ready(m.rules, fed, |fed|);
      ghost var literals, cands, deferred := pendingLiteral, pendingCandidates, deferredIBANStarts;
      pendingCandidates := PromoteDeferred(reassembled, deferredIBANStarts, pendingCandidates);
      deferredIBANStarts := [];
      findings, seen := FinalLiterals(m.rules, reassembled, pendingLiteral, [], seen, tried, before);
      pendingLiteral := [];
      findings, seen := FinalCandidates(m.rules, m.digitRules, m.ibanRules, reassembled, pendingCandidates, findings, seen,
                                        tried + LiteralCandidates(literals), before);
      FinalTried(m.rules, fed, cands, literals, deferred, pendingCandidates);
      pendingCandidates := [];
      FinalDone(m.rules, fed, before, findings, seen);
      findings := SortFindings(findings);
    }
  }
}
