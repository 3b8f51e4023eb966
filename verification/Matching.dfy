/** The batch scanner: rule compilation and Find. */
module Matching {
  import opened Bytes
  import opened Sorting
  import opened AhoCorasick
  import opened Rules
  import opened Noticing

  // ----- Bookkeeping shared by the batch and the streaming scanner

  /** seen holds the keys of the candidates tried, and findings what was reported since seen was `before`. */
  ghost predicate Scanned(rules: seq<CompiledRule>, text: seq<byte>, tried: set<Candidate>,
                          before: set<CandidateKey>, findings: seq<Finding>, seen: set<CandidateKey>)
  {
    && seen == KeysOf(rules, text, tried)
    && multiset(findings) + Bag(rules, before) == Bag(rules, seen)
  }

  lemma NothingScanned(rules: seq<CompiledRule>, text: seq<byte>)
    ensures Scanned(rules, text, Candidates(rules, text, 0), {}, [], {})
  {
  }

  lemma AllScanned(rules: seq<CompiledRule>, text: seq<byte>, findings: seq<Finding>, seen: set<CandidateKey>)
    requires Scanned(rules, text, Candidates(rules, text, |text|), {}, findings, seen)
    ensures multiset(findings) == Bag(rules, AllKeys(rules, text))
  {
  }

  lemma KeysOfAdd(rules: seq<CompiledRule>, text: seq<byte>, cs: set<Candidate>, c: Candidate)
    ensures KeysOf(rules, text, cs + {c}) == KeysOf(rules, text, cs) + KeysAt(rules, text, c)
  {
  }

  ghost function WithIndexes(indexes: seq<nat>, start: int): set<Candidate> {
    set i | i in indexes :: Candidate(i, start)
  }

  lemma WithIndexesStep(indexes: seq<nat>, i: nat, start: int)
    requires i < |indexes|
    ensures WithIndexes(indexes[..i + 1], start) == WithIndexes(indexes[..i], start) + {Candidate(indexes[i], start)}
  {
    assert indexes[..i + 1] == indexes[..i] + [indexes[i]];
  }

  method ScanRule(rules: seq<CompiledRule>, text: seq<byte>, ruleIndex: nat, start: int,
                  findings: seq<Finding>, seen: set<CandidateKey>,
                  ghost tried: set<Candidate>, ghost before: set<CandidateKey>)
    returns (findings': seq<Finding>, seen': set<CandidateKey>)
    requires ruleIndex < |rules| && rules[ruleIndex].rule.maxMatchLen > 0
    requires Scanned(rules, text, tried, before, findings, seen)
    ensures Scanned(rules, text, tried + {Candidate(ruleIndex, start)}, before, findings', seen')
  {
    findings', seen' := findings, seen;
    KeysOfAdd(rules, text, tried, Candidate(ruleIndex, start));
    var span := MatchSpan(rules[ruleIndex], text, start);
    if span.None? {
      return;
    }
    var key := CandidateKey(ruleIndex, span.value.0, span.value.1);
    if key in seen {
      return;
    }
    BagAdd(rules, seen, key);
    seen' := seen + {key};
    findings' := findings + [FindingOf(rules, key)];
  }

  method ScanRules(rules: seq<CompiledRule>, text: seq<byte>, indexes: seq<nat>, start: int,
                   findings: seq<Finding>, seen: set<CandidateKey>,
                   ghost tried: set<Candidate>, ghost before: set<CandidateKey>)
    returns (findings': seq<Finding>, seen': set<CandidateKey>)
    requires forall j :: 0 <= j < |indexes| ==> indexes[j] < |rules| && rules[indexes[j]].rule.maxMatchLen > 0
    requires Scanned(rules, text, tried, before, findings, seen)
    ensures Scanned(rules, text, tried + WithIndexes(indexes, start), before, findings', seen')
  {
    hide Scanned;
    findings', seen' := findings, seen;
    assert tried + WithIndexes(indexes[..0], start) == tried;
    for i := 0 to |indexes|
      invariant Scanned(rules, text, tried + WithIndexes(indexes[..i], start), before, findings', seen')
    {
      WithIndexesStep(indexes, i, start);
      findings', seen' := ScanRule(rules, text, indexes[i], start, findings', seen',
                                   tried + WithIndexes(indexes[..i], start), before);
      assert tried + WithIndexes(indexes[..i], start) + {Candidate(indexes[i], start)}
          == tried + WithIndexes(indexes[..i + 1], start);
    }
    assert indexes[..|indexes|] == indexes;
  }

  /** Tries the rule of every keyword that ends with byte n. */
  method ScanHits(rules: seq<CompiledRule>, text: seq<byte>, hits: seq<KeywordHit>, n: nat,
                  findings: seq<Finding>, seen: set<CandidateKey>,
                  ghost tried: set<Candidate>, ghost before: set<CandidateKey>)
    returns (findings': seq<Finding>, seen': set<CandidateKey>)
    requires forall i :: 0 <= i < |hits| ==> hits[i].ruleIndex < |rules| && rules[hits[i].ruleIndex].rule.maxMatchLen > 0
    requires Scanned(rules, text, tried, before, findings, seen)
    ensures Scanned(rules, text, tried + HitCandidates(hits, n), before, findings', seen')
  {
    hide Scanned;
    findings', seen' := findings, seen;
    assert tried + HitCandidates(hits[..0], n) == tried;
    for i := 0 to |hits|
      invariant Scanned(rules, text, tried + HitCandidates(hits[..i], n), before, findings', seen')
    {
      var c := Candidate(hits[i].ruleIndex, n - hits[i].length);
      findings', seen' := ScanRule(rules, text, hits[i].ruleIndex, n - hits[i].length, findings', seen',
                                   tried + HitCandidates(hits[..i], n), before);
      HitCandidatesStep(hits, i, n);
      assert tried + HitCandidates(hits[..i], n) + {c} == tried + HitCandidates(hits[..i + 1], n);
    }
    assert hits[..|hits|] == hits;
  }

  method SortFindings(findings: seq<Finding>) returns (sorted: seq<Finding>)
    ensures SortedBy(sorted, Before) && Ascending(sorted) && multiset(sorted) == multiset(findings)
  {
    BeforeIsComparison();
    sorted := Sort(findings, Before);
    SortedAscends(sorted);
  }

  // ----- What the automaton notices

  ghost predicate IsKeyword(rules: seq<CompiledRule>, k: Keyword) {
    && k.ruleIndex < |rules| && k.word != []
    && rules[k.ruleIndex].rule.prefilter == Literal
    && exists j :: 0 <= j < |rules[k.ruleIndex].rule.keywords| && Fold(rules[k.ruleIndex].rule.keywords[j]) == k.word
  }

  /** The automaton holds exactly the folded non-empty keywords of the literal rules. */
  ghost predicate HoldsKeywords(rules: seq<CompiledRule>, kws: seq<Keyword>) {
    forall k :: k in kws <==> IsKeyword(rules, k)
  }

  ghost function HitCandidates(hits: seq<KeywordHit>, n: int): set<Candidate> {
    set h | h in hits :: Candidate(h.ruleIndex, n - h.length)
  }

  /** The keyword candidates noticed with byte n are those of the automaton's hits. */
  lemma HitsAreCandidates(rules: seq<CompiledRule>, kws: seq<Keyword>, text: seq<byte>, n: nat, h: KeywordHit)
    requires HoldsKeywords(rules, kws) && NonEmptyWords(kws) && n <= |text|
    requires h in OutAt(kws, LongestLive(kws, Fold(text[..n])))
    ensures h.ruleIndex < |rules| && rules[h.ruleIndex].rule.prefilter == Literal && h.length <= n
    ensures Noticed(rules, text, Candidate(h.ruleIndex, n - h.length), n)
  {
    hide OutAt, LongestLive, Live;
    OutExact(kws, Fold(text[..n]), h);
    var i :| 0 <= i < |kws| && IsSuffix(kws[i].word, Fold(text[..n])) && h == KeywordHit(kws[i].ruleIndex, |kws[i].word|);
    assert kws[i] in kws && IsKeyword(rules, kws[i]);
    KeywordOccurs(rules, kws[i], text, n);
  }

  lemma KeywordOccurs(rules: seq<CompiledRule>, k: Keyword, text: seq<byte>, n: nat)
    requires IsKeyword(rules, k) && n <= |text| && IsSuffix(k.word, Fold(text[..n]))
    ensures Noticed(rules, text, Candidate(k.ruleIndex, n - |k.word|), n)
  {
  }

  lemma HitRulesExist(rules: seq<CompiledRule>, kws: seq<Keyword>, text: seq<byte>, n: nat)
    requires HoldsKeywords(rules, kws) && NonEmptyWords(kws) && n <= |text|
    ensures var hits := OutAt(kws, LongestLive(kws, Fold(text[..n])));
            forall i :: 0 <= i < |hits| ==>
              hits[i].ruleIndex < |rules| && rules[hits[i].ruleIndex].rule.prefilter == Literal
  {
    hide OutAt, LongestLive, Live, HoldsKeywords;
    var hits := OutAt(kws, LongestLive(kws, Fold(text[..n])));
    forall i | 0 <= i < |hits|
      ensures hits[i].ruleIndex < |rules| && rules[hits[i].ruleIndex].rule.prefilter == Literal
    {
      HitsAreCandidates(rules, kws, text, n, hits[i]);
    }
  }

  lemma HitCandidatesStep(hits: seq<KeywordHit>, i: nat, n: int)
    requires i < |hits|
    ensures HitCandidates(hits[..i + 1], n)
         == HitCandidates(hits[..i], n) + {Candidate(hits[i].ruleIndex, n - hits[i].length)}
  {
    assert hits[..i + 1] == hits[..i] + [hits[i]];
  }

  lemma CandidatesAreHits(rules: seq<CompiledRule>, kws: seq<Keyword>, text: seq<byte>, n: nat, c: Candidate)
    requires HoldsKeywords(rules, kws) && NonEmptyWords(kws) && n < |text|
    requires Noticed(rules, text, c, n + 1) && rules[c.ruleIndex].rule.prefilter == Literal
    requires !Noticed(rules, text, c, n)
    ensures c in HitCandidates(OutAt(kws, LongestLive(kws, Fold(text[..n + 1]))), n + 1)
  {
    hide OutAt, LongestLive, Live;
    var keywords := rules[c.ruleIndex].rule.keywords;
    var folded := Fold(text[..n + 1]);
    var j :| 0 <= j < |keywords| && OccursAt(keywords[j], text, c.start, n + 1);
    assert !OccursAt(keywords[j], text, c.start, n);
    assert c.start + |keywords[j]| == n + 1;
    var k := Keyword(Fold(keywords[j]), c.ruleIndex);
    assert IsKeyword(rules, k);
    var i :| 0 <= i < |kws| && kws[i] == k;
    assert Fold(text[c.start..n + 1]) == folded[c.start..];
    assert IsSuffix(k.word, folded);
    OutExact(kws, folded, KeywordHit(c.ruleIndex, |k.word|));
    assert KeywordHit(c.ruleIndex, |k.word|) in OutAt(kws, LongestLive(kws, folded));
  }

  ghost function StartsAt(rules: seq<CompiledRule>, text: seq<byte>, pos: nat, kind: Prefilter): set<Candidate>
    requires pos < |text|
  {
    if (kind == Digit && IsDigitCandidateStart(text, pos)) || (kind == Iban && IsIBANCandidateStart(text, pos))
    then set i | 0 <= i < |rules| && rules[i].rule.prefilter == kind :: Candidate(i, pos)
    else {}
  }

  /** Reading one more byte notices the automaton's hits and the starts at that byte, and nothing else. */
  lemma CandidatesStep(rules: seq<CompiledRule>, kws: seq<Keyword>, text: seq<byte>, n: nat)
    requires HoldsKeywords(rules, kws) && NonEmptyWords(kws) && n < |text|
    ensures Candidates(rules, text, n + 1)
         == Candidates(rules, text, n)
            + HitCandidates(OutAt(kws, LongestLive(kws, Fold(text[..n + 1]))), n + 1)
            + StartsAt(rules, text, n, Digit) + StartsAt(rules, text, n, Iban)
  {
    hide OutAt, LongestLive, Live;
    var m := n + 1;
    var hits := OutAt(kws, LongestLive(kws, Fold(text[..m])));
    forall ri: nat, start | Noticed(rules, text, Candidate(ri, start), m)
      ensures Candidate(ri, start) in Candidates(rules, text, n) + HitCandidates(hits, m)
                                      + StartsAt(rules, text, n, Digit) + StartsAt(rules, text, n, Iban)
    {
      if rules[ri].rule.prefilter == Literal && !Noticed(rules, text, Candidate(ri, start), n) {
        CandidatesAreHits(rules, kws, text, n, Candidate(ri, start));
      }
    }
    forall h | h in hits ensures Candidate(h.ruleIndex, m - h.length) in Candidates(rules, text, m) {
      HitsAreCandidates(rules, kws, text, m, h);
    }
    forall c | c in Candidates(rules, text, n) ensures c in Candidates(rules, text, m) {
      NoticedGrows(rules, text, c, n, m);
    }
  }

  lemma NextByte(rules: seq<CompiledRule>, kws: seq<Keyword>, text: seq<byte>, n: nat)
    requires UsableRules(rules) && HoldsKeywords(rules, kws) && NonEmptyWords(kws) && n < |text|
    ensures Fold(text[..n + 1]) == Fold(text[..n]) + [LowerASCII(text[n])]
    ensures var hits := OutAt(kws, LongestLive(kws, Fold(text[..n + 1])));
            && (forall i :: 0 <= i < |hits| ==>
                  hits[i].ruleIndex < |rules| && rules[hits[i].ruleIndex].rule.maxMatchLen > 0)
            && Candidates(rules, text, n + 1)
               == Candidates(rules, text, n) + HitCandidates(hits, n + 1)
                  + StartsAt(rules, text, n, Digit) + StartsAt(rules, text, n, Iban)
  {
    hide OutAt, LongestLive, StartsAt, HitCandidates, Candidates, NonEmptyWords, HoldsKeywords;
    FoldStep(text, n);
    CandidatesStep(rules, kws, text, n);
    HitRulesExist(rules, kws, text, n + 1);
  }

  lemma NoticedGrows(rules: seq<CompiledRule>, text: seq<byte>, c: Candidate, n: nat, n': nat)
    requires n <= n' <= |text| && Noticed(rules, text, c, n)
    ensures Noticed(rules, text, c, n')
  {
  }

  // ----- Compiling rules

  datatype RuleError = MissingID | MissingClass | MissingPattern | MissingMaxMatchLen | BadConfidence
                     | DoesNotCompile | NoKeywords | UnsupportedPrefilter

  datatype Result<+T> = Ok(value: T) | Err(index: nat, error: RuleError)

  /** The first complaint about a rule, in the order the checks are made. */
  function CheckRule(r: Rule): Option<RuleError> {
    if r.id == "" then Some(MissingID)
    else if r.class_ == "" then Some(MissingClass)
    else if r.patternText == "" then Some(MissingPattern)
    else if r.maxMatchLen <= 0 then Some(MissingMaxMatchLen)
    else if r.confidence < 0.0 || r.confidence > 1.0 then Some(BadConfidence)
    else if r.pattern.None? then Some(DoesNotCompile)
    else if r.prefilter == Literal && r.keywords == [] then Some(NoKeywords)
    else if r.prefilter == Unsupported then Some(UnsupportedPrefilter)
    else None
  }

  function Compile(r: Rule): CompiledRule
    requires CheckRule(r).None?
  {
    CompiledRule(r, r.pattern.value, if r.confidence == 0.0 then 1.0 else r.confidence)
  }

  /** A missing confidence counts as certain; any other is kept. */
  lemma CompiledConfidence(r: Rule)
    requires CheckRule(r).None?
    ensures 0.0 < Compile(r).confidence <= 1.0
    ensures r.confidence != 0.0 ==> Compile(r).confidence == r.confidence
    ensures r.confidence == 0.0 ==> Compile(r).confidence == 1.0
    ensures Compile(r).rule == r && Some(Compile(r).pattern) == r.pattern
  {
  }

  /** What is wrong with a rule, complaint by complaint. */
  predicate Objects(r: Rule, e: RuleError) {
    match e
    case MissingID => |r.id| == 0
    case MissingClass => |r.class_| == 0
    case MissingPattern => |r.patternText| == 0
    case MissingMaxMatchLen => !(0 < r.maxMatchLen)
    case BadConfidence => !(0.0 <= r.confidence <= 1.0)
    case DoesNotCompile => r.pattern.None?
    case NoKeywords => r.prefilter.Literal? && |r.keywords| == 0
    case UnsupportedPrefilter => r.prefilter.Unsupported?
  }

  const CHECKS := [MissingID, MissingClass, MissingPattern, MissingMaxMatchLen, BadConfidence, DoesNotCompile, NoKeywords,
                   UnsupportedPrefilter]

  /** A rule is accepted if nothing is wrong with it, and otherwise the first thing that is wrong is reported. */
  lemma CheckedInOrder(r: Rule)
    ensures CheckRule(r).None? <==> forall i :: 0 <= i < |CHECKS| ==> !Objects(r, CHECKS[i])
    ensures CheckRule(r).Some? ==>
              exists i :: 0 <= i < |CHECKS| && CheckRule(r) == Some(CHECKS[i]) && Objects(r, CHECKS[i])
                          && forall j :: 0 <= j < i ==> !Objects(r, CHECKS[j])
  {
    var i := if |r.id| == 0 then 0 else if |r.class_| == 0 then 1 else if |r.patternText| == 0 then 2
             else if r.maxMatchLen <= 0 then 3 else if r.confidence < 0.0 || r.confidence > 1.0 then 4
             else if r.pattern.None? then 5 else if r.prefilter == Literal && r.keywords == [] then 6
             else 7;
    assert CheckRule(r).Some? ==> CheckRule(r) == Some(CHECKS[i]) && Objects(r, CHECKS[i]);
    assert forall j :: 0 <= j < i ==> !Objects(r, CHECKS[j]);
    assert CheckRule(r).None? ==> !Objects(r, CHECKS[7]);
  }

  ghost predicate CompiledFrom(compiled: seq<CompiledRule>, rules: seq<Rule>) {
    && |compiled| == |rules|
    && forall i :: 0 <= i < |rules| ==> CheckRule(rules[i]).None? && compiled[i] == Compile(rules[i])
  }

  ghost predicate UsableRules(rules: seq<CompiledRule>) {
    forall i :: 0 <= i < |rules| ==> rules[i].rule.maxMatchLen > 0 && rules[i].rule.prefilter != Unsupported
  }

  ghost predicate Lists(rules: seq<CompiledRule>, indexes: seq<nat>, kind: Prefilter) {
    && (forall j :: 0 <= j < |indexes| ==> indexes[j] < |rules|)
    && (forall i :: i in indexes <==> 0 <= i < |rules| && rules[i].rule.prefilter == kind)
  }

  /** The keywords of rule r with index ri, up to the n-th. */
  ghost predicate HoldsKeywordsSoFar(rules: seq<CompiledRule>, kws: seq<Keyword>, r: Rule, n: nat)
    requires n <= |r.keywords|
  {
    forall k :: k in kws <==>
      IsKeyword(rules, k) || (k.ruleIndex == |rules| && k.word != [] && exists j :: 0 <= j < n && Fold(r.keywords[j]) == k.word)
  }

  lemma NextKeyword(rules: seq<CompiledRule>, kws: seq<Keyword>, r: Rule, n: nat)
    requires n < |r.keywords| && HoldsKeywordsSoFar(rules, kws, r, n)
    ensures var w := Fold(r.keywords[n]);
            HoldsKeywordsSoFar(rules, if w == [] then kws else kws + [Keyword(w, |rules|)], r, n + 1)
  {
  }

  class Matcher {
    const rules: seq<CompiledRule>
    const automaton: Automaton
    const digitRules: seq<nat>
    const ibanRules: seq<nat>

    ghost predicate Valid()
      reads automaton
    {
      && UsableRules(rules)
      && automaton.Built() && HoldsKeywords(rules, automaton.keywords)
      && Lists(rules, digitRules, Digit) && Lists(rules, ibanRules, Iban)
    }

    constructor (rules: seq<CompiledRule>, automaton: Automaton, digitRules: seq<nat>, ibanRules: seq<nat>)
      requires UsableRules(rules) && automaton.Built() && HoldsKeywords(rules, automaton.keywords)
      requires Lists(rules, digitRules, Digit) && Lists(rules, ibanRules, Iban)
      ensures Valid() && this.rules == rules && this.automaton == automaton
    {
      this.rules, this.automaton, this.digitRules, this.ibanRules := rules, automaton, digitRules, ibanRules;
    }

    /** Tries the digit and the IBAN rules at a position that starts one of their candidates. */
    method ScanStarts(text: seq<byte>, pos: nat, findings: seq<Finding>, seen: set<CandidateKey>,
                      ghost tried: set<Candidate>, ghost before: set<CandidateKey>)
      returns (findings': seq<Finding>, seen': set<CandidateKey>)
      requires UsableRules(rules) && Lists(rules, digitRules, Digit) && Lists(rules, ibanRules, Iban)
      requires pos < |text| && Scanned(rules, text, tried, before, findings, seen)
      ensures Scanned(rules, text, tried + StartsAt(rules, text, pos, Digit) + StartsAt(rules, text, pos, Iban),
                      before, findings', seen')
    {
      hide Scanned;
      findings', seen' := findings, seen;
      ghost var digits, ibans := StartsAt(rules, text, pos, Digit), StartsAt(rules, text, pos, Iban);
      if IsDigitCandidateStart(text, pos) {
        findings', seen' := ScanRules(rules, text, digitRules, pos, findings', seen', tried, before);
        assert digits == WithIndexes(digitRules, pos);
      } else {
        assert tried + digits == tried;
      }
      if IsIBANCandidateStart(text, pos) {
        findings', seen' := ScanRules(rules, text, ibanRules, pos, findings', seen', tried + digits, before);
        assert ibans == WithIndexes(ibanRules, pos);
      } else {
        assert tried + digits + ibans == tried + digits;
      }
    }

    /** Steps the automaton over the byte at pos and tries every candidate noticed there. */
    method ScanByte(text: seq<byte>, pos: nat, state: nat, findings: seq<Finding>, seen: set<CandidateKey>)
      returns (state': nat, findings': seq<Finding>, seen': set<CandidateKey>)
      requires Valid() && pos < |text| && automaton.At(state, Fold(text[..pos]))
      requires Scanned(rules, text, Candidates(rules, text, pos), {}, findings, seen)
      ensures automaton.At(state', Fold(text[..pos + 1]))
      ensures Scanned(rules, text, Candidates(rules, text, pos + 1), {}, findings', seen')
    {
      var n: nat := pos + 1;
      NextByte(rules, automaton.keywords, text, pos);
      hide Scanned, Trie, Linked, OutAt, LongestLive, StartsAt, HitCandidates, Candidates, NonEmptyWords,
           HoldsKeywords, Lists, Fold;
      state' := automaton.Step(state, LowerASCII(text[pos]), Fold(text[..pos]));
      var hits := automaton.Hits(state', Fold(text[..n]));
      ghost var tried := Candidates(rules, text, pos);
      findings', seen' := ScanHits(rules, text, hits, n, findings, seen, tried, {});
      findings', seen' := ScanStarts(text, pos, findings', seen', tried + HitCandidates(hits, n), {});
    }

    /** Reports, sorted and once each, exactly the findings of the naive scan. */
    method Find(text: seq<byte>) returns (findings: seq<Finding>)
      requires Valid()
      ensures SortedBy(findings, Before) && Ascending(findings)
      ensures multiset(findings) == Bag(rules, AllKeys(rules, text))
      ensures forall j :: 0 <= j < |findings| ==> Genuine(rules, text, findings[j])
    {
      findings := [];
      var seen: set<CandidateKey> := {};
      var state: nat := 0;
      NothingScanned(rules, text);
      StartState();
      hide Scanned, Candidates, UsableRules, HoldsKeywords, Lists, Naming, Edges, Linked;
      assert text[..0] == [];
      for pos := 0 to |text|
        invariant automaton.At(state, Fold(text[..pos]))
        invariant Scanned(rules, text, Candidates(rules, text, pos), {}, findings, seen)
      {
        state, findings, seen := ScanByte(text, pos, state, findings, seen);
      }
      AllScanned(rules, text, findings, seen);
      findings := SortFindings(findings);
      Usable();
      ReportsAreGenuine(rules, text, findings);
    }

    lemma Usable()
      requires Valid()
      ensures forall i :: 0 <= i < |rules| ==> rules[i].rule.maxMatchLen > 0
    {
    }

    lemma StartState()
      requires Valid()
      ensures automaton.At(0, Fold([])) && automaton.At(0, [])
    {
      assert automaton.paths[0] == [];
    }
  }

  /** Adds the keywords of one literal rule to the automaton. */
  method AddKeywords(automaton: Automaton, ghost rules: seq<CompiledRule>, r: Rule, index: nat)
    requires automaton.Open() && HoldsKeywords(rules, automaton.keywords) && index == |rules|
    modifies automaton
    ensures automaton.Open() && HoldsKeywordsSoFar(rules, automaton.keywords, r, |r.keywords|)
  {
    hide Trie, Unlinked, IsKeyword;
    for j := 0 to |r.keywords|
      invariant automaton.Open() && HoldsKeywordsSoFar(rules, automaton.keywords, r, j)
    {
      NextKeyword(rules, automaton.keywords, r, j);
      var folded := FoldASCII(r.keywords[j]);
      automaton.Add(folded, index);
    }
  }

  /** What has been compiled, listed and put into the automaton is exactly `rules`. */
  ghost predicate Gathered(rules: seq<Rule>, compiled: seq<CompiledRule>, digitRules: seq<nat>, ibanRules: seq<nat>,
                           kws: seq<Keyword>)
  {
    && CompiledFrom(compiled, rules)
    && HoldsKeywords(compiled, kws)
    && Lists(compiled, digitRules, Digit) && Lists(compiled, ibanRules, Iban)
  }

  lemma Gather(rules: seq<Rule>, r: Rule, compiled: seq<CompiledRule>, digitRules: seq<nat>, ibanRules: seq<nat>,
               before: seq<Keyword>, kws: seq<Keyword>)
    requires Gathered(rules, compiled, digitRules, ibanRules, before) && CheckRule(r).None?
    requires if r.prefilter == Literal then HoldsKeywordsSoFar(compiled, kws, r, |r.keywords|) else kws == before
    ensures Gathered(rules + [r], compiled + [Compile(r)],
                     if r.prefilter == Digit then digitRules + [|compiled|] else digitRules,
                     if r.prefilter == Iban then ibanRules + [|compiled|] else ibanRules, kws)
  {
  }

  lemma GatheredUsable(rules: seq<Rule>, compiled: seq<CompiledRule>, digitRules: seq<nat>, ibanRules: seq<nat>,
                       kws: seq<Keyword>)
    requires Gathered(rules, compiled, digitRules, ibanRules, kws)
    ensures UsableRules(compiled) && HoldsKeywords(compiled, kws) && CompiledFrom(compiled, rules)
    ensures Lists(compiled, digitRules, Digit) && Lists(compiled, ibanRules, Iban)
  {
    hide HoldsKeywords, Lists;
  }

  lemma NothingGathered()
    ensures Gathered([], [], [], [], [])
  {
  }

  /** rules[index] is the first rule that fails a check, and error is its first failing check. */
  ghost predicate FirstComplaint(rules: seq<Rule>, index: nat, error: RuleError) {
    && index < |rules| && CheckRule(rules[index]) == Some(error)
    && forall i :: 0 <= i < index ==> CheckRule(rules[i]).None?
  }

  /** Compiles one more rule and registers it with its prefilter. */
  method CompileRule(automaton: Automaton, ghost rules: seq<Rule>, rule: Rule,
                     compiled: seq<CompiledRule>, digitRules: seq<nat>, ibanRules: seq<nat>)
    returns (compiled': seq<CompiledRule>, digitRules': seq<nat>, ibanRules': seq<nat>)
    requires automaton.Open() && Gathered(rules, compiled, digitRules, ibanRules, automaton.keywords)
    requires CheckRule(rule).None?
    modifies automaton
    ensures automaton.Open() && Gathered(rules + [rule], compiled', digitRules', ibanRules', automaton.keywords)
  {
    hide Trie, Unlinked, Gathered, CheckRule, HoldsKeywordsSoFar, HoldsKeywords, Lists, CompiledFrom, UsableRules;
    compiled', digitRules', ibanRules' := compiled + [Compile(rule)], digitRules, ibanRules;
    ghost var before := automaton.keywords;
    GatheredUsable(rules, compiled, digitRules, ibanRules, before);
    match rule.prefilter {
      case Literal => AddKeywords(automaton, compiled, rule, |compiled|);
      case Digit => digitRules' := digitRules + [|compiled|];
      case Iban => ibanRules' := ibanRules + [|compiled|];
      case Unsupported =>
    }
    Gather(rules, rule, compiled, digitRules, ibanRules, before, automaton.keywords);
  }

  /** Compiles the rules one by one; the first rule that fails a check is the error. */
  method NewMatcher(rules: seq<Rule>) returns (m: Result<Matcher>)
    ensures m.Ok? ==> m.value.Valid() && CompiledFrom(m.value.rules, rules)
    ensures m.Err? ==> FirstComplaint(rules, m.index, m.error)
  {
    var compiled: seq<CompiledRule> := [];
    var digitRules: seq<nat>, ibanRules: seq<nat> := [], [];
    var automaton := new Automaton();
    NothingGathered();
    hide Trie, Unlinked, Linked, Gathered, CheckRule, HoldsKeywords, Lists, CompiledFrom, UsableRules;
    for i := 0 to |rules|
      invariant automaton.Open() && fresh(automaton)
      invariant Gathered(rules[..i], compiled, digitRules, ibanRules, automaton.keywords)
      invariant forall j :: 0 <= j < i ==> CheckRule(rules[j]).None?
    {
      var complaint := CheckRule(rules[i]);
      if complaint.Some? {
        return Err(i, complaint.value);
      }
      assert rules[..i + 1] == rules[..i] + [rules[i]];
      compiled, digitRules, ibanRules := CompileRule(automaton, rules[..i], rules[i], compiled, digitRules, ibanRules);
    }
    assert rules[..|rules|] == rules;
    automaton.Build();
    GatheredUsable(rules, compiled, digitRules, ibanRules, automaton.keywords);
    var matcher := new Matcher(compiled, automaton, digitRules, ibanRules);
    m := Ok(matcher);
  }
}
