/** What a stream may still change: which candidates wait for more bytes, and how far the text is settled.
    Everything here is a function of the rules and of the text read so far. */
module Holding {
  import opened Bytes
  import opened Rules

  // ----- When a candidate can be tried

  /** The longest value any rule of this kind may have; 0 when there is no such rule. */
  function MaxLenOf(rules: seq<CompiledRule>, kind: Prefilter): (n: int)
    ensures n >= 0
    ensures forall i :: 0 <= i < |rules| && rules[i].rule.prefilter == kind ==> rules[i].rule.maxMatchLen <= n
    ensures n > 0 ==> exists i :: 0 <= i < |rules| && rules[i].rule.prefilter == kind && rules[i].rule.maxMatchLen == n
  {
    if rules == [] then 0 else
    var rest := MaxLenOf(rules[..|rules| - 1], kind);
    var last := rules[|rules| - 1].rule;
    if last.prefilter == kind && last.maxMatchLen > rest then last.maxMatchLen else rest
  }

  /** How many bytes of the stream must be known before candidate c is tried. Digit and IBAN candidates
      wait for the longest rule of their kind, because all rules of a kind are tried together. */
  function Needed(rules: seq<CompiledRule>, c: Candidate): int
    requires c.ruleIndex < |rules|
  {
    var rule := rules[c.ruleIndex].rule;
    c.start + ScanWindowLen(if rule.prefilter == Literal then rule.maxMatchLen else MaxLenOf(rules, rule.prefilter))
  }

  ghost function ReadyIn(rules: seq<CompiledRule>, text: seq<byte>, cs: set<Candidate>): set<Candidate> {
    set c | c in cs && c.ruleIndex < |rules| && Needed(rules, c) <= |text|
  }

  /** The candidates noticed in the first n bytes that a stream holding `text` has tried. */
  ghost function Ready(rules: seq<CompiledRule>, text: seq<byte>, n: nat): set<Candidate>
    requires n <= |text|
  {
    ReadyIn(rules, text, Candidates(rules, text, n))
  }

  /** Candidate c has been noticed but not yet tried. */
  ghost predicate Waiting(rules: seq<CompiledRule>, text: seq<byte>, c: Candidate) {
    Noticed(rules, text, c, |text|) && Needed(rules, c) > |text|
  }

  // ----- IBAN starts whose shape is not yet known

  datatype Decision = No | Yes | Defer

  function IBANDecision(text: seq<byte>, pos: int): Decision {
    if pos < 0 || pos >= |text| then No
    else if !IsUpper(text[pos]) then No
    else if pos > 0 && IsAlphaNum(text[pos - 1]) then No
    else if pos + 1 >= |text| then Defer
    else if !IsUpper(text[pos + 1]) then No
    else if pos + 2 >= |text| || pos + 3 >= |text| then Defer
    else if IsDigit(text[pos + 2]) && IsDigit(text[pos + 3]) then Yes
    else No
  }

  /** A decision is only ever put off at the last three bytes, and is final once made. */
  lemma DecisionSettles(text: seq<byte>, longer: seq<byte>, pos: int)
    requires text <= longer
    ensures IBANDecision(text, pos) == Yes <==> 0 <= pos && IsIBANCandidateStart(text, pos)
    ensures IBANDecision(text, pos) == Defer ==> |text| - 3 <= pos < |text|
    ensures IBANDecision(text, pos) != Defer && pos < |text| ==> IBANDecision(longer, pos) == IBANDecision(text, pos)
  {
  }

  // ----- The settled part of the text

  /** The text from q on could be the beginning of a keyword. */
  ghost predicate CouldGrow(rules: seq<CompiledRule>, text: seq<byte>, q: nat)
    requires q <= |text|
  {
    exists i, j :: 0 <= i < |rules| && rules[i].rule.prefilter == Literal
                   && 0 <= j < |rules[i].rule.keywords| && Fold(text[q..]) <= Fold(rules[i].rule.keywords[j])
  }

  /** Something that starts at q has been noticed and is not decided. */
  ghost predicate InDoubt(rules: seq<CompiledRule>, text: seq<byte>, q: nat) {
    q < |text| && (CouldGrow(rules, text, q) || exists i: nat :: Waiting(rules, text, Candidate(i, q)))
  }

  ghost function FirstInDoubt(rules: seq<CompiledRule>, text: seq<byte>, q: nat): (r: nat)
    requires q <= |text|
    ensures q <= r <= |text|
    ensures r < |text| ==> InDoubt(rules, text, r)
    ensures forall p :: q <= p < r ==> !InDoubt(rules, text, p)
    decreases |text| - q
  {
    if q == |text| || InDoubt(rules, text, q) then q else FirstInDoubt(rules, text, q + 1)
  }

  /** Where the part of the text that has to be held back begins. */
  ghost function SafeEnd(rules: seq<CompiledRule>, text: seq<byte>): (r: nat)
    ensures r <= |text|
    ensures r < |text| ==> InDoubt(rules, text, r)
    ensures forall p :: 0 <= p < |text| && InDoubt(rules, text, p) ==> r <= p
  {
    FirstInDoubt(rules, text, 0)
  }

  /** A candidate that can be tried finds the same in every longer text. */
  lemma ReadyKeys(rules: seq<CompiledRule>, text: seq<byte>, longer: seq<byte>, c: Candidate)
    requires text <= longer && c.ruleIndex < |rules| && Needed(rules, c) <= |text|
    ensures KeysAt(rules, text, c) == KeysAt(rules, longer, c)
  {
    assert rules[c.ruleIndex].rule.maxMatchLen <= MaxLenOf(rules, rules[c.ruleIndex].rule.prefilter);
    MatchSpanLocal(rules[c.ruleIndex], text, longer, c.start);
  }

  // ----- What later bytes can still report

  ghost predicate NoIban(rules: seq<CompiledRule>) {
    forall i :: 0 <= i < |rules| ==> rules[i].rule.prefilter != Iban
  }

  /** The decision at p was put off, and some continuation of the text makes p an IBAN start. */
  predicate Promising(text: seq<byte>, p: int) {
    IBANDecision(text, p) == Defer && (p + 2 < |text| ==> IsDigit(text[p + 2]))
  }

  /** The hold-back covers every put-off IBAN decision. It counts the other waiting candidates but not these,
      so with IBAN rules this is not a matter of course. */
  ghost predicate DeferralsHeld(rules: seq<CompiledRule>, text: seq<byte>) {
    NoIban(rules) || forall p :: Promising(text, p) ==> p >= SafeEnd(rules, text)
  }

  /** A candidate of a longer text that has not been tried yet starts in the held-back part,
      unless it is an IBAN start that was put off. */
  lemma LateCandidate(rules: seq<CompiledRule>, text: seq<byte>, longer: seq<byte>, c: Candidate)
    requires text <= longer
    requires Noticed(rules, longer, c, |longer|) && c !in Ready(rules, text, |text|)
    ensures c.start >= SafeEnd(rules, text)
            || (rules[c.ruleIndex].rule.prefilter == Iban && PutOff(text, longer, c.start))
  {
    var rule := rules[c.ruleIndex].rule;
    if c.start < |text| {
      if Noticed(rules, text, c, |text|) {
        assert c == Candidate(c.ruleIndex, c.start) && c in Candidates(rules, text, |text|);
        assert Waiting(rules, text, Candidate(c.ruleIndex, c.start));
        assert InDoubt(rules, text, c.start);
      } else if rule.prefilter == Literal {
        var j :| 0 <= j < |rule.keywords| && OccursAt(rule.keywords[j], longer, c.start, |longer|);
        UnfinishedKeyword(rules, text, longer, c, j);
        assert InDoubt(rules, text, c.start);
      } else if rule.prefilter == Iban {
        DecisionSettles(text, longer, c.start);
        DecisionSettles(longer, longer, c.start);
      }
    }
  }

  lemma UnfinishedKeyword(rules: seq<CompiledRule>, text: seq<byte>, longer: seq<byte>, c: Candidate, j: nat)
    requires text <= longer && c.ruleIndex < |rules| && 0 <= c.start < |text|
    requires rules[c.ruleIndex].rule.prefilter == Literal && j < |rules[c.ruleIndex].rule.keywords|
    requires OccursAt(rules[c.ruleIndex].rule.keywords[j], longer, c.start, |longer|)
    requires !Noticed(rules, text, c, |text|)
    ensures CouldGrow(rules, text, c.start)
  {
  }

  /** Every position that was put off and turns out to begin an IBAN in `longer` lies in the held-back part. */
  ghost predicate StartsHeld(rules: seq<CompiledRule>, text: seq<byte>, longer: seq<byte>) {
    NoIban(rules) || forall p: nat :: PutOff(text, longer, p) ==> p >= SafeEnd(rules, text)
  }

  /** Whether an IBAN begins at p was left open in `text`, and in `longer` one does. */
  predicate PutOff(text: seq<byte>, longer: seq<byte>, p: nat) {
    IBANDecision(text, p) == Defer && IsIBANCandidateStart(longer, p)
  }

  lemma DeferralsAreStarts(rules: seq<CompiledRule>, text: seq<byte>, longer: seq<byte>)
    requires text <= longer && DeferralsHeld(rules, text)
    ensures StartsHeld(rules, text, longer)
  {
    hide SafeEnd;
    forall p: nat | PutOff(text, longer, p) ensures Promising(text, p) {
      assert p + 2 < |text| ==> text[p + 2] == longer[p + 2];
    }
  }

  /** A finding that is reported later begins at or behind a candidate that is still in doubt or was put off. */
  lemma LateKeyCause(rules: seq<CompiledRule>, text: seq<byte>, longer: seq<byte>, k: CandidateKey) returns (p: nat)
    requires text <= longer
    requires k in AllKeys(rules, longer) && k !in KeysOf(rules, text, Ready(rules, text, |text|))
    ensures p <= k.start && (p >= SafeEnd(rules, text) || (!NoIban(rules) && PutOff(text, longer, p)))
  {
    var c :| c in Candidates(rules, longer, |longer|) && k in KeysAt(rules, longer, c);
    if c in Ready(rules, text, |text|) {
      ReadyKeys(rules, text, longer, c);
      assert false;
    }
    hide Ready, Candidates, KeysOf;
    LateCandidate(rules, text, longer, c);
    p := c.start;
  }

  /** Hold-back safety: what a longer text reports beyond what has been reported starts after the settled part,
      or in the last three bytes. */
  lemma LaterFindingsStartLate(rules: seq<CompiledRule>, text: seq<byte>, longer: seq<byte>, k: CandidateKey)
    requires text <= longer
    requires k in AllKeys(rules, longer) && k !in KeysOf(rules, text, Ready(rules, text, |text|))
    ensures StartsHeld(rules, text, longer) ==> k.start >= SafeEnd(rules, text)
    ensures k.start >= SafeEnd(rules, text) || k.start >= |text| - 3
  {
    hide AllKeys, KeysOf, Ready;
    var p := LateKeyCause(rules, text, longer, k);
    DecisionSettles(text, longer, p);
  }

  /** Steady progress: the settled part does not shrink as bytes arrive, as long as the put-off starts are held
      or no IBAN rule ever waits. */
  lemma SafeEndMonotone(rules: seq<CompiledRule>, text: seq<byte>, longer: seq<byte>)
    requires text <= longer
    ensures StartsHeld(rules, text, longer) || MaxLenOf(rules, Iban) <= 3 ==> SafeEnd(rules, text) <= SafeEnd(rules, longer)
  {
    var q := SafeEnd(rules, longer);
    if q < |text| {
      if CouldGrow(rules, longer, q) {
        StillGrows(rules, text, longer, q);
      } else {
        var i: nat :| Waiting(rules, longer, Candidate(i, q));
        hide SafeEnd, CouldGrow, InDoubt;
        LateCandidate(rules, text, longer, Candidate(i, q));
      }
    }
  }

  lemma StillGrows(rules: seq<CompiledRule>, text: seq<byte>, longer: seq<byte>, q: nat)
    requires text <= longer && q < |text| && CouldGrow(rules, longer, q)
    ensures InDoubt(rules, text, q)
  {
    var i, j :| 0 <= i < |rules| && rules[i].rule.prefilter == Literal && 0 <= j < |rules[i].rule.keywords|
                && Fold(longer[q..]) <= Fold(rules[i].rule.keywords[j]);
    assert Fold(text[q..]) == Fold(longer[q..])[..|text| - q];
    assert Fold(text[q..]) <= Fold(rules[i].rule.keywords[j]);
  }

  /** A bound on every keyword and every maximal value. */
  ghost predicate Bounds(rules: seq<CompiledRule>, n: int) {
    && n >= 0
    && (forall i :: 0 <= i < |rules| ==> rules[i].rule.maxMatchLen <= n)
    && (forall i, j :: 0 <= i < |rules| && rules[i].rule.prefilter == Literal && 0 <= j < |rules[i].rule.keywords| ==>
          |rules[i].rule.keywords[j]| <= n)
  }

  /** Bounded hold: however long the stream, no more than the longest keyword or value is held back. */
  lemma HoldBounded(rules: seq<CompiledRule>, text: seq<byte>, n: int)
    requires Bounds(rules, n)
    ensures |text| - SafeEnd(rules, text) <= n
  {
  }

  // ----- Exactly when the hold-back is safe

  /** The same rules but for what their expressions and validators accept. */
  ghost predicate SameShape(rules: seq<CompiledRule>, other: seq<CompiledRule>) {
    && |rules| == |other|
    && forall i :: 0 <= i < |rules| ==>
         && other[i].rule.prefilter == rules[i].rule.prefilter
         && other[i].rule.keywords == rules[i].rule.keywords
         && other[i].rule.maxMatchLen == rules[i].rule.maxMatchLen
  }

  /** Nothing reported later starts in the part of the text that was let go. */
  ghost predicate HoldSafe(rules: seq<CompiledRule>, text: seq<byte>) {
    forall longer, k :: text <= longer && k in AllKeys(rules, longer) && k !in KeysOf(rules, text, Ready(rules, text, |text|))
      ==> k.start >= SafeEnd(rules, text)
  }

  /** The barest expression for an IBAN rule: one byte, where the candidate starts. */
  function TakeOne(w: seq<byte>): (m: Option<seq<int>>)
    ensures m.Some? ==> GroupsInside(w, m.value)
  {
    if w == [] then None
    else if IsUpper(w[0]) || |w| == 1 then Some([0, 1])
    else Some([1, 2])
  }

  /** The rule with the barest expression; only IBAN rules match at all. */
  function Bare(r: CompiledRule): CompiledRule {
    r.(pattern := if r.rule.prefilter == Iban then (w => TakeOne(w)) else (w => None),
       rule := r.rule.(validate := (v => true), matchGroup := 0))
  }

  function AllBare(rules: seq<CompiledRule>): seq<CompiledRule> {
    seq(|rules|, i requires 0 <= i < |rules| => Bare(rules[i]))
  }

  /** Completes a put-off IBAN start at p to an IBAN start. */
  function Completion(text: seq<byte>, p: nat): seq<byte>
    requires p < |text|
  {
    if p + 1 == |text| then text + [65, 48, 48] else if p + 2 == |text| then text + [48, 48] else text + [48]
  }

  lemma PromiseKept(text: seq<byte>, p: nat)
    requires Promising(text, p)
    ensures text <= Completion(text, p) && IsIBANCandidateStart(Completion(text, p), p)
    ensures !IsIBANCandidateStart(text, p)
  {
  }

  function WindowStart(p: nat): nat { if p == 0 then 0 else p - 1 }

  function WindowEnd(r: CompiledRule, text: seq<byte>, p: nat): int {
    if p + ScanWindowLen(r.rule.maxMatchLen) > |text| then |text| else p + ScanWindowLen(r.rule.maxMatchLen)
  }

  lemma BareWindow(r: CompiledRule, text: seq<byte>, p: nat)
    requires r.rule.prefilter == Iban && IsIBANCandidateStart(text, p) && r.rule.maxMatchLen > 0
    ensures TakeOne(text[WindowStart(p)..WindowEnd(r, text, p)]) == Some(if p == 0 then [0, 1] else [1, 2])
  {
    var window := text[WindowStart(p)..WindowEnd(r, text, p)];
    assert window[p - WindowStart(p)] == text[p] && (p > 0 ==> window[0] == text[p - 1]);
  }

  lemma OneGroup(r: CompiledRule, text: seq<byte>, p: nat, a: int)
    requires p < |text| && r.rule.maxMatchLen > 0 && r.rule.matchGroup == 0
    requires r.pattern(text[WindowStart(p)..WindowEnd(r, text, p)]) == Some([a, a + 1]) && WindowStart(p) + a == p
    requires r.rule.validate(text[p..p + 1])
    ensures MatchSpan(r, text, p) == Some((p as int, p + 1))
  {
  }

  /** A bare IBAN rule tried at an IBAN start reports its first byte. */
  lemma BareSpan(r: CompiledRule, text: seq<byte>, p: nat)
    requires r.rule.prefilter == Iban && IsIBANCandidateStart(text, p) && r.rule.maxMatchLen > 0
    ensures MatchSpan(Bare(r), text, p) == Some((p as int, p + 1))
  {
    BareWindow(r, text, p);
    hide TakeOne, MatchSpan;
    OneGroup(Bare(r), text, p, if p == 0 then 0 else 1);
  }

  /** Bare rules report the first bytes of IBAN starts and nothing else. */
  lemma BareKey(rules: seq<CompiledRule>, text: seq<byte>, c: Candidate, k: CandidateKey)
    requires Noticed(AllBare(rules), text, c, |text|) && k in KeysAt(AllBare(rules), text, c)
    ensures c.ruleIndex < |rules| && rules[c.ruleIndex].rule.prefilter == Iban && IsIBANCandidateStart(text, c.start)
    ensures k == CandidateKey(c.ruleIndex, c.start, c.start + 1)
  {
  }

  lemma {:induction false} SameMaxLen(rules: seq<CompiledRule>, other: seq<CompiledRule>, kind: Prefilter)
    requires SameShape(rules, other)
    ensures MaxLenOf(rules, kind) == MaxLenOf(other, kind)
  {
  }

  /** What is noticed and what is held back depends on the shape of the rules only. */
  lemma SameSafeEnd(rules: seq<CompiledRule>, other: seq<CompiledRule>, text: seq<byte>)
    requires SameShape(rules, other)
    ensures SafeEnd(rules, text) == SafeEnd(other, text)
  {
    forall q: nat ensures InDoubt(rules, text, q) == InDoubt(other, text, q) {
      if q < |text| {
        assert CouldGrow(rules, text, q) == CouldGrow(other, text, q);
        forall i: nat ensures Waiting(rules, text, Candidate(i, q)) == Waiting(other, text, Candidate(i, q)) {
          if i < |rules| { SameMaxLen(rules, other, rules[i].rule.prefilter); }
        }
      }
    }
  }

  /** The hold-back is safe whatever the expressions match if and only if it covers the put-off IBAN starts. */
  lemma HoldSafeExactly(rules: seq<CompiledRule>, text: seq<byte>)
    requires forall i :: 0 <= i < |rules| ==> rules[i].rule.maxMatchLen > 0
    ensures (forall other :: SameShape(rules, other) ==> HoldSafe(other, text)) <==> DeferralsHeld(rules, text)
  {
    if DeferralsHeld(rules, text) {
      forall other | SameShape(rules, other) ensures HoldSafe(other, text) {
        SameSafeEnd(rules, other, text);
        forall longer, k | text <= longer && k in AllKeys(other, longer)
                           && k !in KeysOf(other, text, Ready(other, text, |text|))
          ensures k.start >= SafeEnd(other, text)
        {
          DeferralsAreStarts(other, text, longer);
          LaterFindingsStartLate(other, text, longer, k);
        }
      }
    } else {
      var i :| 0 <= i < |rules| && rules[i].rule.prefilter == Iban;
      var p :| Promising(text, p) && p < SafeEnd(rules, text);
      UnsafePatterns(rules, text, i, p);
    }
  }

  /** Among the bare rules' findings of a text is the first byte of each IBAN start. */
  lemma BareFinding(rules: seq<CompiledRule>, text: seq<byte>, i: nat, p: nat)
    requires i < |rules| && rules[i].rule.prefilter == Iban && rules[i].rule.maxMatchLen > 0
    requires IsIBANCandidateStart(text, p)
    ensures CandidateKey(i, p, p + 1) in AllKeys(AllBare(rules), text)
  {
    var other := AllBare(rules);
    BareSpan(rules[i], text, p);
    assert Noticed(other, text, Candidate(i, p), |text|);
    hide AllBare;
    assert Candidate(i, p) in Candidates(other, text, |text|) && CandidateKey(i, p, p + 1) in KeysAt(other, text, Candidate(i, p));
  }

  /** The bare rules find nothing else. */
  lemma BareSilence(rules: seq<CompiledRule>, text: seq<byte>, cs: set<Candidate>, k: CandidateKey)
    requires cs <= Candidates(AllBare(rules), text, |text|) && k in KeysOf(AllBare(rules), text, cs)
    ensures k.start >= 0 && k.end == k.start + 1 && IsIBANCandidateStart(text, k.start)
  {
    var other := AllBare(rules);
    var c :| c in cs && k in KeysAt(other, text, c);
    assert Noticed(other, text, c, |text|);
    BareKey(rules, text, c, k);
  }

  lemma ReadyAreCandidates(rules: seq<CompiledRule>, text: seq<byte>)
    ensures Ready(rules, text, |text|) <= Candidates(rules, text, |text|)
  {
  }

  lemma BareShape(rules: seq<CompiledRule>)
    ensures SameShape(rules, AllBare(rules))
  {
  }

  /** With bare expressions, completing the put-off start reports a finding in the part already let go. */
  lemma UnsafePatterns(rules: seq<CompiledRule>, text: seq<byte>, i: nat, p: nat)
    requires i < |rules| && rules[i].rule.prefilter == Iban && rules[i].rule.maxMatchLen > 0
    requires Promising(text, p) && p < SafeEnd(rules, text)
    ensures SameShape(rules, AllBare(rules)) && !HoldSafe(AllBare(rules), text)
  {
    hide *;
    BareShape(rules);
    SameSafeEnd(rules, AllBare(rules), text);
    PromiseKept(text, p);
    BareFinding(rules, Completion(text, p), i, p);
    var k := CandidateKey(i, p, p + 1);
    ReadyAreCandidates(AllBare(rules), text);
    if k in KeysOf(AllBare(rules), text, Ready(AllBare(rules), text, |text|)) {
      BareSilence(rules, text, Ready(AllBare(rules), text, |text|), k);
    }
    NotSafe(AllBare(rules), text, Completion(text, p), k);
  }

  lemma NotSafe(rules: seq<CompiledRule>, text: seq<byte>, longer: seq<byte>, k: CandidateKey)
    requires text <= longer && k in AllKeys(rules, longer) && k !in KeysOf(rules, text, Ready(rules, text, |text|))
    requires k.start < SafeEnd(rules, text)
    ensures !HoldSafe(rules, text)
  {
    hide AllKeys, KeysOf, Ready, SafeEnd;
  }

  /** One IBAN rule, the text "G": nothing is held back, yet when "A00" arrives a finding at 0 is reported. */
  lemma EarlyRelease(r: CompiledRule)
    requires r.rule.prefilter == Iban && r.rule.maxMatchLen > 0
    ensures var rules, text := [Bare(r)], [71];
            && SafeEnd(rules, text) == |text|
            && CandidateKey(0, 0, 1) in AllKeys(rules, text + [65, 48, 48])
            && CandidateKey(0, 0, 1) !in KeysOf(rules, text, Ready(rules, text, |text|))
  {
    var text: seq<byte> := [71];
    assert AllBare([r]) == [Bare(r)];
    NothingHeld([Bare(r)], text);
    assert IsIBANCandidateStart(text + [65, 48, 48], 0) && !IsIBANCandidateStart(text, 0);
    hide *;
    BareFinding([r], text + [65, 48, 48], 0, 0);
    ReadyAreCandidates([Bare(r)], text);
    if CandidateKey(0, 0, 1) in KeysOf([Bare(r)], text, Ready([Bare(r)], text, |text|)) {
      BareSilence([r], text, Ready([Bare(r)], text, |text|), CandidateKey(0, 0, 1));
    }
  }

  lemma NothingHeld(rules: seq<CompiledRule>, text: seq<byte>)
    requires |rules| == 1 && rules[0].rule.prefilter == Iban && |text| == 1
    ensures SafeEnd(rules, text) == 1
  {
    assert !InDoubt(rules, text, 0) by {
      assert !IsIBANCandidateStart(text, 0);
    }
  }

  // ----- Exactly when progress is steady

  /** With an IBAN rule longer than the four bytes of a start, a completed start waits where it begins. */
  lemma CompletedWaits(rules: seq<CompiledRule>, text: seq<byte>, p: nat)
    requires Promising(text, p) && MaxLenOf(rules, Iban) > 3
    ensures SafeEnd(rules, Completion(text, p)) <= p
  {
    PromiseKept(text, p);
    var longer := Completion(text, p);
    var i :| 0 <= i < |rules| && rules[i].rule.prefilter == Iban && rules[i].rule.maxMatchLen == MaxLenOf(rules, Iban);
    assert |longer| == p + 4;
    hide Completion, MaxLenOf;
    assert Waiting(rules, longer, Candidate(i, p));
    assert InDoubt(rules, longer, p);
  }

  /** The settled part never shrinks, whatever bytes arrive, if and only if it ends before every put-off start that can
      still become an IBAN, or no IBAN rule is long enough to wait. */
  lemma SteadyExactly(rules: seq<CompiledRule>, text: seq<byte>)
    ensures (forall longer :: text <= longer ==> SafeEnd(rules, text) <= SafeEnd(rules, longer))
            <==> MaxLenOf(rules, Iban) <= 3 || DeferralsHeld(rules, text)
  {
    hide SafeEnd, MaxLenOf;
    if MaxLenOf(rules, Iban) <= 3 || DeferralsHeld(rules, text) {
      forall longer | text <= longer ensures SafeEnd(rules, text) <= SafeEnd(rules, longer) {
        if DeferralsHeld(rules, text) {
          DeferralsAreStarts(rules, text, longer);
        }
        SafeEndMonotone(rules, text, longer);
      }
    } else {
      var p :| Promising(text, p) && p < SafeEnd(rules, text);
      PromiseKept(text, p);
      CompletedWaits(rules, text, p);
    }
  }

  /** The settled part shrinks: one IBAN rule of more than three bytes, the text "G", and then "A00". */
  lemma ProgressLost(r: CompiledRule)
    requires r.rule.prefilter == Iban && r.rule.maxMatchLen > 3
    ensures SafeEnd([r], [71]) == 1 && SafeEnd([r], [71, 65, 48, 48]) == 0
  {
    var text: seq<byte> := [71];
    NothingHeld([r], text);
    assert Promising(text, 0) && Completion(text, 0) == [71, 65, 48, 48];
    assert MaxLenOf([r], Iban) > 3;
    CompletedWaits([r], text, 0);
  }
}
