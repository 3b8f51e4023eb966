/** What a scan notices and reports, said of the bytes of the text, the expression, the match group and the validators. */
module Noticing {
  import opened Bytes
  import opened Sorting
  import opened Rules

  // ----- Where candidates begin

  /** A keyword occurs where its letters stand, in whatever case. */
  lemma OccursExactly(k: seq<byte>, text: seq<byte>, start: int, n: nat)
    requires n <= |text|
    ensures OccursAt(k, text, start, n) <==>
              && k != [] && 0 <= start <= start + |k| <= n
              && forall i :: 0 <= i < |k| ==> SameLetter(text[start + i], k[i])
  {
    hide SameLetter, Fold;
    if 0 <= start <= start + |k| <= n {
      var part := text[start..start + |k|];
      FoldMeans(part, k);
      assert forall i :: 0 <= i < |k| ==> part[i] == text[start + i];
    }
  }

  /** The texts differ at most in the case of ASCII letters. */
  predicate CaseBlind(a: seq<byte>, b: seq<byte>) { |a| == |b| && forall i :: 0 <= i < |a| ==> SameLetter(a[i], b[i]) }

  /** The rules differ at most in the case of the letters of their keywords. */
  ghost predicate SameKeywords(rules: seq<CompiledRule>, other: seq<CompiledRule>) {
    && |rules| == |other|
    && forall i :: 0 <= i < |rules| ==>
         && other[i].rule.prefilter == rules[i].rule.prefilter && |other[i].rule.keywords| == |rules[i].rule.keywords|
         && forall j :: 0 <= j < |rules[i].rule.keywords| ==> CaseBlind(rules[i].rule.keywords[j], other[i].rule.keywords[j])
  }

  lemma SameOccurrence(k: seq<byte>, l: seq<byte>, text: seq<byte>, other: seq<byte>, start: int, n: nat)
    requires CaseBlind(k, l) && CaseBlind(text, other) && n <= |text|
    ensures OccursAt(k, text, start, n) <==> OccursAt(l, other, start, n)
  {
    hide SameLetter, Fold;
    FoldMeans(k, l);
    if 0 <= start <= start + |k| <= n {
      var part, part' := text[start..start + |k|], other[start..start + |k|];
      assert forall i :: 0 <= i < |k| ==> part[i] == text[start + i] && part'[i] == other[start + i];
      FoldMeans(part, part');
    }
  }

  /** The case of ASCII letters, in the text or in keywords, decides nothing about keyword candidates. */
  lemma CaseDecidesNothing(rules: seq<CompiledRule>, other: seq<CompiledRule>, text: seq<byte>, text': seq<byte>, c: Candidate, n: nat)
    requires SameKeywords(rules, other) && CaseBlind(text, text') && n <= |text|
    requires c.ruleIndex < |rules| && rules[c.ruleIndex].rule.prefilter == Literal
    ensures Noticed(rules, text, c, n) <==> Noticed(other, text', c, n)
  {
    hide OccursAt, CaseBlind;
    var keywords, keywords' := rules[c.ruleIndex].rule.keywords, other[c.ruleIndex].rule.keywords;
    CaseBlindLength(text, text');
    forall j | 0 <= j < |keywords| ensures OccursAt(keywords[j], text, c.start, n) <==> OccursAt(keywords'[j], text', c.start, n) {
      SameOccurrence(keywords[j], keywords'[j], text, text', c.start, n);
    }
  }

  lemma CaseBlindLength(a: seq<byte>, b: seq<byte>)
    requires CaseBlind(a, b)
    ensures |a| == |b|
  {
  }

  /** The digits from start up to p. */
  predicate AllDigits(text: seq<byte>, start: nat, p: nat)
    requires p < |text|
  {
    start <= p && forall i :: start <= i <= p ==> IsDigit(text[i])
  }

  /** Every digit belongs to the run of exactly one digit start. */
  lemma {:induction false} DigitRun(text: seq<byte>, p: nat) returns (start: nat)
    requires p < |text| && IsDigit(text[p])
    ensures AllDigits(text, start, p) && IsDigitCandidateStart(text, start)
    ensures forall s: nat :: s <= p && AllDigits(text, s, p) && IsDigitCandidateStart(text, s) ==> s == start
  {
    if p > 0 && IsDigit(text[p - 1]) {
      start := DigitRun(text, p - 1);
      forall s: nat | s <= p && AllDigits(text, s, p) && IsDigitCandidateStart(text, s) ensures s == start {
        assert s != p;
        assert AllDigits(text, s, p - 1);
      }
    } else {
      start := p;
    }
  }

  /** An IBAN start is a country code and two check digits that do not continue a word or number. */
  lemma IBANStartMeans(before: seq<byte>, a: byte, b: byte, c: byte, d: byte, rest: seq<byte>)
    ensures IsIBANCandidateStart(before + [a, b, c, d] + rest, |before|)
            <==> IsUpper(a) && IsUpper(b) && IsDigit(c) && IsDigit(d) && (before == [] || !IsAlphaNum(before[|before| - 1]))
    ensures |rest| < 4 ==> !IsIBANCandidateStart(before + rest, |before|)
  {
    var text, at := before + [a, b, c, d] + rest, |before|;
    assert text[at] == a && text[at + 1] == b && text[at + 2] == c && text[at + 3] == d;
    assert before != [] ==> text[at - 1] == before[at - 1];
  }

  // ----- What a candidate yields

  /** from..end is the window of a candidate: one byte before its start, if there is one, the longest value, and one byte more,
      as far as the text goes. */
  predicate WindowOf(text: seq<byte>, start: int, longest: int, from: int, end: int) {
    && 0 <= start < |text|
    && from == (if start == 0 then 0 else start - 1)
    && end <= |text| && end <= start + longest + 1 && (end == |text| || end == start + longest + 1)
  }

  /** g is the match group if the expression has it and it took part, and otherwise the whole match. */
  predicate ChosenGroup(group: int, ix: seq<int>, g: int) {
    if 0 <= group && 2 * group + 1 < |ix| && ix[2 * group] >= 0 then g == group else g == 0
  }

  /** At start, the expression finds ix in the window, and the chosen group spans the value. */
  ghost predicate Yields(r: CompiledRule, text: seq<byte>, start: int, valueStart: int, valueEnd: int) {
    exists from, end, ix, g :: YieldsBy(r, text, start, valueStart, valueEnd, from, end, ix, g)
  }

  ghost predicate YieldsBy(r: CompiledRule, text: seq<byte>, start: int, valueStart: int, valueEnd: int,
                           from: int, end: int, ix: seq<int>, g: int)
  {
    && WindowOf(text, start, r.rule.maxMatchLen, from, end) && from <= end
    && r.pattern(text[from..end]) == Some(ix) && |ix| >= 2 && from + ix[0] >= start
    && ChosenGroup(r.rule.matchGroup, ix, g) && 0 <= g && 2 * g + 1 < |ix|
    && valueStart == from + ix[2 * g] && valueEnd == from + ix[2 * g + 1]
    && 0 <= valueStart < valueEnd <= |text| && r.rule.validate(text[valueStart..valueEnd])
  }

  /** A candidate yields exactly the span of the chosen group, if it is not empty and the validators pass. */
  lemma SpanExactly(r: CompiledRule, text: seq<byte>, start: int, valueStart: int, valueEnd: int)
    requires r.rule.maxMatchLen > 0
    ensures MatchSpan(r, text, start) == Some((valueStart, valueEnd)) <==> Yields(r, text, start, valueStart, valueEnd)
  {
    hide MatchSpan;
    if MatchSpan(r, text, start) == Some((valueStart, valueEnd)) {
      SpanYields(r, text, start, valueStart, valueEnd);
    }
    if Yields(r, text, start, valueStart, valueEnd) {
      var from, end, ix, g :| YieldsBy(r, text, start, valueStart, valueEnd, from, end, ix, g);
      YieldIsSpan(r, text, start, valueStart, valueEnd, from, end, ix, g);
    }
  }

  lemma SpanYields(r: CompiledRule, text: seq<byte>, start: int, valueStart: int, valueEnd: int)
    requires r.rule.maxMatchLen > 0 && MatchSpan(r, text, start) == Some((valueStart, valueEnd))
    ensures Yields(r, text, start, valueStart, valueEnd)
  {
    var from := if start - 1 < 0 then 0 else start - 1;
    var end := if start + r.rule.maxMatchLen + 1 > |text| then |text| else start + r.rule.maxMatchLen + 1;
    var ix := r.pattern(text[from..end]).value;
    var g := ReportedGroup(r.rule.matchGroup, ix);
    assert YieldsBy(r, text, start, valueStart, valueEnd, from, end, ix, g);
  }

  lemma YieldIsSpan(r: CompiledRule, text: seq<byte>, start: int, valueStart: int, valueEnd: int,
                    from: int, end: int, ix: seq<int>, g: int)
    requires r.rule.maxMatchLen > 0 && YieldsBy(r, text, start, valueStart, valueEnd, from, end, ix, g)
    ensures MatchSpan(r, text, start) == Some((valueStart, valueEnd))
  {
  }

  /** A scan reports exactly what noticed candidates yield. */
  lemma ReportedExactly(rules: seq<CompiledRule>, text: seq<byte>, k: CandidateKey)
    requires forall i :: 0 <= i < |rules| ==> rules[i].rule.maxMatchLen > 0
    ensures k in AllKeys(rules, text) <==>
              && k.ruleIndex < |rules|
              && exists start :: Noticed(rules, text, Candidate(k.ruleIndex, start), |text|)
                                 && Yields(rules[k.ruleIndex], text, start, k.start, k.end)
  {
    hide MatchSpan, Yields, Noticed;
    if k in AllKeys(rules, text) {
      var c :| c in Candidates(rules, text, |text|) && k in KeysAt(rules, text, c);
      SpanExactly(rules[k.ruleIndex], text, c.start, k.start, k.end);
      assert c == Candidate(k.ruleIndex, c.start);
    }
    if k.ruleIndex < |rules| {
      forall start | Noticed(rules, text, Candidate(k.ruleIndex, start), |text|)
                     && Yields(rules[k.ruleIndex], text, start, k.start, k.end)
        ensures k in AllKeys(rules, text)
      {
        SpanExactly(rules[k.ruleIndex], text, start, k.start, k.end);
        NoticedInside(rules, text, Candidate(k.ruleIndex, start));
        var c := Candidate(k.ruleIndex, start);
        assert c in Candidates(rules, text, |text|) && k in KeysAt(rules, text, c);
      }
    }
  }

  lemma NoticedInside(rules: seq<CompiledRule>, text: seq<byte>, c: Candidate)
    requires Noticed(rules, text, c, |text|)
    ensures c.ruleIndex < |rules| && 0 <= c.start < |text|
  {
  }

  /** f is a value of the text that the validators of its rule accept, with the name, class and confidence of the rule. */
  ghost predicate Genuine(rules: seq<CompiledRule>, text: seq<byte>, f: Finding) {
    exists i :: 0 <= i < |rules|
      && f.ruleID == rules[i].rule.id && f.class_ == rules[i].rule.class_ && f.confidence == rules[i].confidence
      && 0 <= f.start < f.end <= |text| && rules[i].rule.validate(text[f.start..f.end])
  }

  lemma KeyIsGenuine(rules: seq<CompiledRule>, text: seq<byte>, k: CandidateKey)
    requires (forall i :: 0 <= i < |rules| ==> rules[i].rule.maxMatchLen > 0) && k in AllKeys(rules, text)
    ensures Genuine(rules, text, FindingOf(rules, k))
  {
    ReportedExactly(rules, text, k);
    hide AllKeys, Noticed, WindowOf, ChosenGroup;
  }

  /** Every reported finding is genuine. */
  lemma {:induction false} ReportsAreGenuine(rules: seq<CompiledRule>, text: seq<byte>, findings: seq<Finding>)
    requires forall i :: 0 <= i < |rules| ==> rules[i].rule.maxMatchLen > 0
    requires multiset(findings) == Bag(rules, AllKeys(rules, text))
    ensures forall j :: 0 <= j < |findings| ==> Genuine(rules, text, findings[j])
  {
    hide AllKeys, Bag, Genuine, FindingOf;
    forall j | 0 <= j < |findings| ensures Genuine(rules, text, findings[j]) {
      assert findings[j] in multiset(findings);
      BagHas(rules, AllKeys(rules, text), findings[j]);
      var k :| k in AllKeys(rules, text) && findings[j] == FindingOf(rules, k);
      KeyIsGenuine(rules, text, k);
    }
  }

  // ----- The order of a result

  /** a is a proper beginning of b, or smaller where they first differ. */
  predicate ComesFirst(a: string, b: string) {
    exists i :: 0 <= i <= |a| && i < |b| && a[..i] == b[..i] && (i == |a| || a[i] < b[i])
  }

  lemma {:induction false} StringLessMeans(a: string, b: string)
    ensures StringLess(a, b) <==> ComesFirst(a, b)
  {
    if a != [] && b != [] && a[0] == b[0] {
      StringLessMeans(a[1..], b[1..]);
      if i :| 0 <= i <= |a[1..]| && i < |b[1..]| && a[1..][..i] == b[1..][..i] && (i == |a[1..]| || a[1..][i] < b[1..][i]) {
        assert a[..i + 1] == [a[0]] + a[1..][..i] && b[..i + 1] == [b[0]] + b[1..][..i];
        assert i + 1 == |a| || a[i + 1] < b[i + 1];
      }
      if i :| 0 <= i <= |a| && i < |b| && a[..i] == b[..i] && (i == |a| || a[i] < b[i]) {
        assert i > 0;
        assert a[1..][..i - 1] == a[..i][1..] == b[..i][1..] == b[1..][..i - 1];
      }
    } else if a == [] && b != [] {
      assert a[..0] == b[..0];
    } else if a != [] && b != [] {
      assert a[..0] == b[..0];
      if i :| 0 <= i <= |a| && i < |b| && a[..i] == b[..i] && (i == |a| || a[i] < b[i]) {
        assert i > 0 ==> a[..i][0] == b[..i][0];
      }
    }
  }

  /** By start, then by end, then by identifier. */
  ghost predicate Ascending(findings: seq<Finding>) {
    forall i, j :: 0 <= i < j < |findings| ==>
      var f, g := findings[i], findings[j];
      && f.start <= g.start
      && (f.start == g.start ==> f.end <= g.end && (f.end == g.end ==> !ComesFirst(g.ruleID, f.ruleID)))
  }

  lemma SortedAscends(findings: seq<Finding>)
    ensures SortedBy(findings, Before) <==> Ascending(findings)
  {
    hide StringLess, ComesFirst;
    forall f: Finding, g: Finding
      ensures !Before(g, f) <==>
                && f.start <= g.start
                && (f.start == g.start ==> f.end <= g.end && (f.end == g.end ==> !ComesFirst(g.ruleID, f.ruleID)))
    {
      StringLessMeans(g.ruleID, f.ruleID);
    }
  }
}
