/** When removing duplicates is harmless, exactly; and a request whose block it loses. */
module RequestExactly {
  import opened Bytes
  import opened Rules
  import opened Utf8
  import opened JsonString
  import opened JsonGrammar
  import opened RawMapping
  import opened GateSpec
  import opened Gate
  import opened Request
  import opened RequestBody
  import opened DocumentMask
  import opened JsonSyntax
  import opened JsonExample

  /** What scanning the texts of a body may give. */
  ghost predicate MayCollect(rules: seq<CompiledRule>, units: seq<ScanUnit>, bodyLen: nat, findings: seq<Finding>) {
    Collected(rules, units, bodyLen, findings) && Complete(rules, units, findings)
  }

  /** The verdict is that of the findings of the texts, and so is the cover unless the body is withheld. */
  ghost predicate RightCollection(rules: seq<CompiledRule>, policy: Policy, units: seq<ScanUnit>, findings: seq<Finding>) {
    && (AnyBlocks(policy, findings) <==> BlocksRequest(rules, policy, units))
    && (!BlocksRequest(rules, policy, units) ==> FindingCover(policy, findings) == RequestCover(rules, policy, units))
  }

  /** The same rules but for how and where they match. */
  ghost predicate SameNames(rules: seq<CompiledRule>, other: seq<CompiledRule>) {
    |rules| == |other| && forall i :: 0 <= i < |rules| ==>
      && other[i].rule.id == rules[i].rule.id && other[i].rule.class_ == rules[i].rule.class_
      && other[i].confidence == rules[i].confidence
  }

  // ----- Two rules that hit the same bytes in two texts

  /** Matches a quoted digit and reports the digit. */
  function Quoted(w: seq<byte>): (m: Option<seq<int>>)
    ensures m.Some? ==> GroupsInside(w, m.value)
  {
    if w == [34, 49, 34] then Some([1, 2]) else None
  }

  /** Matches a lone digit. */
  function Lone(w: seq<byte>): (m: Option<seq<int>>)
    ensures m.Some? ==> GroupsInside(w, m.value)
  {
    if w == [49] then Some([0, 1]) else None
  }

  function Digits(r: CompiledRule, p: Pattern): CompiledRule {
    r.(pattern := p, rule := r.rule.(prefilter := Digit, maxMatchLen := 1, matchGroup := 0, validate := (v => true)))
  }

  /** Rule `first` reports the quoted digit, rule `second` the lone digit, the other rules nothing. */
  function TwoMatch(rules: seq<CompiledRule>, first: nat, second: nat): seq<CompiledRule> {
    seq(|rules|, i requires 0 <= i < |rules| =>
      Digits(rules[i], if i == first then (w => Quoted(w)) else if i == second then (w => Lone(w)) else (w => None)))
  }

  /** The body {"input":{"arguments":"\"1\""}}: the arguments are a string that holds the JSON string "1". */
  const TEXT: seq<byte> := [34, 49, 34]
  const ARGUMENTS: seq<byte> := [97, 114, 103, 117, 109, 101, 110, 116, 115]
  const OUTER: JsonNode := JString(22, 29, 23, 28, TEXT, [ByteRange(23, 25), ByteRange(25, 26), ByteRange(26, 28)])
  const INNER: JsonNode := JString(0, 3, 1, 2, [49], [ByteRange(1, 2)])
  const ROOT: JsonNode := TwoLevelTree(INPUT, ARGUMENTS, OUTER)

  function BODY(): seq<byte> { TwoLevels(INPUT, ARGUMENTS, [34, 92, 34, 49, 92, 34, 34]) }

  /** The string and what it holds, in the order in which they are extracted. */
  function Texts(): (units: seq<ScanUnit>)
    ensures |units| == 2
  {
    [UnitOf(OUTER), ComposedUnit(INNER, OUTER)]
  }

  /** Decoding a literal whose first character stands for one ASCII byte. */
  lemma OneCharMore(s: seq<byte>, base: int, c: byte, n: nat, range: ByteRange, out: seq<byte>, ranges: seq<ByteRange>, len: nat)
    requires s != [] && s[0] != QUOTE && c < 0x80 && UnquoteChar(s) == Some((c as int, n))
    requires CharRanges(s[0], base, n, 1) == [range]
    requires Decode(s[n..], base + n) == Some(Unquoted(out, ranges, len))
    ensures Decode(s, base) == Some(Unquoted([c] + out, [range] + ranges, n + len))
  {
    hide UnquoteChar, CharRanges, Decode;
    DecodeOnce(s, base);
    assert EncodeRune(c as int) == [c];
  }

  lemma DecodeLast()
    ensures Decode([92, 34, 34, 125, 125], 26) == Some(Unquoted([34], [ByteRange(26, 28)], 2))
  {
    var s: seq<byte>, rest: seq<byte> := [92, 34, 34, 125, 125], [34, 125, 125];
    assert s[2..] == rest && Decode(rest, 28) == Some(Unquoted([], [], 0));
    RangeOfOne(BACKSLASH, 26, 2);
    EscapedQuote(s);
    hide *;
    OneCharMore(s, 26, 34, 2, ByteRange(26, 28), [], [], 0);
    assert [34 as byte] + [] == [34] && [ByteRange(26, 28)] + [] == [ByteRange(26, 28)];
  }

  lemma DecodeDigit()
    ensures Decode([49, 92, 34, 34, 125, 125], 25) == Some(Unquoted([49, 34], [ByteRange(25, 26), ByteRange(26, 28)], 3))
  {
    var s: seq<byte>, rest: seq<byte> := [49, 92, 34, 34, 125, 125], [92, 34, 34, 125, 125];
    hide *;
    assert s[1..] == rest;
    PlainDigit(s);
    RangeOfOne(49, 25, 1);
    DecodeLast();
    OneCharMore(s, 25, 49, 1, ByteRange(25, 26), [34], [ByteRange(26, 28)], 2);
    assert [49 as byte] + [34] == [49, 34];
    assert [ByteRange(25, 26)] + [ByteRange(26, 28)] == [ByteRange(25, 26), ByteRange(26, 28)];
  }

  lemma DecodeEscaped()
    ensures Decode([92, 34, 49, 92, 34, 34, 125, 125], 23)
         == Some(Unquoted(TEXT, [ByteRange(23, 25), ByteRange(25, 26), ByteRange(26, 28)], 5))
  {
    var s: seq<byte>, rest: seq<byte> := [92, 34, 49, 92, 34, 34, 125, 125], [49, 92, 34, 34, 125, 125];
    assert s[2..] == rest;
    RangeOfOne(BACKSLASH, 23, 2);
    EscapedQuote(s);
    assert [34 as byte] + [49, 34] == TEXT;
    hide *;
    DecodeDigit();
    OneCharMore(s, 23, 34, 2, ByteRange(23, 25), [49, 34], [ByteRange(25, 26), ByteRange(26, 28)], 3);
    assert [ByteRange(23, 25)] + [ByteRange(25, 26), ByteRange(26, 28)]
        == [ByteRange(23, 25), ByteRange(25, 26), ByteRange(26, 28)];
  }

  lemma RangeOfOne(first: byte, start: int, n: nat)
    requires first == BACKSLASH || n == 1
    ensures CharRanges(first, start, n, 1) == [ByteRange(start, start + n)]
  {
  }

  lemma PlainDigit(s: seq<byte>)
    requires s != [] && s[0] == 49
    ensures UnquoteChar(s) == Some((49, 1)) && s[0] != QUOTE && s[0] != BACKSLASH
  {
  }

  lemma EscapedQuote(s: seq<byte>)
    requires |s| > 1 && s[0] == BACKSLASH && s[1] == QUOTE
    ensures UnquoteChar(s) == Some((34, 2))
  {
  }

  lemma EscapedConforms()
    ensures ConformingText([92, 34, 49, 92, 34, 34, 125, 125])
  {
    var s: seq<byte> := [92, 34, 49, 92, 34, 34, 125, 125];
    var s1: seq<byte>, s2: seq<byte>, s3: seq<byte> := [49, 92, 34, 34, 125, 125], [92, 34, 34, 125, 125], [34, 125, 125];
    assert s[2..] == s1 && s1[1..] == s2 && s2[2..] == s3;
    EscapedQuote(s2);
    EscapedQuote(s);
    hide UnquoteChar;
    TextOnce(s3);
    TextOnce(s2);
    TextOnce(s1);
    TextOnce(s);
  }

  lemma BodyParts()
    ensures |BODY()| == 31 && BODY()[22] == QUOTE && BODY()[23..] == [92, 34, 49, 92, 34, 34, 125, 125]
  {
    var v: seq<byte> := [34, 92, 34, 49, 92, 34, 34];
    Layout(INPUT, ARGUMENTS, v);
    hide TwoLevels;
    assert BODY()[22] == BODY()[22..29][0] == v[0];
    assert BODY()[23..] == BODY()[22..][1..];
    assert (v + [125, 125])[1..] == [92, 34, 49, 92, 34, 34, 125, 125];
  }

  lemma OuterReads()
    ensures ReadFrom(OUTER, BODY()) && Conforms(OUTER, BODY())
  {
    hide Decode, ConformingText, BODY;
    DecodeEscaped();
    EscapedConforms();
    BodyParts();
  }

  /** The body is a document that passes the syntax check. */
  lemma BodyReads()
    ensures Document(ROOT, BODY()) && Conforms(ROOT, BODY())
  {
    OuterReads();
    hide ReadFrom, Conforms, TwoLevels;
    TwoLevelsRead(INPUT, ARGUMENTS, [34, 92, 34, 49, 92, 34, 34], OUTER);
  }

  lemma InnerDecodes()
    ensures Decode([49, 34], 1) == Some(Unquoted([49], [ByteRange(1, 2)], 1)) && ConformingText([49, 34])
  {
    var s0: seq<byte>, s1: seq<byte> := [49, 34], [34];
    assert s0[1..] == s1 && Decode(s1, 2) == Some(Unquoted([], [], 0));
    RangeOfOne(49, 1, 1);
    TextOnce(s1);
    TextOnce(s0);
    assert UnquoteChar(s0) == Some((49, 1));
    hide *;
    OneCharMore(s0, 1, 49, 1, ByteRange(1, 2), [], [], 0);
    assert [49 as byte] + [] == [49] && [ByteRange(1, 2)] + [] == [ByteRange(1, 2)];
  }

  lemma InnerReads()
    ensures Document(INNER, TEXT) && Conforms(INNER, TEXT)
  {
    hide Decode, ConformingText;
    InnerDecodes();
    assert TEXT[1..] == [49, 34];
  }

  lemma TextsMap()
    ensures Texts()[0].text == TEXT && Texts()[1].text == [49]
    ensures RawSpan(Texts()[0], 1, 2) == Some((25, 26)) && RawSpan(Texts()[1], 0, 1) == Some((25, 26))
  {
    assert Compose(OUTER.ranges, INNER.ranges) == [ByteRange(25, 26)];
  }

  lemma TextsExtracted()
    ensures Extracted(ROOT, Texts())
  {
    InnerReads();
    TwoLevelLeaf(INPUT, ARGUMENTS, OUTER);
    assert INNER in ScalarLeaves(INNER);
    DocumentReads(INNER, TEXT);
    hide ReadFrom, ScalarLeaves, TwoLevelTree, ComposedUnit, UnitOf, Extracted;
    WithItsJSON(ROOT, OUTER, INNER);
  }

  /** A string of a body and the JSON string it holds can be extracted. */
  lemma WithItsJSON(root: JsonNode, outer: JsonNode, inner: JsonNode)
    requires outer in ScalarLeaves(root) && outer.JString? && ReadFrom(inner, outer.text)
    requires inner in ScalarLeaves(inner) && (inner.JString? || inner.JNumber?)
    ensures Extracted(root, [UnitOf(outer), ComposedUnit(inner, outer)])
  {
    hide ReadFrom, ScalarLeaves, ComposedUnit, UnitOf;
    assert Direct(root, UnitOf(outer)) && Nested(root, ComposedUnit(inner, outer));
  }

  // ----- What is found in them

  /** What the rules match at the only digit of the texts. */
  lemma TwoSpans(rules: seq<CompiledRule>, first: nat, second: nat, i: nat)
    requires i < |rules| && first != second
    ensures MatchSpan(TwoMatch(rules, first, second)[i], TEXT, 1) == if i == first then Some((1, 2)) else None
    ensures MatchSpan(TwoMatch(rules, first, second)[i], [49], 0) == if i == second then Some((0, 1)) else None
  {
    var text: seq<byte> := [49];
    assert TEXT[0..3] == TEXT && text[0..1] == text;
  }

  lemma OnlyDigit(rules: seq<CompiledRule>, first: nat, second: nat, c: Candidate)
    ensures Noticed(TwoMatch(rules, first, second), TEXT, c, 3) <==> c.ruleIndex < |rules| && c.start == 1
    ensures Noticed(TwoMatch(rules, first, second), [49], c, 1) <==> c.ruleIndex < |rules| && c.start == 0
  {
  }

  lemma OneKey(rules: seq<CompiledRule>, text: seq<byte>, start: nat, r: nat, end: int)
    requires r < |rules| && start < |text|
    requires forall c :: Noticed(rules, text, c, |text|) <==> c.ruleIndex < |rules| && c.start == start
    requires forall i: nat :: i < |rules| ==>
               MatchSpan(rules[i], text, start) == if i == r then Some((start as int, end)) else None
    ensures AllKeys(rules, text) == {CandidateKey(r, start, end)}
  {
    hide MatchSpan, Noticed;
    var c := Candidate(r, start);
    assert c in Candidates(rules, text, |text|) && CandidateKey(r, start, end) in KeysAt(rules, text, c);
    forall k | k in AllKeys(rules, text) ensures k == CandidateKey(r, start, end) {
      var d :| d in Candidates(rules, text, |text|) && k in KeysAt(rules, text, d);
    }
  }

  lemma QuotedKeys(rules: seq<CompiledRule>, first: nat, second: nat)
    requires first < |rules| && second < |rules| && first != second
    ensures AllKeys(TwoMatch(rules, first, second), TEXT) == {CandidateKey(first, 1, 2)}
    ensures AllKeys(TwoMatch(rules, first, second), [49]) == {CandidateKey(second, 0, 1)}
  {
    var other := TwoMatch(rules, first, second);
    forall i: nat | i < |rules|
      ensures MatchSpan(other[i], TEXT, 1) == if i == first then Some((1, 2)) else None
      ensures MatchSpan(other[i], [49], 0) == if i == second then Some((0, 1)) else None
    {
      TwoSpans(rules, first, second, i);
    }
    forall c
      ensures Noticed(other, TEXT, c, 3) <==> c.ruleIndex < |other| && c.start == 1
      ensures Noticed(other, [49], c, 1) <==> c.ruleIndex < |other| && c.start == 0
    {
      OnlyDigit(rules, first, second, c);
    }
    hide MatchSpan, Noticed, TwoMatch, AllKeys;
    OneKey(other, TEXT, 1, first, 2);
    OneKey(other, [49], 0, second, 1);
  }

  function FirstFound(rules: seq<CompiledRule>, first: nat): Finding
    requires first < |rules|
  {
    Finding(rules[first].rule.id, rules[first].rule.class_, 1, 2, rules[first].confidence)
  }

  function SecondFound(rules: seq<CompiledRule>, second: nat): Finding
    requires second < |rules|
  {
    Finding(rules[second].rule.id, rules[second].rule.class_, 0, 1, rules[second].confidence)
  }

  /** Each text has one finding. */
  lemma OneEach(rules: seq<CompiledRule>, first: nat, second: nat, i: nat, g: Finding)
    requires first < |rules| && second < |rules| && first != second && i < 2
    ensures FoundIn(TwoMatch(rules, first, second), Texts()[i], g)
            <==> g == if i == 0 then FirstFound(rules, first) else SecondFound(rules, second)
  {
    var other := TwoMatch(rules, first, second);
    TextsMap();
    QuotedKeys(rules, first, second);
    hide AllKeys, Texts, RawSpan, TwoMatch, FirstFound, SecondFound;
    TheirFindings(rules, first, second);
    OneFinding(other, Texts()[i], if i == 0 then CandidateKey(first, 1, 2) else CandidateKey(second, 0, 1), g);
  }

  lemma TheirFindings(rules: seq<CompiledRule>, first: nat, second: nat)
    requires first < |rules| && second < |rules|
    ensures |TwoMatch(rules, first, second)| == |rules|
    ensures FindingOf(TwoMatch(rules, first, second), CandidateKey(first, 1, 2)) == FirstFound(rules, first)
    ensures FindingOf(TwoMatch(rules, first, second), CandidateKey(second, 0, 1)) == SecondFound(rules, second)
  {
  }

  lemma OneFinding(rules: seq<CompiledRule>, u: ScanUnit, k: CandidateKey, g: Finding)
    requires AllKeys(rules, u.text) == {k}
    ensures FoundIn(rules, u, g) <==> g == FindingOf(rules, k)
  {
    BagHas(rules, {k}, g);
    hide AllKeys, Bag, FindingOf;
  }

  function Reported(rules: seq<CompiledRule>, first: nat): Finding
    requires first < |rules|
  {
    FirstFound(rules, first).(start := 25, end := 26)
  }

  lemma BothMapThere(rules: seq<CompiledRule>, first: nat, second: nat)
    requires first < |rules| && second < |rules| && rules[first].rule.id == rules[second].rule.id
    ensures Mapped(Texts()[0], FirstFound(rules, first)) == Reported(rules, first)
    ensures Mapped(Texts()[1], SecondFound(rules, second)) == SecondFound(rules, second).(start := 25, end := 26)
    ensures SameKey(Reported(rules, first), Mapped(Texts()[1], SecondFound(rules, second)))
  {
    TextsMap();
    hide Texts, Extracted, RawSpan;
  }

  /** If the two rules share their identifier, only the finding of the first is reported. */
  lemma OnlyFirst(rules: seq<CompiledRule>, first: nat, second: nat, findings: seq<Finding>)
    requires first < |rules| && second < |rules| && first != second && rules[first].rule.id == rules[second].rule.id
    ensures MayCollect(TwoMatch(rules, first, second), Texts(), |BODY()|, findings) <==> findings == [Reported(rules, first)]
  {
    BothMapThere(rules, first, second);
    var other, units, f := TwoMatch(rules, first, second), Texts(), Reported(rules, first);
    var a, b := FirstFound(rules, first), SecondFound(rules, second);
    assert f.start == 25 && f.end == 26;
    forall i: nat, g | i < 2 ensures FoundIn(other, units[i], g) <==> g == if i == 0 then a else b {
      OneEach(rules, first, second, i, g);
    }
    hide TwoMatch, Texts, FirstFound, SecondFound, Reported;
    OneReported(other, units, a, b, f, findings);
  }

  /** Two units with one finding each, that map to the same rule and span: the first is reported, and only it. */
  lemma OneReported(other: seq<CompiledRule>, units: seq<ScanUnit>, a: Finding, b: Finding, f: Finding, findings: seq<Finding>)
    requires |units| == 2 && forall i: nat, g :: i < 2 ==> (FoundIn(other, units[i], g) <==> g == if i == 0 then a else b)
    requires Mapped(units[0], a) == f && SameKey(f, Mapped(units[1], b)) && 0 <= f.start < f.end <= |BODY()|
    ensures MayCollect(other, units, |BODY()|, findings) <==> findings == [f]
  {
    hide FoundIn, Mapped;
    assert FoundIn(other, units[0], a) && FoundIn(other, units[1], b);
    if MayCollect(other, units, |BODY()|, findings) {
      assert Has(findings, Mapped(units[0], a));
      forall j | 0 <= j < |findings| ensures findings[j] == f {
        assert Maps(other, units, findings[j]);
        var i, g :| Source(other, units, i, g, findings[j]);
      }
      OneAlone(findings, f);
    }
    if findings == [f] {
      assert Source(other, units, 0, a, findings[0]);
      forall i, g | 0 <= i < 2 && FoundIn(other, units[i], g) ensures Has(findings, Mapped(units[i], g)) {
        assert SameKey(findings[0], Mapped(units[i], g));
      }
    }
  }

  lemma OneAlone(findings: seq<Finding>, f: Finding)
    requires findings != [] && forall j :: 0 <= j < |findings| ==> findings[j] == f
    requires forall i, j :: 0 <= i < j < |findings| ==> !SameKey(findings[i], findings[j])
    ensures findings == [f]
  {
    assert |findings| > 1 ==> !SameKey(findings[0], findings[1]);
  }

  // ----- A block that is lost

  /** Two rules with one identifier, of which the policy blocks only the second: the request holds a finding that blocks, but
      what is collected never does, and the request is sent on. */
  lemma BlockLost(policy: Policy, rules: seq<CompiledRule>, first: nat, second: nat)
    requires first < |rules| && second < |rules| && rules[first].rule.id == rules[second].rule.id
    requires ActionOf(policy, rules[first]) != Block && ActionOf(policy, rules[second]) == Block
    ensures Document(ROOT, BODY()) && Conforms(ROOT, BODY()) && Extracted(ROOT, Texts())
    ensures var other := TwoMatch(rules, first, second);
            && BlocksRequest(other, policy, Texts())
            && MayCollect(other, Texts(), |BODY()|, [Reported(rules, first)])
            && forall findings :: MayCollect(other, Texts(), |BODY()|, findings) ==> !AnyBlocks(policy, findings)
  {
    BodyReads();
    TextsExtracted();
    hide Conforms, MayCollect, FoundIn, TwoMatch, Texts, Document, Extracted, BlocksRequest;
    BlockAsked(policy, rules, first, second);
    OnlyFirst(rules, first, second, [Reported(rules, first)]);
    forall findings | MayCollect(TwoMatch(rules, first, second), Texts(), |BODY()|, findings)
      ensures !AnyBlocks(policy, findings)
    {
      OnlyFirst(rules, first, second, findings);
    }
  }

  lemma BlockAsked(policy: Policy, rules: seq<CompiledRule>, first: nat, second: nat)
    requires first < |rules| && second < |rules| && first != second && ActionOf(policy, rules[second]) == Block
    ensures BlocksRequest(TwoMatch(rules, first, second), policy, Texts())
  {
    OneEach(rules, first, second, 1, SecondFound(rules, second));
    hide FoundIn, TwoMatch, Texts;
    assert Blocks(policy, SecondFound(rules, second));
  }

  /** Likewise a mask is lost to a finding that is only logged. */
  lemma MaskLost(policy: Policy, rules: seq<CompiledRule>, first: nat, second: nat)
    requires first < |rules| && second < |rules| && rules[first].rule.id == rules[second].rule.id
    requires ActionOf(policy, rules[first]) == LogOnly && ActionOf(policy, rules[second]) == Mask
    ensures Document(ROOT, BODY()) && Conforms(ROOT, BODY()) && Extracted(ROOT, Texts())
    ensures var other := TwoMatch(rules, first, second);
            && 25 in RequestCover(other, policy, Texts()) && !BlocksRequest(other, policy, Texts())
            && MayCollect(other, Texts(), |BODY()|, [Reported(rules, first)])
            && 25 !in FindingCover(policy, [Reported(rules, first)])
  {
    BodyReads();
    TextsExtracted();
    hide Conforms;
    OnlyFirst(rules, first, second, [Reported(rules, first)]);
    MaskAsked(policy, rules, first, second);
    hide MayCollect, TwoMatch, Texts, Document, Extracted, BlocksRequest, RequestCover;
    var f := Reported(rules, first);
    assert !Masks(policy, f);
  }

  /** The second finding asks for a mask, and neither blocks. */
  lemma MaskAsked(policy: Policy, rules: seq<CompiledRule>, first: nat, second: nat)
    requires first < |rules| && second < |rules| && rules[first].rule.id == rules[second].rule.id
    requires ActionOf(policy, rules[first]) == LogOnly && ActionOf(policy, rules[second]) == Mask
    ensures var other := TwoMatch(rules, first, second);
            25 in RequestCover(other, policy, Texts()) && !BlocksRequest(other, policy, Texts())
  {
    BothMapThere(rules, first, second);
    var other, units := TwoMatch(rules, first, second), Texts();
    var a, b := FirstFound(rules, first), SecondFound(rules, second);
    forall i: nat, g | i < 2 ensures FoundIn(other, units[i], g) <==> g == if i == 0 then a else b {
      OneEach(rules, first, second, i, g);
    }
    assert Masks(policy, b) && !Blocks(policy, a) && !Blocks(policy, b);
    hide FoundIn, TwoMatch, Texts, Mapped, FirstFound, SecondFound, Blocks, Masks;
    assert FoundIn(other, units[1], b);
    assert MasksByte(other, policy, units, 25);
  }

  // ----- Exactly when nothing is lost

  /** Which rules there are matters only by name: the outcome is right for all expressions and all bodies if and only if the
      policy treats rules with the same identifier alike. */
  lemma AlikeExactly(policy: Policy, rules: seq<CompiledRule>)
    ensures (forall other, root, body: seq<byte>, units, findings ::
               (SameNames(rules, other) && Document(root, body) && Conforms(root, body) && Extracted(root, units)
                && MayCollect(other, units, |body|, findings)) ==> RightCollection(other, policy, units, findings))
            <==> Alike(policy, rules)
  {
    hide Document, Conforms, Extracted, MayCollect, RightCollection;
    if Alike(policy, rules) {
      forall other, root, body: seq<byte>, units, findings |
        SameNames(rules, other) && Document(root, body) && Conforms(root, body) && Extracted(root, units)
        && MayCollect(other, units, |body|, findings)
        ensures RightCollection(other, policy, units, findings)
      {
        AlikeIsRight(policy, rules, other, units, |body|, findings);
      }
    } else {
      var i, j :| 0 <= i < |rules| && 0 <= j < |rules| && rules[i].rule.id == rules[j].rule.id
                  && ActionOf(policy, rules[i]) != ActionOf(policy, rules[j]);
      if ActionOf(policy, rules[i]) == Block || (ActionOf(policy, rules[i]) == Mask && ActionOf(policy, rules[j]) == LogOnly) {
        Lost(policy, rules, j, i);
      } else {
        Lost(policy, rules, i, j);
      }
    }
  }

  lemma AlikeIsRight(policy: Policy, rules: seq<CompiledRule>, other: seq<CompiledRule>, units: seq<ScanUnit>, bodyLen: nat,
                     findings: seq<Finding>)
    requires SameNames(rules, other) && Alike(policy, rules) && MayCollect(other, units, bodyLen, findings)
    ensures RightCollection(other, policy, units, findings)
  {
    assert Alike(policy, other);
    hide Alike, Collected, Complete, AnyBlocks, BlocksRequest, FindingCover, RequestCover;
    BlockedAlike(other, policy, units, bodyLen, findings);
    MaskedAlike(other, policy, units, bodyLen, findings);
  }

  lemma TwoMatchNames(rules: seq<CompiledRule>, first: nat, second: nat)
    ensures SameNames(rules, TwoMatch(rules, first, second))
  {
  }

  lemma Lost(policy: Policy, rules: seq<CompiledRule>, first: nat, second: nat)
    requires first < |rules| && second < |rules| && rules[first].rule.id == rules[second].rule.id
    requires (ActionOf(policy, rules[second]) == Block && ActionOf(policy, rules[first]) != Block)
             || (ActionOf(policy, rules[second]) == Mask && ActionOf(policy, rules[first]) == LogOnly)
    ensures var other, findings := TwoMatch(rules, first, second), [Reported(rules, first)];
            && SameNames(rules, other) && Document(ROOT, BODY()) && Conforms(ROOT, BODY()) && Extracted(ROOT, Texts())
            && MayCollect(other, Texts(), |BODY()|, findings) && !RightCollection(other, policy, Texts(), findings)
  {
    TwoMatchNames(rules, first, second);
    hide SameNames, Document, Conforms, Extracted, MayCollect, TwoMatch, AnyBlocks, BlocksRequest, FindingCover,
         RequestCover, Reported, Texts;
    if ActionOf(policy, rules[second]) == Block {
      BlockLost(policy, rules, first, second);
    } else {
      MaskLost(policy, rules, first, second);
    }
  }
}
