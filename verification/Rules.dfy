/** Rules, candidates and windows: what a scan has to find, said without an automaton or a stream. */
module Rules {
  import opened Bytes
  import opened Sorting

  datatype Option<+T> = None | Some(value: T)

  // ----- Rules

  /** What the regular-expression engine promises of the group offsets it reports for a window. */
  predicate GroupsInside(w: seq<byte>, ix: seq<int>) {
    && |ix| >= 2 && |ix| % 2 == 0
    && 0 <= ix[0] <= ix[1] <= |w|
    && forall g :: 0 <= g < |ix| / 2 ==> ix[2 * g] < 0 || ix[0] <= ix[2 * g] <= ix[2 * g + 1] <= ix[1]
  }

  /** A compiled regular expression: a function of the window bytes to group offsets, -1 for no match of a group. */
  type Pattern = f: seq<byte> -> Option<seq<int>>
    | forall w :: f(w).Some? ==> GroupsInside(w, f(w).value)
    witness (w => None)

  datatype Prefilter = Literal | Digit | Iban | Unsupported

  /** pattern is None when the expression does not compile. */
  datatype Rule = Rule(id: string, class_: string, patternText: string, pattern: Option<Pattern>, maxMatchLen: int,
                       keywords: seq<seq<byte>>, prefilter: Prefilter, validate: seq<byte> -> bool,
                       confidence: real, matchGroup: int)

  datatype CompiledRule = CompiledRule(rule: Rule, pattern: Pattern, confidence: real)

  datatype Finding = Finding(ruleID: string, class_: string, start: int, end: int, confidence: real)

  predicate IsDigitCandidateStart(text: seq<byte>, pos: nat)
    requires pos < |text|
  {
    IsDigit(text[pos]) && (pos == 0 || !IsDigit(text[pos - 1]))
  }

  predicate IsIBANCandidateStart(text: seq<byte>, pos: nat) {
    && pos + 3 < |text|
    && !(pos > 0 && IsAlphaNum(text[pos - 1]))
    && IsUpper(text[pos]) && IsUpper(text[pos + 1]) && IsDigit(text[pos + 2]) && IsDigit(text[pos + 3])
  }

  // ----- One candidate

  /** A rule to be tried at a position. */
  datatype Candidate = Candidate(ruleIndex: nat, start: int)

  /** What identifies a finding while scanning. */
  datatype CandidateKey = CandidateKey(ruleIndex: nat, start: int, end: int)

  function ScanWindowLen(maxMatchLen: int): int { maxMatchLen + 1 }

  /** The group that becomes the finding: the rule's match group if it took part, otherwise the whole match. */
  function ReportedGroup(group: int, ix: seq<int>): (g: nat)
    requires |ix| >= 2 && |ix| % 2 == 0
    ensures 2 * g + 1 < |ix| && (g == 0 || ix[2 * g] >= 0)
  {
    if group < 0 || group * 2 + 1 >= |ix| || ix[group * 2] < 0 then 0 else group
  }

  /** The span rule r finds at a candidate position: its window is the longest value plus one byte on each side. */
  function MatchSpan(r: CompiledRule, text: seq<byte>, start: int): (span: Option<(int, int)>)
    ensures span.Some? ==> 0 <= start <= span.value.0 < span.value.1 <= |text|
    ensures span.Some? ==> span.value.1 <= start + ScanWindowLen(r.rule.maxMatchLen)
  {
    if start < 0 || start >= |text| || r.rule.maxMatchLen <= 0 then None else
    var from := if start - 1 < 0 then 0 else start - 1;
    var to := if start + ScanWindowLen(r.rule.maxMatchLen) > |text| then |text|
              else start + ScanWindowLen(r.rule.maxMatchLen);
    var m := r.pattern(text[from..to]);
    if m.None? || from + m.value[0] < start then None else
    var g := ReportedGroup(r.rule.matchGroup, m.value);
    assert g == (2 * g) / 2 < |m.value| / 2;
    var matchStart, matchEnd := from + m.value[2 * g], from + m.value[2 * g + 1];
    if matchStart == matchEnd || !r.rule.validate(text[matchStart..matchEnd]) then None
    else Some((matchStart, matchEnd))
  }

  /** Scanning a candidate depends on nothing to the right of its window. */
  lemma MatchSpanLocal(r: CompiledRule, text: seq<byte>, longer: seq<byte>, start: int)
    requires text <= longer
    requires start + ScanWindowLen(r.rule.maxMatchLen) <= |text|
    ensures MatchSpan(r, text, start) == MatchSpan(r, longer, start)
  {
    if 0 <= start && r.rule.maxMatchLen > 0 {
      var from := if start - 1 < 0 then 0 else start - 1;
      var to := start + ScanWindowLen(r.rule.maxMatchLen);
      assert text[from..to] == longer[from..to];
      var m := r.pattern(text[from..to]);
      if m.Some? {
        var g := ReportedGroup(r.rule.matchGroup, m.value);
        assert g == (2 * g) / 2 < |m.value| / 2;
        assert text[from + m.value[2 * g]..from + m.value[2 * g + 1]]
            == longer[from + m.value[2 * g]..from + m.value[2 * g + 1]];
      }
    }
  }

  // ----- All candidates of a text

  /** Keyword k of a literal rule occurs at start, case folded, ending within the first n bytes. */
  predicate OccursAt(k: seq<byte>, text: seq<byte>, start: int, n: nat)
    requires n <= |text|
  {
    k != [] && 0 <= start <= start + |k| <= n && Fold(text[start..start + |k|]) == Fold(k)
  }

  /** The first n bytes of text are enough to notice candidate c. */
  ghost predicate Noticed(rules: seq<CompiledRule>, text: seq<byte>, c: Candidate, n: nat)
    requires n <= |text|
  {
    && c.ruleIndex < |rules| && 0 <= c.start < n
    && var rule := rules[c.ruleIndex].rule;
       match rule.prefilter
       case Literal => exists j :: 0 <= j < |rule.keywords| && OccursAt(rule.keywords[j], text, c.start, n)
       case Digit => IsDigitCandidateStart(text, c.start)
       case Iban => IsIBANCandidateStart(text, c.start)
       case Unsupported => false
  }

  ghost function Candidates(rules: seq<CompiledRule>, text: seq<byte>, n: nat): set<Candidate>
    requires n <= |text|
  {
    set ri, start | 0 <= ri < |rules| && 0 <= start < n && Noticed(rules, text, Candidate(ri, start), n) :: Candidate(ri, start)
  }

  /** The key found at a candidate: at most one. */
  ghost function KeysAt(rules: seq<CompiledRule>, text: seq<byte>, c: Candidate): set<CandidateKey> {
    if c.ruleIndex >= |rules| then {} else
    match MatchSpan(rules[c.ruleIndex], text, c.start)
    case None => {}
    case Some(span) => {CandidateKey(c.ruleIndex, span.0, span.1)}
  }

  ghost function KeysOf(rules: seq<CompiledRule>, text: seq<byte>, cs: set<Candidate>): set<CandidateKey> {
    set c, k | c in cs && k in KeysAt(rules, text, c) :: k
  }

  /** Everything a scan of text must report. */
  ghost function AllKeys(rules: seq<CompiledRule>, text: seq<byte>): set<CandidateKey> {
    KeysOf(rules, text, Candidates(rules, text, |text|))
  }

  // ----- From keys to findings

  function FindingOf(rules: seq<CompiledRule>, k: CandidateKey): Finding {
    if k.ruleIndex < |rules| then
      var r := rules[k.ruleIndex];
      Finding(r.rule.id, r.rule.class_, k.start, k.end, r.confidence)
    else Finding("", "", k.start, k.end, 0.0)
  }

  /** One finding for each key. */
  ghost function Bag(rules: seq<CompiledRule>, keys: set<CandidateKey>): multiset<Finding> {
    if keys == {} then multiset{} else
    var k :| k in keys;
    Bag(rules, keys - {k}) + multiset{FindingOf(rules, k)}
  }

  lemma {:induction false} BagAdd(rules: seq<CompiledRule>, keys: set<CandidateKey>, k: CandidateKey)
    requires k !in keys
    ensures Bag(rules, keys + {k}) == Bag(rules, keys) + multiset{FindingOf(rules, k)}
    decreases |keys|
  {
    var all := keys + {k};
    var j :| j in all && Bag(rules, all) == Bag(rules, all - {j}) + multiset{FindingOf(rules, j)};
    if j == k {
      assert all - {j} == keys;
    } else {
      assert all - {j} == (keys - {j}) + {k};
      BagAdd(rules, keys - {j}, k);
      assert (keys - {j}) + {j} == keys;
      BagAdd(rules, keys - {j}, j);
    }
  }

  lemma {:induction false} BagHas(rules: seq<CompiledRule>, keys: set<CandidateKey>, f: Finding)
    ensures f in Bag(rules, keys) <==> exists k :: k in keys && f == FindingOf(rules, k)
    decreases |keys|
  {
    if keys != {} {
      var k :| k in keys && Bag(rules, keys) == Bag(rules, keys - {k}) + multiset{FindingOf(rules, k)};
      BagHas(rules, keys - {k}, f);
    }
  }

  // ----- The order of a result

  predicate StringLess(a: string, b: string) {
    b != [] && (a == [] || a[0] < b[0] || (a[0] == b[0] && StringLess(a[1..], b[1..])))
  }

  predicate Before(f: Finding, g: Finding) {
    || f.start < g.start
    || (f.start == g.start && (f.end < g.end || (f.end == g.end && StringLess(f.ruleID, g.ruleID))))
  }

  lemma {:induction false} StringOrder(a: string, b: string, c: string)
    ensures StringLess(a, b) ==> !StringLess(b, a)
    ensures !StringLess(b, a) && !StringLess(c, b) ==> !StringLess(c, a)
    ensures !StringLess(a, b) && !StringLess(b, a) ==> a == b
  {
    if a != [] && b != [] {
      StringOrder(a[1..], b[1..], if c == [] then [] else c[1..]);
      assert a == [a[0]] + a[1..] && b == [b[0]] + b[1..];
    }
  }

  lemma BeforeIsComparison()
    ensures Comparison(Before)
  {
    forall f, g, h
      ensures Before(f, g) ==> !Before(g, f)
      ensures !Before(g, f) && !Before(h, g) ==> !Before(h, f)
    {
      StringOrder(f.ruleID, g.ruleID, h.ruleID);
    }
  }

  ghost predicate DistinctIDs(rules: seq<CompiledRule>) {
    forall i, j :: 0 <= i < j < |rules| ==> rules[i].rule.id != rules[j].rule.id
  }
}
