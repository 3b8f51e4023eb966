/** Overwriting byte ranges with '*': sort the spans, merge them, rewrite. */
module SpanMask {
  import opened Bytes
  import opened Sorting
  import opened Rules

  const STAR: byte := 42

  datatype Span = Span(start: int, end: int)

  function SpanOf(f: Finding): Span { Span(f.start, f.end) }

  ghost predicate Covered(spans: seq<Span>, p: int) {
    exists i :: 0 <= i < |spans| && Contains(spans[i], p)
  }

  predicate Contains(s: Span, p: int) { s.start <= p < s.end }

  ghost function Inside(s: Span): iset<int> { iset p | Contains(s, p) }

  /** The positions some span covers. */
  ghost function Cover(spans: seq<Span>): iset<int> { iset p | Covered(spans, p) }

  /** Byte i of text is byte base + i of a larger text; the bytes in `cover` become '*'. */
  ghost function Masked(text: seq<byte>, cover: iset<int>, base: int): (r: seq<byte>)
    ensures |r| == |text|
  {
    seq(|text|, i requires 0 <= i < |text| => if base + i in cover then STAR else text[i])
  }

  /** Some position from `from` up to `to` is covered. */
  ghost predicate Touches(cover: iset<int>, from: int, to: int) {
    exists q :: from <= q < to && q in cover
  }

  lemma UntouchedMask(text: seq<byte>, cover: iset<int>, base: int)
    requires !Touches(cover, base, base + |text|)
    ensures Masked(text, cover, base) == text
  {
  }

  predicate StartsBefore(s: Span, t: Span) { s.start < t.start }

  ghost predicate InRange(spans: seq<Span>, n: int) {
    forall i :: 0 <= i < |spans| ==> 0 <= spans[i].start <= spans[i].end <= n
  }

  /** In order, with a gap between any two. */
  ghost predicate Separate(spans: seq<Span>) {
    forall i, j :: 0 <= i < j < |spans| ==> spans[i].end < spans[j].start
  }

  lemma SameElementsSameCover(s: seq<Span>, t: seq<Span>, n: int)
    requires multiset(s) == multiset(t) && InRange(s, n)
    ensures InRange(t, n) && Cover(s) == Cover(t)
  {
    forall i | 0 <= i < |t| ensures t[i] in s { assert t[i] in multiset(t); }
    forall i | 0 <= i < |s| ensures s[i] in t { assert s[i] in multiset(s); }
  }

  lemma CoverOne(spans: seq<Span>, s: Span)
    ensures Cover(spans + [s]) == Cover(spans) + Inside(s)
  {
    var all := spans + [s];
    assert all[|spans|] == s;
    forall p ensures Covered(all, p) <==> Covered(spans, p) || Contains(s, p) {
      if Covered(spans, p) {
        var i :| 0 <= i < |spans| && Contains(spans[i], p);
        assert all[i] == spans[i];
      }
    }
  }

  /** Joins s, which starts no earlier than the last span, to it if they overlap or touch. */
  function Join(merged: seq<Span>, s: Span): seq<Span>
    requires |merged| > 0
  {
    var last := merged[|merged| - 1];
    if s.start > last.end then merged + [s]
    else if s.end > last.end then merged[..|merged| - 1] + [Span(last.start, s.end)]
    else merged
  }

  lemma JoinCovers(merged: seq<Span>, s: Span)
    requires |merged| > 0 && merged[|merged| - 1].start <= s.start
    ensures Cover(Join(merged, s)) == Cover(merged) + Inside(s)
  {
    var front, last := merged[..|merged| - 1], merged[|merged| - 1];
    assert merged == front + [last];
    CoverOne(merged, s);
    CoverOne(front, last);
    CoverOne(front, Span(last.start, s.end));
  }

  lemma JoinKeeps(merged: seq<Span>, s: Span, n: int)
    requires |merged| > 0 && merged[|merged| - 1].start <= s.start
    requires InRange(merged, n) && Separate(merged) && 0 <= s.start <= s.end <= n
    ensures var joined := Join(merged, s);
            |joined| > 0 && InRange(joined, n) && Separate(joined) && joined[|joined| - 1].start <= s.start
  {
  }

  method SortSpans(spans: seq<Span>, ghost n: int) returns (sorted: seq<Span>)
    requires InRange(spans, n)
    ensures |sorted| == |spans| && InRange(sorted, n) && Cover(sorted) == Cover(spans)
    ensures forall i :: 0 < i < |sorted| ==> sorted[i - 1].start <= sorted[i].start
  {
    assert Comparison(StartsBefore);
    sorted := Sort(spans, StartsBefore);
    SameElementsSameCover(spans, sorted, n);
    assert |multiset(sorted)| == |multiset(spans)|;
    forall i | 0 < i < |sorted| ensures sorted[i - 1].start <= sorted[i].start {
      assert !StartsBefore(sorted[i], sorted[i - 1]);
    }
  }

  lemma OneSpan(s: Span)
    ensures Separate([s])
  {
  }

  /** Sorts by start and joins overlapping and touching spans. */
  method Merge(spans: seq<Span>, ghost n: int) returns (merged: seq<Span>)
    requires |spans| > 0 && InRange(spans, n)
    ensures |merged| > 0 && InRange(merged, n) && Separate(merged)
    ensures Cover(merged) == Cover(spans)
  {
    var sorted := SortSpans(spans, n);
    hide Join, Cover, Inside, Separate;
    merged := [sorted[0]];
    assert sorted[..1] == merged && Separate(merged) by { OneSpan(sorted[0]); }
    for i := 1 to |sorted|
      invariant |merged| > 0 && InRange(merged, n) && Separate(merged)
      invariant Cover(merged) == Cover(sorted[..i])
      invariant merged[|merged| - 1].start <= sorted[i - 1].start
    {
      assert sorted[..i + 1] == sorted[..i] + [sorted[i]];
      CoverOne(sorted[..i], sorted[i]);
      JoinCovers(merged, sorted[i]);
      JoinKeeps(merged, sorted[i], n);
      merged := Join(merged, sorted[i]);
    }
    assert sorted[..|sorted|] == sorted;
  }

  /** Between two neighbouring spans nothing is covered, and inside a span everything is. */
  lemma Gap(merged: seq<Span>, i: nat, p: int)
    requires i <= |merged| && Separate(merged)
    requires forall j :: 0 <= j < |merged| ==> merged[j].start <= merged[j].end
    ensures (i == 0 || merged[i - 1].end <= p) && (i == |merged| || p < merged[i].start) ==> p !in Cover(merged)
    ensures i < |merged| && Contains(merged[i], p) ==> p in Cover(merged)
  {
  }

  /** Masks the spans of the findings in a request or response body. */
  method MaskBody(body: seq<byte>, findings: seq<Finding>) returns (masked: seq<byte>)
    requires |findings| > 0 && InRange(Spans(findings), |body|)
    ensures masked == Masked(body, Cover(Spans(findings)), 0)
    ensures |masked| == |body|
    ensures forall p :: 0 <= p < |body| ==>
              masked[p] as int == if Found(findings, p) then '*' as int else body[p] as int
  {
    SpansFound(findings);
    hide Found;
    var spans := [];
    for i := 0 to |findings|
      invariant spans == Spans(findings[..i])
    {
      assert findings[..i + 1] == findings[..i] + [findings[i]];
      spans := spans + [SpanOf(findings[i])];
    }
    assert findings[..|findings|] == findings;
    var merged := Merge(spans, |body|);
    var pos := 0;
    masked := [];
    for i := 0 to |merged|
      invariant 0 <= pos == |masked| <= |body|
      invariant pos == if i == 0 then 0 else merged[i - 1].end
      invariant i < |merged| ==> pos <= merged[i].start
      invariant masked == Masked(body, Cover(merged), 0)[..pos]
    {
      var s := merged[i];
      forall p | pos <= p < s.end ensures p in Cover(merged) <==> s.start <= p {
        Gap(merged, i, p);
      }
      masked := masked + body[pos..s.start] + seq(s.end - s.start, _ => STAR);
      pos := s.end;
    }
    forall p | pos <= p ensures p !in Cover(merged) {
      Gap(merged, |merged|, p);
    }
    masked := masked + body[pos..];
  }

  /** Byte p belongs to a finding. */
  ghost predicate Found(findings: seq<Finding>, p: int) {
    exists i :: 0 <= i < |findings| && findings[i].start <= p < findings[i].end
  }

  lemma SpansFound(findings: seq<Finding>)
    ensures forall p :: p in Cover(Spans(findings)) <==> Found(findings, p)
  {
    forall p ensures p in Cover(Spans(findings)) <==> Found(findings, p) {
      if i :| 0 <= i < |findings| && findings[i].start <= p < findings[i].end {
        assert Contains(Spans(findings)[i], p);
      }
    }
  }

  function Spans(findings: seq<Finding>): seq<Span> {
    seq(|findings|, i requires 0 <= i < |findings| => SpanOf(findings[i]))
  }

  /** A span of the whole text, clipped to the piece of n bytes that begins at base. */
  function Clip(s: Span, base: int, n: nat): Span {
    Span(if s.start - base < 0 then 0 else s.start - base, if s.end - base > n then n else s.end - base)
  }

  /** The clipped spans that are left, and what they cover. */
  method ClipAll(local: seq<Span>, base: int, n: nat) returns (spans: seq<Span>)
    ensures InRange(spans, n)
    ensures forall p :: 0 <= p < n ==> (p in Cover(spans) <==> base + p in Cover(local))
    ensures |spans| > 0 <==> Touches(Cover(local), base, base + n)
  {
    spans := [];
    for i := 0 to |local|
      invariant InRange(spans, n)
      invariant forall j :: 0 <= j < |spans| ==> spans[j].start < spans[j].end
      invariant forall p :: 0 <= p < n ==> (p in Cover(spans) <==> base + p in Cover(local[..i]))
    {
      var s := Clip(local[i], base, n);
      assert local[..i + 1] == local[..i] + [local[i]];
      CoverOne(local[..i], local[i]);
      CoverOne(spans, s);
      if s.start < s.end {
        spans := spans + [s];
      }
    }
    assert local[..|local|] == local;
    if |spans| > 0 {
      assert Contains(spans[0], spans[0].start) && spans[0].start in Cover(spans);
      assert base + spans[0].start in Cover(local);
    }
    if q :| base <= q < base + n && q in Cover(local) {
      assert base + (q - base) == q && q - base in Cover(spans);
    }
  }

  /** Masks one carrier string in place; reports whether any span touched it. */
  method MaskStringOffsets(content: seq<byte>, local: seq<Span>, base: int) returns (masked: seq<byte>, hadOverlap: bool)
    ensures masked == Masked(content, Cover(local), base)
    ensures hadOverlap <==> Touches(Cover(local), base, base + |content|)
  {
    var spans := ClipAll(local, base, |content|);
    if |spans| == 0 {
      UntouchedMask(content, Cover(local), base);
      return content, false;
    }
    var merged := Merge(spans, |content|);
    var bytes := new byte[|content|](i requires 0 <= i < |content| => content[i]);
    for j := 0 to |merged|
      invariant forall p :: 0 <= p < |content| ==> bytes[p] == if Covered(merged[..j], p) then STAR else content[p]
    {
      var s := merged[j];
      assert merged[..j + 1] == merged[..j] + [s];
      CoverOne(merged[..j], s);
      for i := s.start to s.end
        invariant forall p :: 0 <= p < |content| ==>
                    bytes[p] == if p in Cover(merged[..j]) || s.start <= p < i then STAR else content[p]
      {
        bytes[i] := STAR;
      }
      assert forall p :: 0 <= p < |content| ==> (p in Cover(merged[..j + 1]) <==> p in Cover(merged[..j]) || Contains(s, p));
    }
    assert merged[..|merged|] == merged;
    masked, hadOverlap := bytes[..], true;
    forall p | 0 <= p < |content| ensures masked[p] == Masked(content, Cover(local), base)[p] {
      assert p in Cover(spans) <==> Covered(merged, p);
    }
  }

  // ----- Events with several carriers

  /** The decoded text of an event: its string carriers, in order; a choice without one contributes nothing. */
  function Joined(choices: seq<Option<seq<byte>>>): seq<byte> {
    if choices == [] then []
    else Joined(choices[..|choices| - 1]) + Piece(choices[|choices| - 1])
  }

  function Piece(choice: Option<seq<byte>>): seq<byte> {
    if choice.Some? then choice.value else []
  }

  /** Each string carrier masked where it lies in the decoded text. */
  ghost function MaskedChoices(choices: seq<Option<seq<byte>>>, cover: iset<int>): (r: seq<Option<seq<byte>>>)
    ensures |r| == |choices|
  {
    if choices == [] then [] else
    var front, last := choices[..|choices| - 1], choices[|choices| - 1];
    MaskedChoices(front, cover) + [if last.Some? then Some(Masked(last.value, cover, |Joined(front)|)) else None]
  }

  method MaskOpenAIChat(choices: seq<Option<seq<byte>>>, local: seq<Span>)
    returns (masked: seq<Option<seq<byte>>>, applied: bool)
    ensures masked == MaskedChoices(choices, Cover(local))
    ensures applied <==> Touches(Cover(local), 0, |Joined(choices)|)
  {
    masked, applied := choices, false;
    var offset := 0;
    assert choices[..0] == [];
    for i := 0 to |choices|
      invariant |masked| == |choices| && offset == |Joined(choices[..i])|
      invariant masked[..i] == MaskedChoices(choices[..i], Cover(local))
      invariant forall j :: i <= j < |choices| ==> masked[j] == choices[j]
      invariant applied <==> Touches(Cover(local), 0, offset)
    {
      assert choices[..i + 1][..i] == choices[..i] && masked[i] == choices[i];
      if choices[i].Some? {
        var content := choices[i].value;
        var m, hadOverlap := MaskStringOffsets(content, local, offset);
        if hadOverlap {
          masked := masked[i := Some(m)];
          applied := true;
        } else {
          UntouchedMask(content, Cover(local), offset);
        }
        offset := offset + |content|;
      }
    }
    assert choices[..|choices|] == choices && masked[..|choices|] == masked;
  }

  /** Masking each carrier and joining is joining and masking: a span may straddle carriers. */
  lemma {:induction false} MaskingCommutesWithJoining(choices: seq<Option<seq<byte>>>, cover: iset<int>)
    ensures Joined(MaskedChoices(choices, cover)) == Masked(Joined(choices), cover, 0)
  {
    if choices != [] {
      var front, last := choices[..|choices| - 1], choices[|choices| - 1];
      MaskingCommutesWithJoining(front, cover);
      var masked := MaskedChoices(choices, cover);
      assert masked[..|masked| - 1] == MaskedChoices(front, cover);
      assert Masked(Joined(front) + Piece(last), cover, 0)
          == Masked(Joined(front), cover, 0) + Masked(Piece(last), cover, |Joined(front)|);
    }
  }
}
