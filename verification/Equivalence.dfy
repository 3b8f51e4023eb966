/** Streaming equals batch, for every way of cutting the text into chunks. */
module Equivalence {
  import opened Bytes
  import opened Sorting
  import opened Rules
  import opened Matching
  import opened Holding
  import opened Streaming

  function Flatten<T>(parts: seq<seq<T>>): seq<T> {
    if parts == [] then [] else Flatten(parts[..|parts| - 1]) + parts[|parts| - 1]
  }

  lemma {:induction false} FlattenFirst<T>(parts: seq<seq<T>>)
    requires parts != []
    ensures Flatten(parts) == parts[0] + Flatten(parts[1..])
  {
    if |parts| > 1 {
      FlattenFirst(parts[..|parts| - 1]);
      assert parts[..|parts| - 1][1..] == parts[1..][..|parts| - 2];
    }
  }

  /** A run of the streaming scanner over any chunks, empty ones included: together the calls report the findings
      of the whole text once each, and every hold-back length is a function of the text fed up to then. */
  method ScanChunks(m: Matcher, chunks: seq<seq<byte>>)
    returns (outputs: seq<seq<Finding>>, holds: seq<int>, last: seq<Finding>)
    requires m.Valid()
    ensures |outputs| == |holds| == |chunks|
    ensures multiset(Flatten(outputs)) + multiset(last) == Bag(m.rules, AllKeys(m.rules, Flatten(chunks)))
    ensures forall i :: 0 <= i < |chunks| ==> SortedBy(outputs[i], Before)
    ensures SortedBy(last, Before)
    ensures forall i :: 0 <= i < |chunks| ==>
              var text := Flatten(chunks[..i + 1]); holds[i] == |text| - SafeEnd(m.rules, text)
  {
    hide *;
    var s := new StreamScan(m);
    outputs, holds := [], [];
    var text := [];
    StartRun(m.rules, chunks, outputs);
    for i := 0 to |chunks|
      invariant m.Valid() && s.Valid() && s.m == m && fresh(s) && |outputs| == |holds| == i
      invariant s.fed == text == Flatten(chunks[..i])
      invariant multiset(Flatten(outputs)) == Bag(m.rules, s.seen)
      invariant forall j :: 0 <= j < i ==> SortedBy(outputs[j], Before)
      invariant forall j :: 0 <= j < i ==>
                  var t := Flatten(chunks[..j + 1]); holds[j] == |t| - SafeEnd(m.rules, t)
    {
      FlattenStep(chunks, i);
      text := text + chunks[i];
      ghost var seen := s.seen;
      var findings, hold := s.Feed(chunks[i], text);
      FlattenAppend(outputs, findings);
      outputs, holds := outputs + [findings], holds + [hold];
    }
    assert chunks[..|chunks|] == chunks;
    last := s.Finalize(text);
  }

  lemma StartRun(rules: seq<CompiledRule>, chunks: seq<seq<byte>>, outputs: seq<seq<Finding>>)
    requires outputs == []
    ensures Flatten(chunks[..0]) == [] && multiset(Flatten(outputs)) == Bag(rules, {})
  {
  }

  lemma FlattenStep<T>(parts: seq<seq<T>>, i: nat)
    requires i < |parts|
    ensures Flatten(parts[..i + 1]) == Flatten(parts[..i]) + parts[i]
  {
    assert parts[..i + 1][..i] == parts[..i];
  }

  lemma FlattenAppend<T>(parts: seq<seq<T>>, part: seq<T>)
    ensures Flatten(parts + [part]) == Flatten(parts) + part
    ensures multiset(Flatten(parts + [part])) == multiset(Flatten(parts)) + multiset(part)
  {
    assert (parts + [part])[..|parts|] == parts;
  }

  /** When rule identifiers are distinct, sorting leaves no choice: any two complete sorted results are equal. */
  lemma SortedResultsAgree(rules: seq<CompiledRule>, text: seq<byte>, a: seq<Finding>, b: seq<Finding>)
    requires DistinctIDs(rules)
    requires SortedBy(a, Before) && multiset(a) == Bag(rules, AllKeys(rules, text))
    requires SortedBy(b, Before) && multiset(b) == Bag(rules, AllKeys(rules, text))
    ensures a == b
  {
    forall f, g | f in a && g in a && !Before(f, g) && !Before(g, f) ensures f == g {
      assert f in multiset(a) && g in multiset(a);
      TiesAreEqual(rules, text, f, g);
    }
    hide Before, Bag, AllKeys;
    SortedUnique(a, b, Before);
  }

  lemma TiesAreEqual(rules: seq<CompiledRule>, text: seq<byte>, f: Finding, g: Finding)
    requires DistinctIDs(rules)
    requires f in Bag(rules, AllKeys(rules, text)) && g in Bag(rules, AllKeys(rules, text))
    requires !Before(f, g) && !Before(g, f)
    ensures f == g
  {
    hide AllKeys, Bag;
    var j := KeyOf(rules, text, f);
    var k := KeyOf(rules, text, g);
    StringOrder(f.ruleID, g.ruleID, "");
    assert j.ruleIndex == k.ruleIndex;
  }

  lemma KeyOf(rules: seq<CompiledRule>, text: seq<byte>, f: Finding) returns (k: CandidateKey)
    requires f in Bag(rules, AllKeys(rules, text))
    ensures k.ruleIndex < |rules| && f == FindingOf(rules, k)
  {
    hide Bag;
    BagHas(rules, AllKeys(rules, text), f);
    k :| k in AllKeys(rules, text) && f == FindingOf(rules, k);
  }

  /** The streamed findings, put in order, are what Find returns on the reassembled text. */
  method StreamThenSort(m: Matcher, chunks: seq<seq<byte>>) returns (streamed: seq<Finding>, batch: seq<Finding>)
    requires m.Valid()
    ensures multiset(streamed) == multiset(batch) == Bag(m.rules, AllKeys(m.rules, Flatten(chunks)))
    ensures DistinctIDs(m.rules) ==> streamed == batch
  {
    hide *;
    var outputs, holds, last := ScanChunks(m, chunks);
    streamed := SortFindings(Flatten(outputs) + last);
    batch := m.Find(Flatten(chunks));
    if DistinctIDs(m.rules) {
      SortedResultsAgree(m.rules, Flatten(chunks), streamed, batch);
    }
  }
}
