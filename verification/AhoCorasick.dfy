/** The keyword prefilter: a trie with failure links, built breadth first. */
module AhoCorasick {
  import opened Bytes

  datatype KeywordHit = KeywordHit(ruleIndex: nat, length: nat)
  datatype Keyword = Keyword(word: seq<byte>, ruleIndex: nat)
  datatype Node = Node(next: map<byte, nat>, fail: nat, depth: nat, out: seq<KeywordHit>)

  // ----- What the automaton is for, with no automaton in sight

  /** p is a prefix of some keyword (the empty string always is). */
  ghost predicate Live(kws: seq<Keyword>, p: seq<byte>) {
    p == [] || exists i :: 0 <= i < |kws| && p <= kws[i].word
  }

  ghost predicate IsSuffix(q: seq<byte>, s: seq<byte>) {
    |q| <= |s| && q == s[|s| - |q|..]
  }

  ghost predicate NonEmptyWords(kws: seq<Keyword>) {
    forall i :: 0 <= i < |kws| ==> kws[i].word != []
  }

  /** The longest suffix of s that is a prefix of some keyword. */
  ghost function LongestLive(kws: seq<Keyword>, s: seq<byte>): (r: seq<byte>)
    ensures Live(kws, r) && IsSuffix(r, s)
  {
    if Live(kws, s) then s else LongestLive(kws, s[1..])
  }

  lemma {:induction false} LongestLiveIsLongest(kws: seq<Keyword>, s: seq<byte>, q: seq<byte>)
    requires Live(kws, q) && IsSuffix(q, s)
    ensures IsSuffix(q, LongestLive(kws, s))
    decreases |s|
  {
    if !Live(kws, s) {
      assert q != s;
      assert s[|s| - |s|..] == s;
      assert q == s[1..][|s| - 1 - |q|..];
      LongestLiveIsLongest(kws, s[1..], q);
    }
  }

  lemma LivePrefix(kws: seq<Keyword>, p: seq<byte>, q: seq<byte>)
    requires Live(kws, q) && p <= q
    ensures Live(kws, p)
  {
  }

  /** One more byte can be taken from the longest live suffix alone: nothing older matters. */
  lemma {:induction false} LongestLiveStep(kws: seq<Keyword>, s: seq<byte>, b: byte)
    ensures LongestLive(kws, s + [b]) == LongestLive(kws, LongestLive(kws, s) + [b])
    decreases |s|
  {
    if !Live(kws, s) {
      if Live(kws, s + [b]) {
        LivePrefix(kws, s, s + [b]);
      }
      assert (s + [b])[1..] == s[1..] + [b];
      LongestLiveStep(kws, s[1..], b);
    }
  }

  /** The hits of the keywords equal to p, in the order they were added. */
  ghost function Hits(kws: seq<Keyword>, p: seq<byte>): seq<KeywordHit> {
    if kws == [] then []
    else
      var last := kws[|kws| - 1];
      Hits(kws[..|kws| - 1], p) + (if last.word == p then [KeywordHit(last.ruleIndex, |p|)] else [])
  }

  /** The longest live proper suffix: where the failure link of p leads. */
  ghost function FailPath(kws: seq<Keyword>, p: seq<byte>): (f: seq<byte>)
    ensures Live(kws, f) && (p != [] ==> |f| < |p|)
  {
    if p == [] then [] else LongestLive(kws, p[1..])
  }

  /** What a built node with path p lists: its own hits, then those of its failure node. */
  ghost function OutAt(kws: seq<Keyword>, p: seq<byte>): seq<KeywordHit>
    decreases |p|
  {
    Hits(kws, p) + if p == [] then [] else OutAt(kws, FailPath(kws, p))
  }

  ghost predicate EndsHere(kws: seq<Keyword>, s: seq<byte>, h: KeywordHit) {
    exists i :: 0 <= i < |kws| && IsSuffix(kws[i].word, s) && h == KeywordHit(kws[i].ruleIndex, |kws[i].word|)
  }

  lemma {:induction false} HitsExact(kws: seq<Keyword>, p: seq<byte>, h: KeywordHit)
    ensures h in Hits(kws, p) <==>
            exists i :: 0 <= i < |kws| && kws[i].word == p && h == KeywordHit(kws[i].ruleIndex, |p|)
  {
    if kws != [] {
      HitsExact(kws[..|kws| - 1], p, h);
      assert forall i :: 0 <= i < |kws| - 1 ==> kws[..|kws| - 1][i] == kws[i];
    }
  }

  /** The keywords that end s are those that end its longest live suffix. */
  lemma {:induction false} EndsLongestLive(kws: seq<Keyword>, s: seq<byte>, h: KeywordHit)
    ensures EndsHere(kws, s, h) <==> EndsHere(kws, LongestLive(kws, s), h)
  {
    var p := LongestLive(kws, s);
    hide LongestLive;
    forall i | 0 <= i < |kws| ensures IsSuffix(kws[i].word, s) <==> IsSuffix(kws[i].word, p) {
      var w := kws[i].word;
      assert Live(kws, w);
      if IsSuffix(w, s) {
        LongestLiveIsLongest(kws, s, w);
      }
      SuffixOfSuffix(w, p, s);
    }
  }

  lemma SuffixOfSuffix(q: seq<byte>, r: seq<byte>, s: seq<byte>)
    requires IsSuffix(r, s)
    ensures IsSuffix(q, r) ==> IsSuffix(q, s)
  {
  }

  /** A keyword that ends p is p itself or ends what follows the first byte. */
  lemma {:induction false} EndsSplit(kws: seq<Keyword>, p: seq<byte>, h: KeywordHit)
    requires p != []
    ensures EndsHere(kws, p, h) <==> h in Hits(kws, p) || EndsHere(kws, p[1..], h)
  {
    HitsExact(kws, p, h);
    hide Hits;
    forall i | 0 <= i < |kws|
      ensures IsSuffix(kws[i].word, p) <==> kws[i].word == p || IsSuffix(kws[i].word, p[1..])
    {
    }
  }

  /** A state's `out` lists exactly the keywords that end the input which led to it. */
  lemma {:induction false} OutExact(kws: seq<Keyword>, s: seq<byte>, h: KeywordHit)
    requires NonEmptyWords(kws)
    ensures h in OutAt(kws, LongestLive(kws, s)) <==> EndsHere(kws, s, h)
    decreases |LongestLive(kws, s)|
  {
    var p := LongestLive(kws, s);
    EndsLongestLive(kws, s, h);
    HitsExact(kws, p, h);
    if p != [] {
      EndsSplit(kws, p, h);
      OutExact(kws, p[1..], h);
    }
  }

  // ----- The trie

  /** The nodes are exactly the live strings, one each: `index` is `paths` read backwards. */
  ghost predicate Naming(paths: seq<seq<byte>>, index: map<seq<byte>, nat>, kws: seq<Keyword>) {
    && |paths| >= 1
    && paths[0] == []
    && (forall i :: 0 <= i < |paths| ==> paths[i] in index && index[paths[i]] == i)
    && (forall p :: p in index ==> index[p] < |paths| && paths[index[p]] == p)
    && (forall p :: p in index <==> Live(kws, p))
  }

  /** Node i has an edge for b exactly when its path followed by b is live. */
  ghost predicate Edges(node: Node, path: seq<byte>, index: map<seq<byte>, nat>) {
    && node.depth == |path|
    && (forall b :: b in node.next <==> path + [b] in index)
    && (forall b :: b in node.next ==> node.next[b] == index[path + [b]])
  }

  ghost predicate Trie(nodes: seq<Node>, paths: seq<seq<byte>>, index: map<seq<byte>, nat>, kws: seq<Keyword>) {
    && |nodes| == |paths|
    && Naming(paths, index, kws)
    && (forall i :: 0 <= i < |nodes| ==> Edges(nodes[i], paths[i], index))
  }

  ghost predicate Unlinked(nodes: seq<Node>, paths: seq<seq<byte>>, kws: seq<Keyword>, n: nat)
    requires n < |nodes| == |paths|
  {
    nodes[n].fail == 0 && nodes[n].out == Hits(kws, paths[n])
  }

  /** The failure link and the output list a node must have once built. */
  ghost predicate Linked(nodes: seq<Node>, paths: seq<seq<byte>>, index: map<seq<byte>, nat>, kws: seq<Keyword>, n: nat)
    requires n < |nodes| == |paths|
  {
    && FailPath(kws, paths[n]) in index
    && nodes[n].fail == index[FailPath(kws, paths[n])]
    && nodes[n].out == OutAt(kws, paths[n])
  }

  /** Appending a keyword makes exactly its prefixes live. */
  lemma LiveAppend(kws: seq<Keyword>, k: Keyword, p: seq<byte>)
    ensures Live(kws + [k], p) <==> Live(kws, p) || p <= k.word
  {
    var all := kws + [k];
    if p != [] && Live(kws, p) {
      var i :| 0 <= i < |kws| && p <= kws[i].word;
      assert p <= all[i].word;
    }
    if p <= k.word {
      assert p <= all[|kws|].word;
    }
  }

  lemma NoHits(kws: seq<Keyword>, word: seq<byte>, r: nat, p: seq<byte>)
    requires !Live(kws + [Keyword(word, r)], p)
    ensures Hits(kws, p) == []
  {
    LiveAppend(kws, Keyword(word, r), p);
    if Hits(kws, p) != [] {
      HitsExact(kws, p, Hits(kws, p)[0]);
      assert false;
    }
  }

  /** Lengthening the last keyword by one byte makes exactly one more string live. */
  lemma GrowLive(kws: seq<Keyword>, word: seq<byte>, i: nat, r: nat)
    requires i < |word|
    ensures forall p :: Live(kws + [Keyword(word[..i + 1], r)], p)
                        <==> Live(kws + [Keyword(word[..i], r)], p) || p == word[..i + 1]
  {
    forall p
      ensures Live(kws + [Keyword(word[..i + 1], r)], p)
              <==> Live(kws + [Keyword(word[..i], r)], p) || p == word[..i + 1]
    {
      LiveAppend(kws, Keyword(word[..i + 1], r), p);
      LiveAppend(kws, Keyword(word[..i], r), p);
      if p <= word[..i + 1] && |p| <= i { assert p == word[..i + 1][..|p|] == word[..i][..|p|]; }
    }
  }

  function Grown(nodes: seq<Node>, node: nat, b: byte, depth: nat): seq<Node>
    requires node < |nodes|
  {
    nodes[node := nodes[node].(next := nodes[node].next[b := |nodes|])] + [Node(map[], 0, depth, [])]
  }

  lemma GrowNaming(paths: seq<seq<byte>>, index: map<seq<byte>, nat>, kws: seq<Keyword>, word: seq<byte>, r: nat, i: nat)
    requires i < |word| && word[..i + 1] !in index
    requires Naming(paths, index, kws + [Keyword(word[..i], r)])
    ensures Naming(paths + [word[..i + 1]], index[word[..i + 1] := |paths|], kws + [Keyword(word[..i + 1], r)])
  {
    GrowLive(kws, word, i, r);
  }

  lemma SameNaming(paths: seq<seq<byte>>, index: map<seq<byte>, nat>, kws: seq<Keyword>, word: seq<byte>, r: nat, i: nat)
    requires i < |word| && word[..i + 1] in index
    requires Naming(paths, index, kws + [Keyword(word[..i], r)])
    ensures Naming(paths, index, kws + [Keyword(word[..i + 1], r)])
  {
    GrowLive(kws, word, i, r);
  }

  lemma WordAdded(kws: seq<Keyword>, word: seq<byte>, r: nat)
    requires NonEmptyWords(kws) && word != []
    ensures NonEmptyWords(kws + [Keyword(word, r)])
  {
  }

  lemma StartWord(nodes: seq<Node>, paths: seq<seq<byte>>, index: map<seq<byte>, nat>, kws: seq<Keyword>,
                  word: seq<byte>, r: nat)
    requires Trie(nodes, paths, index, kws)
    ensures Trie(nodes, paths, index, kws + [Keyword(word[..0], r)])
    ensures |paths| == |nodes| > 0 && paths[0] == []
  {
    forall p ensures Live(kws + [Keyword(word[..0], r)], p) <==> Live(kws, p) {
      LiveAppend(kws, Keyword(word[..0], r), p);
    }
  }

  /** The edge for the next byte of a keyword is already there: only the set of keywords grows. */
  lemma FollowEdge(nodes: seq<Node>, paths: seq<seq<byte>>, index: map<seq<byte>, nat>, kws: seq<Keyword>,
                   word: seq<byte>, r: nat, i: nat, node: nat)
    requires i < |word| && node < |nodes| == |paths| && paths[node] == word[..i]
    requires Trie(nodes, paths, index, kws + [Keyword(word[..i], r)])
    requires word[i] in nodes[node].next
    ensures Trie(nodes, paths, index, kws + [Keyword(word[..i + 1], r)])
    ensures var next := nodes[node].next[word[i]]; next < |nodes| && paths[next] == word[..i + 1]
  {
    hide Naming, Edges;
    var p := word[..i + 1];
    assert p == word[..i] + [word[i]];
    ChildEdge(nodes, paths, index, kws + [Keyword(word[..i], r)], node, word[i]);
    TrieParts(nodes, paths, index, kws + [Keyword(word[..i], r)]);
    Named(paths, index, kws + [Keyword(word[..i], r)], nodes[node].next[word[i]]);
    SameNaming(paths, index, kws, word, r, i);
  }

  lemma Named(paths: seq<seq<byte>>, index: map<seq<byte>, nat>, kws: seq<Keyword>, n: nat)
    requires Naming(paths, index, kws) && n < |paths|
    ensures paths[n] in index && index[paths[n]] == n
  {
    hide Live;
  }

  /** Adding the missing edge for the next byte of a keyword keeps the trie a trie. */
  lemma GrowTrie(nodes: seq<Node>, paths: seq<seq<byte>>, index: map<seq<byte>, nat>, kws: seq<Keyword>,
                 word: seq<byte>, r: nat, i: nat, node: nat)
    requires i < |word| && node < |nodes| == |paths| && paths[node] == word[..i]
    requires Trie(nodes, paths, index, kws + [Keyword(word[..i], r)])
    requires word[i] !in nodes[node].next
    requires forall n :: 0 <= n < |nodes| ==> Unlinked(nodes, paths, kws, n)
    ensures var nodes', paths' := Grown(nodes, node, word[i], i + 1), paths + [word[..i + 1]];
            && Trie(nodes', paths', index[word[..i + 1] := |nodes|], kws + [Keyword(word[..i + 1], r)])
            && |nodes'| == |paths'| == |nodes| + 1 && paths'[|nodes|] == word[..i + 1]
            && forall n :: 0 <= n < |nodes'| ==> Unlinked(nodes', paths', kws, n)
  {
    var p, nodes', paths' := word[..i + 1], Grown(nodes, node, word[i], i + 1), paths + [word[..i + 1]];
    assert p == word[..i] + [word[i]];
    assert Edges(nodes[node], paths[node], index);
    NoHits(kws, word[..i], r, p);
    forall n | 0 <= n < |nodes'| ensures Unlinked(nodes', paths', kws, n) {
      if n < |nodes| { assert Unlinked(nodes, paths, kws, n); }
    }
    hide Unlinked;
    GrowNaming(paths, index, kws, word, r, i);
    forall j | 0 <= j < |nodes'|
      ensures Edges(nodes'[j], paths'[j], index[p := |nodes|])
    {
      GrowEdges(nodes, paths, index, kws, word, r, i, node, j);
    }
  }

  lemma GrowEdges(nodes: seq<Node>, paths: seq<seq<byte>>, index: map<seq<byte>, nat>, kws: seq<Keyword>,
                  word: seq<byte>, r: nat, i: nat, node: nat, j: nat)
    requires i < |word| && node < |nodes| == |paths| && paths[node] == word[..i]
    requires Trie(nodes, paths, index, kws + [Keyword(word[..i], r)])
    requires word[i] !in nodes[node].next && word[..i + 1] !in index
    requires j <= |nodes|
    ensures Edges(Grown(nodes, node, word[i], i + 1)[j], (paths + [word[..i + 1]])[j], index[word[..i + 1] := |nodes|])
  {
    var p := word[..i + 1];
    assert p == word[..i] + [word[i]];
    if j == |nodes| {
      forall c ensures p + [c] !in index {
        if p + [c] in index {
          LivePrefix(kws + [Keyword(word[..i], r)], p, p + [c]);
        }
      }
    } else {
      assert Edges(nodes[j], paths[j], index);
      forall c | paths[j] + [c] == p ensures j == node && c == word[i] {
        assert paths[j] == p[..i] == word[..i] && c == p[i];
        assert index[paths[node]] == node && index[paths[j]] == j;
      }
    }
  }

  /** Recording the keyword at its own node keeps every output list exact. */
  lemma RecordHit(nodes: seq<Node>, paths: seq<seq<byte>>, index: map<seq<byte>, nat>, kws: seq<Keyword>,
                  k: Keyword, node: nat)
    requires Trie(nodes, paths, index, kws + [k])
    requires node < |nodes| == |paths| && paths[node] == k.word
    requires forall n :: 0 <= n < |nodes| ==> Unlinked(nodes, paths, kws, n)
    ensures var nodes' := nodes[node := nodes[node].(out := nodes[node].out + [KeywordHit(k.ruleIndex, |k.word|)])];
            && Trie(nodes', paths, index, kws + [k])
            && forall n :: 0 <= n < |nodes'| ==> Unlinked(nodes', paths, kws + [k], n)
  {
    assert (kws + [k])[..|kws|] == kws;
    var nodes' := nodes[node := nodes[node].(out := nodes[node].out + [KeywordHit(k.ruleIndex, |k.word|)])];
    forall n | 0 <= n < |nodes'|
      ensures Unlinked(nodes', paths, kws + [k], n) && Edges(nodes'[n], paths[n], index)
    {
      assert Unlinked(nodes, paths, kws, n) && Edges(nodes[n], paths[n], index);
      assert index[paths[n]] == n && index[paths[node]] == node;
    }
  }

  // ----- Breadth-first order

  /** The parent of n has been expanded, or is being expanded and the edge to n has been followed;
      `rest` are the edges of `current` still to be followed. */
  ghost predicate Expanded(paths: seq<seq<byte>>, index: map<seq<byte>, nat>, n: nat,
                           expanded: set<nat>, current: nat, rest: set<byte>)
  {
    && n < |paths| && paths[n] != []
    && var p := paths[n];
       && p[..|p| - 1] in index
       && var parent := index[p[..|p| - 1]];
          parent in expanded || (parent == current && p[|p| - 1] !in rest)
  }

  ghost predicate ByDepth(paths: seq<seq<byte>>, queue: seq<nat>) {
    && (forall i :: 0 <= i < |queue| ==> 0 < queue[i] < |paths|)
    && (forall i, j :: 0 <= i < j < |queue| ==> queue[i] != queue[j])
    && (forall i, j :: 0 <= i < j < |queue| ==> |paths[queue[i]]| <= |paths[queue[j]]|)
  }

  lemma AppendByDepth(paths: seq<seq<byte>>, queue: seq<nat>, child: nat)
    requires ByDepth(paths, queue) && 0 < child < |paths| && child !in queue
    requires forall i :: 0 <= i < |queue| ==> |paths[queue[i]]| <= |paths[child]|
    ensures ByDepth(paths, queue + [child])
  {
  }

  /** The queue holds, once each and by depth, exactly the nodes reached from expanded parents. */
  ghost predicate Frontier(paths: seq<seq<byte>>, index: map<seq<byte>, nat>,
                           queue: seq<nat>, expanded: set<nat>, current: nat, rest: set<byte>)
  {
    && ByDepth(paths, queue)
    && forall n :: 0 < n < |paths| ==> (n in queue <==> Expanded(paths, index, n, expanded, current, rest))
  }

  lemma ParentEdge(nodes: seq<Node>, paths: seq<seq<byte>>, index: map<seq<byte>, nat>, kws: seq<Keyword>, n: nat)
    requires Trie(nodes, paths, index, kws) && 0 < n < |nodes|
    ensures paths[n] != []
    ensures var p := paths[n]; var b := p[|p| - 1];
            && p[..|p| - 1] in index
            && var up := index[p[..|p| - 1]];
               && b in nodes[up].next && nodes[up].next[b] == n && paths[up] + [b] == p
  {
    var p := paths[n];
    assert index[p] == n && index[paths[0]] == 0;
    LivePrefix(kws, p[..|p| - 1], p);
    assert p[..|p| - 1] + [p[|p| - 1]] == p;
  }

  lemma ChildEdge(nodes: seq<Node>, paths: seq<seq<byte>>, index: map<seq<byte>, nat>, kws: seq<Keyword>,
                  current: nat, b: byte)
    requires Trie(nodes, paths, index, kws)
    requires current < |nodes| && b in nodes[current].next
    ensures var child := nodes[current].next[b];
            && 0 < child < |nodes| && paths[child] == paths[current] + [b]
            && paths[current] in index && index[paths[current]] == current
  {
    hide Live;
    assert Edges(nodes[current], paths[current], index);
  }

  /** Following the edge to `child` changes what has been reached by exactly that node. */
  lemma ReachOne(nodes: seq<Node>, paths: seq<seq<byte>>, index: map<seq<byte>, nat>, kws: seq<Keyword>,
                 expanded: set<nat>, current: nat, rest: set<byte>, b: byte, n: nat)
    requires Trie(nodes, paths, index, kws) && 0 < n < |nodes|
    requires current < |nodes| && current !in expanded
    requires b in rest && b in nodes[current].next
    ensures Expanded(paths, index, n, expanded, current, rest - {b})
            <==> Expanded(paths, index, n, expanded, current, rest) || n == nodes[current].next[b]
    ensures !Expanded(paths, index, nodes[current].next[b], expanded, current, rest)
  {
    var child := nodes[current].next[b];
    hide Live, Edges;
    ParentEdge(nodes, paths, index, kws, n);
    ChildEdge(nodes, paths, index, kws, current, b);
    hide Naming;
    assert paths[child][..|paths[child]| - 1] == paths[current];
  }

  /** Following one more edge of `current` keeps the frontier. */
  lemma Enqueue(nodes: seq<Node>, paths: seq<seq<byte>>, index: map<seq<byte>, nat>, kws: seq<Keyword>,
                queue: seq<nat>, expanded: set<nat>, current: nat, rest: set<byte>, b: byte)
    requires Trie(nodes, paths, index, kws)
    requires Frontier(paths, index, queue, expanded, current, rest)
    requires current < |nodes| && current !in expanded
    requires b in rest && b in nodes[current].next
    requires forall i :: 0 <= i < |queue| ==> |paths[queue[i]]| <= |paths[current]| + 1
    ensures Frontier(paths, index, queue + [nodes[current].next[b]], expanded, current, rest - {b})
    ensures nodes[current].next[b] !in queue
  {
    var child := nodes[current].next[b];
    hide Expanded, Live, Edges, Naming;
    ChildEdge(nodes, paths, index, kws, current, b);
    ReachOne(nodes, paths, index, kws, expanded, current, rest, b, child);
    AppendByDepth(paths, queue, child);
    hide ByDepth;
    forall n | 0 < n < |nodes|
      ensures n in queue + [child] <==> Expanded(paths, index, n, expanded, current, rest - {b})
    {
      ReachOne(nodes, paths, index, kws, expanded, current, rest, b, n);
      assert n in queue + [child] <==> n in queue || n == child;
    }
  }

  lemma StartExpanding(nodes: seq<Node>, paths: seq<seq<byte>>, index: map<seq<byte>, nat>, kws: seq<Keyword>,
                       queue: seq<nat>, expanded: set<nat>, current: nat)
    requires Trie(nodes, paths, index, kws) && current < |nodes|
    requires if expanded == {} then queue == [] else
               0 in expanded && Frontier(paths, index, queue, expanded, 0, {})
    ensures Frontier(paths, index, queue, expanded, current, nodes[current].next.Keys)
  {
    forall n | 0 < n < |nodes|
      ensures n in queue <==> Expanded(paths, index, n, expanded, current, nodes[current].next.Keys)
    {
      ParentEdge(nodes, paths, index, kws, n);
    }
  }

  lemma FinishExpanding(paths: seq<seq<byte>>, index: map<seq<byte>, nat>,
                        queue: seq<nat>, expanded: set<nat>, current: nat)
    requires Frontier(paths, index, queue, expanded, current, {})
    requires current == 0 || 0 in expanded
    ensures Frontier(paths, index, queue, expanded + {current}, 0, {})
  {
  }

  ghost function SetOf(s: seq<nat>): set<nat> { set x | x in s }

  /** When the queue is read at `head`, all nodes no deeper than queue[head] have been queued;
      when it is exhausted, all nodes have. */
  lemma {:induction false} ShallowQueued(nodes: seq<Node>, paths: seq<seq<byte>>, index: map<seq<byte>, nat>,
                                         kws: seq<Keyword>, queue: seq<nat>, head: nat, n: nat)
    requires Trie(nodes, paths, index, kws)
    requires head <= |queue|
    requires Frontier(paths, index, queue, {0} + SetOf(queue[..head]), 0, {})
    requires 0 < n < |nodes| && (head == |queue| || |paths[n]| <= |paths[queue[head]]|)
    ensures n in queue
    decreases |paths[n]|
  {
    SameLength(nodes, paths, index, kws);
    ParentEdge(nodes, paths, index, kws, n);
    hide Trie;
    var parent := index[paths[n][..|paths[n]| - 1]];
    if parent != 0 {
      ShallowQueued(nodes, paths, index, kws, queue, head, parent);
      QueuedBefore(paths, queue, head, parent, |paths[n]|);
    }
    assert Expanded(paths, index, n, {0} + SetOf(queue[..head]), 0, {});
  }

  lemma SameLength(nodes: seq<Node>, paths: seq<seq<byte>>, index: map<seq<byte>, nat>, kws: seq<Keyword>)
    requires Trie(nodes, paths, index, kws)
    ensures |nodes| == |paths|
  {
    hide Naming, Edges;
  }

  /** A queued node that is shallower than the head stands before it. */
  lemma QueuedBefore(paths: seq<seq<byte>>, queue: seq<nat>, head: nat, parent: nat, depth: nat)
    requires ByDepth(paths, queue) && parent in queue && head <= |queue| && parent < |paths| && |paths[parent]| < depth
    requires head == |queue| || depth <= |paths[queue[head]]|
    ensures parent in queue[..head]
  {
  }

  /** The root and the queued nodes are final; the others are as `Add` left them. */
  ghost predicate Progress(nodes: seq<Node>, paths: seq<seq<byte>>, index: map<seq<byte>, nat>,
                           kws: seq<Keyword>, queue: seq<nat>)
  {
    && |nodes| == |paths|
    && forall n :: 0 <= n < |nodes| ==>
         if n == 0 || n in queue then Linked(nodes, paths, index, kws, n) else Unlinked(nodes, paths, kws, n)
  }

  /** The root and its children need no work: their failure link is the root. */
  lemma ShortPathLinked(nodes: seq<Node>, paths: seq<seq<byte>>, index: map<seq<byte>, nat>,
                        kws: seq<Keyword>, n: nat)
    requires Naming(paths, index, kws) && NonEmptyWords(kws)
    requires n < |nodes| == |paths| && |paths[n]| <= 1 && Unlinked(nodes, paths, kws, n)
    ensures Linked(nodes, paths, index, kws, n)
  {
    assert FailPath(kws, paths[n]) == [];
    if Hits(kws, []) != [] {
      HitsExact(kws, [], Hits(kws, [])[0]);
      assert false;
    }
    assert index[paths[0]] == 0;
  }

  /** When p cannot be followed by b, its failure path takes its place. */
  lemma FailStep(kws: seq<Keyword>, p: seq<byte>, b: byte)
    requires p != [] && !Live(kws, p + [b])
    ensures LongestLive(kws, p + [b]) == LongestLive(kws, FailPath(kws, p) + [b])
  {
    assert (p + [b])[1..] == p[1..] + [b];
    LongestLiveStep(kws, p[1..], b);
  }

  /** The failure link of a child, from the failure link of its parent. */
  lemma FailOfChild(kws: seq<Keyword>, p: seq<byte>, b: byte)
    requires p != []
    ensures FailPath(kws, p + [b]) == LongestLive(kws, FailPath(kws, p) + [b])
  {
    assert (p + [b])[1..] == p[1..] + [b];
    LongestLiveStep(kws, p[1..], b);
  }

  ghost predicate LinkedUpTo(nodes: seq<Node>, paths: seq<seq<byte>>, index: map<seq<byte>, nat>,
                             kws: seq<Keyword>, depth: nat)
    requires |nodes| == |paths|
  {
    forall n :: 0 <= n < |nodes| && |paths[n]| <= depth ==> Linked(nodes, paths, index, kws, n)
  }

  lemma StartProgress(nodes: seq<Node>, paths: seq<seq<byte>>, index: map<seq<byte>, nat>, kws: seq<Keyword>, queue: seq<nat>)
    requires Naming(paths, index, kws) && NonEmptyWords(kws) && |nodes| == |paths|
    requires forall n :: 0 <= n < |nodes| ==> Unlinked(nodes, paths, kws, n)
    requires forall i :: 0 <= i < |queue| ==> queue[i] < |paths| && |paths[queue[i]]| <= 1
    ensures Progress(nodes, paths, index, kws, queue)
  {
    forall n | 0 <= n < |nodes| && (n == 0 || n in queue)
      ensures Linked(nodes, paths, index, kws, n)
    {
      ShortPathLinked(nodes, paths, index, kws, n);
    }
  }

  lemma ShallowLinked(nodes: seq<Node>, paths: seq<seq<byte>>, index: map<seq<byte>, nat>, kws: seq<Keyword>,
                      queue: seq<nat>, head: nat)
    requires Trie(nodes, paths, index, kws) && Progress(nodes, paths, index, kws, queue)
    requires head <= |queue| && Frontier(paths, index, queue, {0} + SetOf(queue[..head]), 0, {})
    ensures head < |queue| ==> queue[head] < |paths| && LinkedUpTo(nodes, paths, index, kws, |paths[queue[head]]|)
    ensures head == |queue| ==> forall n :: 0 <= n < |nodes| ==> Linked(nodes, paths, index, kws, n)
  {
    forall n | 0 <= n < |nodes| && (head == |queue| || |paths[n]| <= |paths[queue[head]]|)
      ensures Linked(nodes, paths, index, kws, n)
    {
      if n != 0 {
        ShallowQueued(nodes, paths, index, kws, queue, head, n);
      }
    }
  }

  lemma NotExpanded(paths: seq<seq<byte>>, index: map<seq<byte>, nat>, queue: seq<nat>, head: nat)
    requires head < |queue| && Frontier(paths, index, queue, {0} + SetOf(queue[..head]), 0, {})
    ensures queue[head] !in {0} + SetOf(queue[..head])
  {
  }

  lemma ExpandNext(before: seq<nat>, queue: seq<nat>, head: nat)
    requires head < |before| && before <= queue
    ensures {0} + SetOf(before[..head]) + {before[head]} == {0} + SetOf(queue[..head + 1])
  {
    assert queue[..head + 1] == before[..head] + [before[head]];
  }

  /** One turn of a failure loop: take the edge for b if there is one, otherwise fall back. */
  lemma FollowOrFall(nodes: seq<Node>, paths: seq<seq<byte>>, index: map<seq<byte>, nat>, kws: seq<Keyword>,
                     n: nat, b: byte)
    requires Trie(nodes, paths, index, kws)
    requires 0 < n < |nodes| && Linked(nodes, paths, index, kws, n)
    ensures b in nodes[n].next ==>
              var c := nodes[n].next[b]; 0 < c < |nodes| && paths[c] == LongestLive(kws, paths[n] + [b])
    ensures b !in nodes[n].next ==>
              var f := nodes[n].fail;
              f < |nodes| && |paths[f]| < |paths[n]|
              && LongestLive(kws, paths[f] + [b]) == LongestLive(kws, paths[n] + [b])
  {
    hide Live;
    ParentEdge(nodes, paths, index, kws, n);
    if b in nodes[n].next {
      ChildEdge(nodes, paths, index, kws, n, b);
    } else {
      assert Edges(nodes[n], paths[n], index);
      FailStep(kws, paths[n], b);
    }
  }

  lemma FailStart(nodes: seq<Node>, paths: seq<seq<byte>>, index: map<seq<byte>, nat>, kws: seq<Keyword>,
                  current: nat, b: byte)
    requires Trie(nodes, paths, index, kws)
    requires 0 < current < |nodes| && Linked(nodes, paths, index, kws, current) && b in nodes[current].next
    ensures var f, child := nodes[current].fail, nodes[current].next[b];
            && f < |nodes| && |paths[f]| < |paths[current]|
            && child < |nodes| && |paths[child]| > 1
            && LongestLive(kws, paths[f] + [b]) == FailPath(kws, paths[child])
  {
    hide Live, Edges;
    ChildEdge(nodes, paths, index, kws, current, b);
    ParentEdge(nodes, paths, index, kws, current);
    FailOfChild(kws, paths[current], b);
  }

  lemma FollowRoot(nodes: seq<Node>, paths: seq<seq<byte>>, index: map<seq<byte>, nat>, kws: seq<Keyword>, b: byte)
    requires Trie(nodes, paths, index, kws)
    ensures |nodes| > 0 && paths[0] == []
    ensures forall n :: 0 < n < |nodes| ==> paths[n] != []
    ensures if b in nodes[0].next
            then var c := nodes[0].next[b]; 0 < c < |nodes| && paths[c] == [b] == LongestLive(kws, [] + [b])
            else LongestLive(kws, [] + [b]) == []
  {
    assert Edges(nodes[0], paths[0], index);
    assert [] + [b] == [b] && [b][1..] == [];
    forall n | 0 < n < |nodes| ensures paths[n] != [] {
      assert index[paths[n]] == n && index[paths[0]] == 0;
    }
    if b in nodes[0].next {
      ChildEdge(nodes, paths, index, kws, 0, b);
    }
  }

  /** A node that only gets new link fields stays a trie node. */
  lemma RelinkTrie(nodes: seq<Node>, paths: seq<seq<byte>>, index: map<seq<byte>, nat>, kws: seq<Keyword>,
                   child: nat, fail: nat, out: seq<KeywordHit>)
    requires Trie(nodes, paths, index, kws) && child < |nodes|
    ensures Trie(nodes[child := nodes[child].(fail := fail, out := out)], paths, index, kws)
  {
  }

  lemma ChildLinked(nodes: seq<Node>, paths: seq<seq<byte>>, index: map<seq<byte>, nat>, kws: seq<Keyword>,
                    child: nat, fail: nat)
    requires Naming(paths, index, kws) && |nodes| == |paths|
    requires child < |nodes| && Unlinked(nodes, paths, kws, child) && paths[child] != []
    requires fail < |nodes| && Linked(nodes, paths, index, kws, fail) && paths[fail] == FailPath(kws, paths[child])
    ensures Linked(nodes[child := nodes[child].(fail := fail, out := nodes[child].out + nodes[fail].out)],
                   paths, index, kws, child)
  {
    hide Live;
    assert paths[fail] in index && index[paths[fail]] == fail;
  }

  lemma KeepLinks(nodes: seq<Node>, nodes': seq<Node>, paths: seq<seq<byte>>, index: map<seq<byte>, nat>,
                  kws: seq<Keyword>, n: nat)
    requires n < |nodes| == |nodes'| == |paths| && nodes'[n] == nodes[n]
    ensures Linked(nodes', paths, index, kws, n) == Linked(nodes, paths, index, kws, n)
    ensures Unlinked(nodes', paths, kws, n) == Unlinked(nodes, paths, kws, n)
  {
  }

  /** Setting the two link fields of a newly queued child finishes that node and touches nothing else. */
  lemma LinkChild(nodes: seq<Node>, paths: seq<seq<byte>>, index: map<seq<byte>, nat>, kws: seq<Keyword>,
                  queue: seq<nat>, child: nat, fail: nat, depth: nat)
    requires Naming(paths, index, kws) && |nodes| == |paths| && Progress(nodes, paths, index, kws, queue)
    requires 0 < child < |nodes| && child !in queue && |paths[child]| == depth + 1
    requires LinkedUpTo(nodes, paths, index, kws, depth)
    requires fail < |nodes| && paths[fail] == FailPath(kws, paths[child])
    ensures var nodes' := nodes[child := nodes[child].(fail := fail, out := nodes[child].out + nodes[fail].out)];
            && Progress(nodes', paths, index, kws, queue + [child])
            && LinkedUpTo(nodes', paths, index, kws, depth)
  {
    hide Naming, Live, FailPath, Linked, Unlinked;
    ChildLinked(nodes, paths, index, kws, child, fail);
    var nodes' := nodes[child := nodes[child].(fail := fail, out := nodes[child].out + nodes[fail].out)];
    forall n | 0 <= n < |nodes'|
      ensures if n == 0 || n in queue + [child] then Linked(nodes', paths, index, kws, n) else Unlinked(nodes', paths, kws, n)
    {
      if n != child { KeepLinks(nodes, nodes', paths, index, kws, n); }
    }
    forall n | 0 <= n < |nodes'| && |paths[n]| <= depth
      ensures Linked(nodes', paths, index, kws, n)
    {
      KeepLinks(nodes, nodes', paths, index, kws, n);
    }
  }

  // ----- The state of `Build`, between edges and between nodes

  ghost predicate Shallow(paths: seq<seq<byte>>, queue: seq<nat>, depth: nat) {
    forall i :: 0 <= i < |queue| ==> queue[i] < |paths| && |paths[queue[i]]| <= depth
  }

  /** `current` is being expanded; the edges `rest` are still to be followed. */
  ghost predicate Expanding(nodes: seq<Node>, paths: seq<seq<byte>>, index: map<seq<byte>, nat>, kws: seq<Keyword>,
                            queue: seq<nat>, expanded: set<nat>, current: nat, rest: set<byte>)
  {
    && Trie(nodes, paths, index, kws) && NonEmptyWords(kws)
    && 0 < current < |nodes| && current !in expanded && 0 in expanded
    && rest <= nodes[current].next.Keys
    && Frontier(paths, index, queue, expanded, current, rest)
    && Shallow(paths, queue, |paths[current]| + 1)
    && Progress(nodes, paths, index, kws, queue)
    && LinkedUpTo(nodes, paths, index, kws, |paths[current]|)
  }

  /** The queue has been expanded up to `head`. */
  ghost predicate AtHead(nodes: seq<Node>, paths: seq<seq<byte>>, index: map<seq<byte>, nat>, kws: seq<Keyword>,
                         queue: seq<nat>, head: nat)
  {
    && Trie(nodes, paths, index, kws) && NonEmptyWords(kws)
    && head <= |queue|
    && Frontier(paths, index, queue, {0} + SetOf(queue[..head]), 0, {})
    && (head < |queue| ==> queue[head] < |paths| && Shallow(paths, queue, |paths[queue[head]]| + 1))
    && Progress(nodes, paths, index, kws, queue)
  }

  ghost function Unread(count: nat, queue: seq<nat>, head: nat): set<nat>
    requires head <= |queue|
  {
    set n: nat | n < count && n !in queue[..head]
  }

  lemma BeginExpanding(nodes: seq<Node>, paths: seq<seq<byte>>, index: map<seq<byte>, nat>, kws: seq<Keyword>,
                       queue: seq<nat>, head: nat)
    requires AtHead(nodes, paths, index, kws, queue, head) && head < |queue|
    ensures var current := queue[head];
            current < |nodes|
            && Expanding(nodes, paths, index, kws, queue, {0} + SetOf(queue[..head]), current, nodes[current].next.Keys)
    ensures Frontier(paths, index, queue, {0} + SetOf(queue[..head]), 0, {})
  {
    hide Naming, Edges, Progress, Linked, SetOf, NonEmptyWords, Expanded;
    ShallowLinked(nodes, paths, index, kws, queue, head);
    NotExpanded(paths, index, queue, head);
    StartExpanding(nodes, paths, index, kws, queue, {0} + SetOf(queue[..head]), queue[head]);
  }

  lemma UnreadShrinks(paths: seq<seq<byte>>, index: map<seq<byte>, nat>, before: seq<nat>, queue: seq<nat>, head: nat)
    requires head < |before| && before <= queue
    requires Frontier(paths, index, before, {0} + SetOf(before[..head]), 0, {})
    ensures Unread(|paths|, queue, head + 1) < Unread(|paths|, before, head)
  {
    assert queue[..head + 1] == before[..head] + [before[head]];
    assert before[head] in Unread(|paths|, before, head);
  }

  lemma ExpandEdge(nodes: seq<Node>, paths: seq<seq<byte>>, index: map<seq<byte>, nat>, kws: seq<Keyword>,
                   queue: seq<nat>, expanded: set<nat>, current: nat, rest: set<byte>, b: byte, fail: nat)
    requires Expanding(nodes, paths, index, kws, queue, expanded, current, rest) && b in rest
    requires var child := nodes[current].next[b];
             child < |paths| && fail < |paths| && paths[fail] == FailPath(kws, paths[child])
    ensures var child := nodes[current].next[b];
            var nodes' := nodes[child := nodes[child].(fail := fail, out := nodes[child].out + nodes[fail].out)];
            Expanding(nodes', paths, index, kws, queue + [child], expanded, current, rest - {b})
  {
    var child := nodes[current].next[b];
    TrieParts(nodes, paths, index, kws);
    hide Naming, Edges, Progress, Frontier, LinkedUpTo, NonEmptyWords, Trie;
    ChildEdge(nodes, paths, index, kws, current, b);
    Enqueue(nodes, paths, index, kws, queue, expanded, current, rest, b);
    LinkChild(nodes, paths, index, kws, queue, child, fail, |paths[current]|);
    RelinkTrie(nodes, paths, index, kws, child, fail, nodes[child].out + nodes[fail].out);
    OneDeeper(paths, queue, child, |paths[current]| + 1);
  }

  lemma TrieParts(nodes: seq<Node>, paths: seq<seq<byte>>, index: map<seq<byte>, nat>, kws: seq<Keyword>)
    requires Trie(nodes, paths, index, kws)
    ensures |nodes| == |paths| && Naming(paths, index, kws)
  {
  }

  lemma OneDeeper(paths: seq<seq<byte>>, queue: seq<nat>, child: nat, depth: nat)
    requires Shallow(paths, queue, depth) && child < |paths| && |paths[child]| <= depth
    ensures Shallow(paths, queue + [child], depth)
  {
  }

  lemma EndExpanding(nodes: seq<Node>, paths: seq<seq<byte>>, index: map<seq<byte>, nat>, kws: seq<Keyword>,
                     before: seq<nat>, queue: seq<nat>, head: nat)
    requires head < |before| && before <= queue
    requires Expanding(nodes, paths, index, kws, queue, {0} + SetOf(before[..head]), before[head], {})
    ensures AtHead(nodes, paths, index, kws, queue, head + 1)
  {
    hide Naming, Edges, Progress, LinkedUpTo, NonEmptyWords, Expanded, SetOf;
    FinishExpanding(paths, index, queue, {0} + SetOf(before[..head]), before[head]);
    ExpandNext(before, queue, head);
  }

  lemma RootQueued(nodes: seq<Node>, paths: seq<seq<byte>>, index: map<seq<byte>, nat>, kws: seq<Keyword>, queue: seq<nat>)
    requires Trie(nodes, paths, index, kws) && NonEmptyWords(kws)
    requires Frontier(paths, index, queue, {}, 0, {}) && Shallow(paths, queue, 1)
    requires forall n :: 0 <= n < |nodes| ==> Unlinked(nodes, paths, kws, n)
    ensures AtHead(nodes, paths, index, kws, queue, 0)
  {
    hide Naming, Edges, Live;
    FinishExpanding(paths, index, queue, {}, 0);
    assert {} + {0} == {0} + SetOf(queue[..0]);
    StartProgress(nodes, paths, index, kws, queue);
  }

  lemma AllLinked(nodes: seq<Node>, paths: seq<seq<byte>>, index: map<seq<byte>, nat>, kws: seq<Keyword>, queue: seq<nat>)
    requires AtHead(nodes, paths, index, kws, queue, |queue|)
    ensures Trie(nodes, paths, index, kws) && NonEmptyWords(kws)
    ensures forall n :: 0 <= n < |nodes| ==> Linked(nodes, paths, index, kws, n)
  {
    ShallowLinked(nodes, paths, index, kws, queue, |queue|);
  }

  /** The failure link of the child reached from `current` by b. */
  method FailLink(nodes: seq<Node>, ghost paths: seq<seq<byte>>, ghost index: map<seq<byte>, nat>, ghost kws: seq<Keyword>,
                  current: nat, b: byte) returns (fail: nat)
    requires Trie(nodes, paths, index, kws)
    requires 0 < current < |nodes| && b in nodes[current].next
    requires LinkedUpTo(nodes, paths, index, kws, |paths[current]|)
    ensures fail < |paths| && nodes[current].next[b] < |paths|
    ensures paths[fail] == FailPath(kws, paths[nodes[current].next[b]])
  {
    var child := nodes[current].next[b];
    FailStart(nodes, paths, index, kws, current, b);
    FollowRoot(nodes, paths, index, kws, b);
    fail := nodes[current].fail;
    hide Naming, Edges, FailPath, LongestLive, Linked;
    while fail != 0
      invariant fail < |nodes| && |paths[fail]| < |paths[current]|
      invariant LongestLive(kws, paths[fail] + [b]) == FailPath(kws, paths[child])
      decreases |paths[fail]|
    {
      FollowOrFall(nodes, paths, index, kws, fail, b);
      if b in nodes[fail].next {
        fail := nodes[fail].next[b];
        break;
      }
      fail := nodes[fail].fail;
    }
    if fail == 0 {
      if b in nodes[0].next && nodes[0].next[b] != child {
        fail := nodes[0].next[b];
      }
    }
  }

  class Automaton {
    var nodes: seq<Node>
    ghost var keywords: seq<Keyword>
    ghost var paths: seq<seq<byte>>
    ghost var index: map<seq<byte>, nat>

    ghost predicate Valid()
      reads this
    {
      Trie(nodes, paths, index, keywords) && NonEmptyWords(keywords)
    }

    /** Before `Build`: keywords are stored, no links are set. */
    ghost predicate Open()
      reads this
    {
      Valid() && forall n :: 0 <= n < |nodes| ==> Unlinked(nodes, paths, keywords, n)
    }

    ghost predicate Built()
      reads this
    {
      Valid() && forall n :: 0 <= n < |nodes| ==> Linked(nodes, paths, index, keywords, n)
    }

    /** state is the node for the longest suffix of input that is a prefix of a keyword. */
    ghost predicate At(state: nat, input: seq<byte>)
      reads this
    {
      state < |nodes| == |paths| && paths[state] == LongestLive(keywords, input)
    }

    constructor ()
      ensures Open() && keywords == []
    {
      nodes := [Node(map[], 0, 0, [])];
      keywords, paths, index := [], [[]], map[[] := 0];
    }

    method Add(keyword: seq<byte>, ruleIndex: nat)
      requires Open()
      modifies this
      ensures Open()
      ensures keywords == if keyword == [] then old(keywords) else old(keywords) + [Keyword(keyword, ruleIndex)]
    {
      if |keyword| == 0 {
        return;
      }
      ghost var kws := keywords;
      hide Trie, Unlinked, Grown, Naming, Edges;
      var node := Insert(keyword, ruleIndex);
      WordAdded(kws, keyword, ruleIndex);
      RecordHit(nodes, paths, index, kws, Keyword(keyword, ruleIndex), node);
      nodes := nodes[node := nodes[node].(out := nodes[node].out + [KeywordHit(ruleIndex, |keyword|)])];
      keywords := kws + [Keyword(keyword, ruleIndex)];
    }

    /** Walks from the root along the keyword, with new nodes where there are none yet. */
    method Insert(keyword: seq<byte>, ruleIndex: nat) returns (node: nat)
      requires Open()
      modifies this`nodes, this`paths, this`index
      ensures Trie(nodes, paths, index, keywords + [Keyword(keyword, ruleIndex)])
      ensures node < |nodes| == |paths| && paths[node] == keyword
      ensures forall n :: 0 <= n < |nodes| ==> Unlinked(nodes, paths, keywords, n)
    {
      node := 0;
      StartWord(nodes, paths, index, keywords, keyword, ruleIndex);
      hide Trie, Unlinked, Grown, Naming, Edges;
      for i := 0 to |keyword|
        invariant Trie(nodes, paths, index, keywords + [Keyword(keyword[..i], ruleIndex)])
        invariant node < |nodes| == |paths| && paths[node] == keyword[..i]
        invariant forall n :: 0 <= n < |nodes| ==> Unlinked(nodes, paths, keywords, n)
      {
        var b := keyword[i];
        if b !in nodes[node].next {
          var next := |nodes|;
          GrowTrie(nodes, paths, index, keywords, keyword, ruleIndex, i, node);
          paths, index := paths + [keyword[..i + 1]], index[keyword[..i + 1] := next];
          nodes := Grown(nodes, node, b, i + 1);
          node := next;
        } else {
          FollowEdge(nodes, paths, index, keywords, keyword, ruleIndex, i, node);
          node := nodes[node].next[b];
        }
      }
      assert keyword[..|keyword|] == keyword;
    }

    /** Queues the children of the root: their failure link is already the root. */
    method QueueRootChildren() returns (queue: seq<nat>)
      requires Open()
      ensures AtHead(nodes, paths, index, keywords, queue, 0)
    {
      queue := [];
      var rest := nodes[0].next.Keys;
      StartExpanding(nodes, paths, index, keywords, queue, {}, 0);
      hide Naming, Edges, Frontier, Unlinked;
      while rest != {}
        invariant rest <= nodes[0].next.Keys
        invariant Frontier(paths, index, queue, {}, 0, rest) && Shallow(paths, queue, 1)
      {
        var b :| b in rest;
        Enqueue(nodes, paths, index, keywords, queue, {}, 0, rest, b);
        ChildEdge(nodes, paths, index, keywords, 0, b);
        rest := rest - {b};
        queue := queue + [nodes[0].next[b]];
      }
      RootQueued(nodes, paths, index, keywords, queue);
    }

    /** Links and queues the child of `current` that the edge b leads to. */
    method LinkEdge(current: nat, b: byte, ghost expanded: set<nat>, ghost rest: set<byte>, queue: seq<nat>)
      returns (queue': seq<nat>)
      requires Expanding(nodes, paths, index, keywords, queue, expanded, current, rest) && b in rest
      modifies this`nodes
      ensures Expanding(nodes, paths, index, keywords, queue', expanded, current, rest - {b})
      ensures queue <= queue' && current < |nodes| && nodes[current].next == old(nodes)[current].next
    {
      hide Naming, Edges, Frontier, Progress, LinkedUpTo, NonEmptyWords, Shallow, FailPath;
      var child := nodes[current].next[b];
      var fail := FailLink(nodes, paths, index, keywords, current, b);
      ExpandEdge(nodes, paths, index, keywords, queue, expanded, current, rest, b, fail);
      hide *;
      nodes := nodes[child := nodes[child].(fail := fail, out := nodes[child].out + nodes[fail].out)];
      queue' := queue + [child];
    }

    /** Links every child of `current`, in whatever order its edges are met. */
    method LinkChildren(current: nat, ghost expanded: set<nat>, queue: seq<nat>) returns (queue': seq<nat>)
      requires current < |nodes|
      requires Expanding(nodes, paths, index, keywords, queue, expanded, current, nodes[current].next.Keys)
      modifies this`nodes
      ensures Expanding(nodes, paths, index, keywords, queue', expanded, current, {})
      ensures queue <= queue'
    {
      queue' := queue;
      var rest := nodes[current].next.Keys;
      hide Expanding;
      while rest != {}
        invariant Expanding(nodes, paths, index, keywords, queue', expanded, current, rest)
        invariant queue <= queue'
      {
        var b :| b in rest;
        queue' := LinkEdge(current, b, expanded, rest, queue');
        rest := rest - {b};
      }
    }

    method Build()
      requires Open()
      modifies this
      ensures Built() && keywords == old(keywords)
      ensures paths == old(paths) && index == old(index)
    {
      var queue := QueueRootChildren();
      var head := 0;
      hide AtHead, Expanding;
      while head < |queue|
        invariant keywords == old(keywords) && paths == old(paths) && index == old(index)
        invariant head <= |queue| && AtHead(nodes, paths, index, keywords, queue, head)
        decreases Unread(|paths|, queue, head)
      {
        ghost var before := queue;
        BeginExpanding(nodes, paths, index, keywords, queue, head);
        queue := LinkChildren(queue[head], {0} + SetOf(queue[..head]), queue);
        EndExpanding(nodes, paths, index, keywords, before, queue, head);
        UnreadShrinks(paths, index, before, queue, head);
        head := head + 1;
      }
      AllLinked(nodes, paths, index, keywords, queue);
    }

    /** Consumes one byte of folded input. */
    method Step(state: nat, b: byte, ghost input: seq<byte>) returns (next: nat)
      requires Built() && At(state, input)
      ensures At(next, input + [b])
    {
      LongestLiveStep(keywords, input, b);
      FollowRoot(nodes, paths, index, keywords, b);
      hide Naming, Edges, LongestLive, Linked, IsSuffix;
      next := state;
      while next != 0
        invariant next < |nodes| == |paths|
        invariant LongestLive(keywords, paths[next] + [b]) == LongestLive(keywords, input + [b])
        decreases |paths[next]|
      {
        FollowOrFall(nodes, paths, index, keywords, next, b);
        if b in nodes[next].next {
          next := nodes[next].next[b];
          return;
        }
        next := nodes[next].fail;
      }
      if b in nodes[0].next {
        next := nodes[0].next[b];
      }
    }

    /** The keywords that end here. */
    method Hits(state: nat, ghost input: seq<byte>) returns (hits: seq<KeywordHit>)
      requires Built() && At(state, input)
      ensures hits == OutAt(keywords, LongestLive(keywords, input))
    {
      assert Linked(nodes, paths, index, keywords, state);
      hits := nodes[state].out;
    }

    /** How many bytes at the end of the input could still grow into a keyword. */
    method PartialMatchLen(state: int, ghost input: seq<byte>) returns (n: nat)
      requires Built() && 0 <= state && At(state, input)
      ensures n == |LongestLive(keywords, input)|
    {
      if state <= 0 || state >= |nodes| {
        n := 0;
      } else {
        assert Edges(nodes[state], paths[state], index);
        n := nodes[state].depth;
      }
    }
  }
}
