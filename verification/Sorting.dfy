/** Sorting by a comparison, as the scanner and the masking code use it: no stability is promised. */
module Sorting {

  /** less is a strict order whose negation is transitive: what a comparison sort needs. */
  ghost predicate Comparison<T(!new)>(less: (T, T) -> bool) {
    && (forall a, b :: less(a, b) ==> !less(b, a))
    && (forall a, b, c :: !less(b, a) && !less(c, b) ==> !less(c, a))
  }

  ghost predicate SortedBy<T>(s: seq<T>, less: (T, T) -> bool) {
    forall i, j :: 0 <= i < j < |s| ==> !less(s[j], s[i])
  }

  method Sort<T(!new)>(s: seq<T>, less: (T, T) -> bool) returns (r: seq<T>)
    requires Comparison(less)
    ensures SortedBy(r, less)
    ensures multiset(r) == multiset(s)
  {
    r := [];
    for i := 0 to |s|
      invariant SortedBy(r, less)
      invariant multiset(r) == multiset(s[..i])
    {
      var k := |r|;
      while 0 < k && less(s[i], r[k - 1])
        invariant 0 <= k <= |r|
        invariant forall j :: k <= j < |r| ==> less(s[i], r[j])
      {
        if k < |r| { assert !less(r[k], r[k - 1]); }
        k := k - 1;
      }
      InsertSorted(r, k, s[i], less);
      assert s[..i + 1] == s[..i] + [s[i]];
      InsertKeeps(r, k, s[i]);
      r := r[..k] + [s[i]] + r[k..];
    }
    assert s[..|s|] == s;
  }

  lemma InsertKeeps<T>(r: seq<T>, k: nat, x: T)
    requires k <= |r|
    ensures multiset(r[..k] + [x] + r[k..]) == multiset(r) + multiset{x}
  {
    assert r == r[..k] + r[k..];
  }

  lemma InsertSorted<T(!new)>(r: seq<T>, k: nat, x: T, less: (T, T) -> bool)
    requires Comparison(less) && SortedBy(r, less) && k <= |r|
    requires k == 0 || !less(x, r[k - 1])
    requires forall j :: k <= j < |r| ==> less(x, r[j])
    ensures SortedBy(r[..k] + [x] + r[k..], less)
  {
  }

  /** Sorting has one answer when only equal elements tie. */
  lemma {:induction false} SortedUnique<T(!new)>(s: seq<T>, t: seq<T>, less: (T, T) -> bool)
    requires SortedBy(s, less) && SortedBy(t, less) && multiset(s) == multiset(t)
    requires forall a, b :: a in s && b in s && !less(a, b) && !less(b, a) ==> a == b
    ensures s == t
  {
    assert |multiset(s)| == |s| && |multiset(t)| == |t|;
    if s != [] {
      SameFirst(s, t, less);
      WithoutFirst(s);
      WithoutFirst(t);
      SortedUnique(s[1..], t[1..], less);
    }
  }

  lemma SameFirst<T(!new)>(s: seq<T>, t: seq<T>, less: (T, T) -> bool)
    requires SortedBy(s, less) && SortedBy(t, less) && multiset(s) == multiset(t) && s != [] && t != []
    requires forall a, b :: a in s && b in s && !less(a, b) && !less(b, a) ==> a == b
    ensures s[0] == t[0]
  {
    assert s[0] in multiset(t) && t[0] in multiset(s);
    var i :| 0 <= i < |t| && t[i] == s[0];
    var j :| 0 <= j < |s| && s[j] == t[0];
  }

  lemma WithoutFirst<T>(s: seq<T>)
    requires s != []
    ensures s == [s[0]] + s[1..] && multiset(s[1..]) == multiset(s) - multiset{s[0]}
  {
    assert s == [s[0]] + s[1..];
  }
}
