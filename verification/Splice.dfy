/** Replacing bytes of a text by other bytes, and where the others end up. */
module Splice {
  import opened Bytes
  import opened Rules

  /** For each byte of a text, what takes its place; None keeps it. */
  type Pieces = seq<Option<seq<byte>>>

  function Replacement(b: byte, p: Option<seq<byte>>): seq<byte> {
    if p.None? then [b] else p.value
  }

  function Spliced(data: seq<byte>, pieces: Pieces): (r: seq<byte>)
    requires |data| == |pieces|
  {
    if data == [] then [] else Replacement(data[0], pieces[0]) + Spliced(data[1..], pieces[1..])
  }

  function Width(pieces: Pieces): nat {
    if pieces == [] then 0 else (if pieces[0].None? then 1 else |pieces[0].value|) + Width(pieces[1..])
  }

  /** Where the byte at position c ends up. */
  function At(pieces: Pieces, c: int): nat
    requires 0 <= c <= |pieces|
  {
    Width(pieces[..c])
  }

  predicate Kept(pieces: Pieces, start: int, end: int) {
    forall p :: start <= p < end && 0 <= p < |pieces| ==> pieces[p].None?
  }

  lemma {:induction false} SplicedLength(data: seq<byte>, pieces: Pieces)
    requires |data| == |pieces|
    ensures |Spliced(data, pieces)| == Width(pieces)
  {
    if data != [] {
      SplicedLength(data[1..], pieces[1..]);
    }
  }

  lemma {:induction false} SplicedAppend(a: seq<byte>, p: Pieces, b: seq<byte>, q: Pieces)
    requires |a| == |p| && |b| == |q|
    ensures Spliced(a + b, p + q) == Spliced(a, p) + Spliced(b, q) && Width(p + q) == Width(p) + Width(q)
  {
    if a == [] {
      assert a + b == b && p + q == q;
    } else {
      SplicedAppend(a[1..], p[1..], b, q);
      assert (a + b)[1..] == a[1..] + b && (p + q)[1..] == p[1..] + q;
    }
  }

  /** The splice of the rest stands where the rest ends up. */
  lemma SplicedSplit(data: seq<byte>, pieces: Pieces, c: int)
    requires |data| == |pieces| && 0 <= c <= |data|
    ensures At(pieces, c) <= |Spliced(data, pieces)|
    ensures Spliced(data, pieces)[At(pieces, c)..] == Spliced(data[c..], pieces[c..])
    ensures Spliced(data, pieces)[..At(pieces, c)] == Spliced(data[..c], pieces[..c])
  {
    assert data == data[..c] + data[c..] && pieces == pieces[..c] + pieces[c..];
    SplicedAppend(data[..c], pieces[..c], data[c..], pieces[c..]);
    SplicedLength(data[..c], pieces[..c]);
  }

  lemma AtSum(pieces: Pieces, c: int, d: int)
    requires 0 <= c <= d <= |pieces|
    ensures At(pieces, c) + Width(pieces[c..d]) == At(pieces, d)
    ensures At(pieces, c) + At(pieces[c..], d - c) == At(pieces, d)
    ensures At(pieces, c) <= At(pieces, d)
  {
    assert pieces[..d] == pieces[..c] + pieces[c..d];
    assert pieces[c..][..d - c] == pieces[c..d];
    var data := seq(d, i => 0 as byte);
    SplicedAppend(data[..c], pieces[..c], data[c..], pieces[c..d]);
  }

  lemma {:induction false} AllKept(data: seq<byte>, pieces: Pieces)
    requires |data| == |pieces| && forall p :: 0 <= p < |pieces| ==> pieces[p].None?
    ensures Spliced(data, pieces) == data && Width(pieces) == |data|
  {
    if data != [] {
      AllKept(data[1..], pieces[1..]);
    }
  }

  /** A part that is kept stands there as it was. */
  lemma KeptPart(data: seq<byte>, pieces: Pieces, c: int, d: int)
    requires |data| == |pieces| && 0 <= c <= d <= |data| && Kept(pieces, c, d)
    ensures At(pieces, d) == At(pieces, c) + (d - c) <= |Spliced(data, pieces)|
    ensures Spliced(data, pieces)[At(pieces, c)..At(pieces, d)] == data[c..d]
  {
    hide *;
    PartKept(data, pieces, c, d);
    AtSum(pieces, c, d);
    SplicedSplit(data, pieces, d);
    SplicedSplit(data, pieces, c);
    var rest, front := data[c..], pieces[c..];
    SplicedSplit(rest, front, d - c);
    assert rest[..d - c] == data[c..d] && front[..d - c] == pieces[c..d];
    var s := Spliced(data, pieces);
    assert s[At(pieces, c)..][..d - c] == s[At(pieces, c)..At(pieces, d)];
  }

  lemma PartKept(data: seq<byte>, pieces: Pieces, c: int, d: int)
    requires |data| == |pieces| && 0 <= c <= d <= |data| && Kept(pieces, c, d)
    ensures Spliced(data[c..d], pieces[c..d]) == data[c..d] && Width(pieces[c..d]) == d - c
  {
    AllKept(data[c..d], pieces[c..d]);
  }

  lemma KeptByte(data: seq<byte>, pieces: Pieces, p: int)
    requires |data| == |pieces| && 0 <= p < |data| && pieces[p].None?
    ensures At(pieces, p + 1) == At(pieces, p) + 1 <= |Spliced(data, pieces)|
    ensures Spliced(data, pieces)[At(pieces, p)] == data[p]
  {
    hide Spliced, Width;
    KeptPart(data, pieces, p, p + 1);
    assert data[p..p + 1][0] == data[p];
    assert Spliced(data, pieces)[At(pieces, p)..At(pieces, p + 1)][0] == Spliced(data, pieces)[At(pieces, p)];
  }

  lemma AtEnds(data: seq<byte>, pieces: Pieces)
    requires |data| == |pieces|
    ensures At(pieces, 0) == 0 && At(pieces, |pieces|) == |Spliced(data, pieces)|
  {
    assert pieces[..0] == [] && pieces[..|pieces|] == pieces;
    SplicedLength(data, pieces);
  }
}
