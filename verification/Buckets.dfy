/** A sequence split over buckets: `hs[i]` is the bucket of `p[i]`. */
module Buckets {
  import opened Lists
  import opened Sequences

  /** The elements of bucket `h`, in the order of the sequence. */
  ghost function Part(p: seq<RequestNode>, hs: seq<nat>, h: nat): seq<RequestNode>
    requires |p| == |hs|
  {
    if p == [] then []
    else
      var last := |p| - 1;
      Part(p[..last], hs[..last], h) + if hs[last] == h then [p[last]] else []
  }

  /** Where in the sequence the element `j` of bucket `h` stands. */
  lemma {:induction false} Origin(p: seq<RequestNode>, hs: seq<nat>, h: nat, j: nat) returns (i: nat)
    requires |p| == |hs| && j < |Part(p, hs, h)|
    ensures i < |p| && hs[i] == h && p[i] == Part(p, hs, h)[j]
  {
    var last := |p| - 1;
    if j < |Part(p[..last], hs[..last], h)| {
      i := Origin(p[..last], hs[..last], h, j);
    } else {
      i := last;
    }
  }

  lemma PartMembers(p: seq<RequestNode>, hs: seq<nat>, h: nat)
    requires |p| == |hs|
    ensures forall j :: 0 <= j < |Part(p, hs, h)| ==> Part(p, hs, h)[j] in p
  {
    forall j | 0 <= j < |Part(p, hs, h)| ensures Part(p, hs, h)[j] in p {
      var i := Origin(p, hs, h, j);
    }
  }

  lemma {:induction false} PartDistinct(p: seq<RequestNode>, hs: seq<nat>, h: nat)
    requires |p| == |hs| && NoDuplicates(p)
    ensures NoDuplicates(Part(p, hs, h))
  {
    if p != [] {
      var last := |p| - 1;
      PartDistinct(p[..last], hs[..last], h);
      PartMembers(p[..last], hs[..last], h);
      var b := Part(p[..last], hs[..last], h);
      forall i | 0 <= i < |b| ensures b[i] != p[last] {
        assert b[i] in p[..last];
      }
    }
  }

  /** Conversely an element stands in its bucket. */
  lemma {:induction false} InItsPart(p: seq<RequestNode>, hs: seq<nat>, i: nat) returns (j: nat)
    requires |p| == |hs| && i < |p|
    ensures j < |Part(p, hs, hs[i])| && Part(p, hs, hs[i])[j] == p[i]
  {
    var last := |p| - 1;
    if i < last {
      j := InItsPart(p[..last], hs[..last], i);
    } else {
      j := |Part(p[..last], hs[..last], hs[i])|;
    }
  }

  /** Different buckets share no element. */
  lemma PartsApart(p: seq<RequestNode>, hs: seq<nat>, g: nat, h: nat)
    requires |p| == |hs| && NoDuplicates(p) && g != h
    ensures forall i, j :: 0 <= i < |Part(p, hs, g)| && 0 <= j < |Part(p, hs, h)| ==>
        Part(p, hs, g)[i] != Part(p, hs, h)[j]
  {
    forall i, j | 0 <= i < |Part(p, hs, g)| && 0 <= j < |Part(p, hs, h)|
      ensures Part(p, hs, g)[i] != Part(p, hs, h)[j]
    {
      var a := Origin(p, hs, g, i);
      var b := Origin(p, hs, h, j);
    }
  }

  lemma PartAppend(p: seq<RequestNode>, hs: seq<nat>, n: RequestNode, k: nat, h: nat)
    requires |p| == |hs|
    ensures Part(p + [n], hs + [k], h) == Part(p, hs, h) + if k == h then [n] else []
  {
    assert (p + [n])[..|p|] == p && (hs + [k])[..|p|] == hs;
  }

  lemma {:induction false} PartConcat(p: seq<RequestNode>, hs: seq<nat>, r: seq<RequestNode>, ks: seq<nat>, h: nat)
    requires |p| == |hs| && |r| == |ks|
    ensures Part(p + r, hs + ks, h) == Part(p, hs, h) + Part(r, ks, h)
  {
    if r == [] {
      assert p + r == p && hs + ks == hs;
    } else {
      var last := |r| - 1;
      PartConcat(p, hs, r[..last], ks[..last], h);
      assert (p + r)[..|p| + last] == p + r[..last] && (hs + ks)[..|p| + last] == hs + ks[..last];
    }
  }

  /** Element `i` stands in its bucket at the place given by the elements before it. */
  lemma PartSplit(p: seq<RequestNode>, hs: seq<nat>, i: nat, h: nat)
    requires |p| == |hs| && i < |p|
    ensures var a, c := Part(p[..i], hs[..i], h), Part(p[i + 1..], hs[i + 1..], h);
      && Part(p, hs, h) == a + (if hs[i] == h then [p[i]] else []) + c
      && Part(Without(p, i), Without(hs, i), h) == a + c
  {
    hide Part;
    SplitAt(p, i);
    SplitAt(hs, i);
    PartConcat(p[..i], hs[..i], p[i + 1..], hs[i + 1..], h);
    PartConcat(p[..i] + [p[i]], hs[..i] + [hs[i]], p[i + 1..], hs[i + 1..], h);
    PartAppend(p[..i], hs[..i], p[i], hs[i], h);
  }
}
