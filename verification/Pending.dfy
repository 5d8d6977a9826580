/** The table of forwarded requests of net_forward/net_forward.c: 4096 circular lists, found by the query id. */
module Pending {
  import opened Bytes
  import opened Lists
  import opened Buckets
  import opened Sequences

  const LIST_SIZE := 4096
  const HASH_ROUND: nat := 0x10000
  const HASH_RADIO: nat := 0x9e3779b9

  // The measures of the two recursions below name the words too, so that the verifier does not unroll the
  // hash of an unknown id.

  /** Bitwise exclusive or. */
  function Xor(a: nat, b: nat): nat
    decreases a + b
  {
    if a == 0 && b == 0 then 0 else (a + b) % 2 + 2 * Xor(a / 2, b / 2)
  }

  /** A 32-bit word shifted to the left, or to the right when `bits` is negative. */
  function Shifted(a: nat, bits: int): nat
    decreases if bits < 0 then -bits else bits, a
  {
    if bits < 0 then Shifted(a / 2, bits + 1) else if bits > 0 then Shifted(a * 2, bits - 1) else a % TWO32
  }

  /** The lines of `__NET_HASH_MIX`, each of which replaces `a` and passes the words on by one place. */
  function Mix(a: nat, b: nat, c: nat, shifts: seq<int>): nat
    decreases |shifts|, a, b, c
  {
    if shifts == [] then c else Mix(b, c, Xor((a - b - c) % TWO32, Shifted(c, shifts[0])), shifts[1..])
  }

  /** `integer_hash`, the mask included. */
  function BucketOf(iden: uint16): (h: nat)
    ensures h < LIST_SIZE
  {
    Mix((iden + HASH_RADIO) % TWO32, HASH_RADIO, HASH_ROUND, [-13, 8, -13, -12, 16, -5, -3, 10, -15]) % LIST_SIZE
  }

  // ---------- what the table stands for: the outstanding requests in send order ----------

  ghost function Hashes(p: seq<RequestNode>): (hs: seq<nat>)
    reads p`iden
    ensures |hs| == |p|
  {
    hide BucketOf;
    if p == [] then [] else Hashes(p[..|p| - 1]) + [BucketOf(p[|p| - 1].iden)]
  }

  /** Request `i` is the oldest one with that id. */
  ghost predicate IsOldest(p: seq<RequestNode>, iden: uint16, i: nat)
    reads p`iden
  {
    i < |p| && p[i].iden == iden && forall j :: 0 <= j < i ==> p[j].iden != iden
  }

  ghost predicate Outstanding(p: seq<RequestNode>, iden: uint16)
    reads p`iden
  {
    exists i :: 0 <= i < |p| && p[i].iden == iden
  }

  class PendingTable {
    var heads: array<RequestNode>
    ghost var pending: seq<RequestNode>

    ghost predicate Shape()
      reads this, heads
    {
      && heads.Length == LIST_SIZE && NoDuplicates(pending)
      && (forall g, h :: 0 <= g < h < LIST_SIZE ==> heads[g] != heads[h])
      && (forall h :: 0 <= h < LIST_SIZE ==> heads[h] !in pending)
    }

    /** Bucket `h` links exactly the outstanding requests that hash there, in send order. */
    ghost predicate Linked(h: nat)
      requires h < heads.Length
      reads this, heads, heads[..]`next, heads[..]`prev, pending`next, pending`prev, pending`iden
    {
      var items := Part(pending, Hashes(pending), h);
      PartMembers(pending, Hashes(pending), h);
      assert heads[h] in heads[..];
      Circular(heads[h], items)
    }

    ghost predicate Valid()
      reads this, heads, heads[..]`next, heads[..]`prev, pending`next, pending`prev, pending`iden
    {
      Shape() && forall h :: 0 <= h < LIST_SIZE ==> Linked(h)
    }

    /** `list_init`. */
    static method NewHeads() returns (a: array<RequestNode>)
      ensures fresh(a) && a.Length == LIST_SIZE
      ensures forall h :: 0 <= h < a.Length ==> fresh(a[h]) && Circular(a[h], [])
      ensures forall g, h :: 0 <= g < h < a.Length ==> a[g] != a[h]
    {
      var head := new RequestNode();
      a := new RequestNode[LIST_SIZE](_ => head);
      var i := 0;
      while i < LIST_SIZE
        invariant 0 <= i <= LIST_SIZE
        invariant forall h :: 0 <= h < i ==> fresh(a[h]) && Circular(a[h], [])
        invariant forall g, h :: 0 <= g < h < i ==> a[g] != a[h]
      {
        head := new RequestNode();
        InitListHead(head);
        a[i] := head;
        i := i + 1;
      }
    }

    constructor ()
      ensures Valid() && pending == []
      ensures fresh(heads) && forall h :: 0 <= h < heads.Length ==> fresh(heads[h])
    {
      var a := NewHeads();
      heads := a;
      pending := [];
      new;
      assert Hashes(pending) == [];
    }

    /** The part of `gethostaddr` before the send: RD is set, and the request joins its bucket. */
    method Send(node: RequestNode)
      requires Valid() && node !in pending && node !in heads[..] && node.request.Length == 2048
      modifies this`pending, heads[..]`next, heads[..]`prev, pending`next, pending`prev, node`next, node`prev,
        node.request
      ensures Valid() && pending == old(pending) + [node]
      ensures var flags := old(node.request[2]);
        node.request[..] == old(node.request[..])[2 := if flags % 2 == 0 then flags + 1 else flags]
    {
      hide BucketOf;
      if node.request[2] % 2 == 0 {
        node.request[2] := node.request[2] + 1;
      }
      Link(BucketOf(node.iden), node);
    }

    method Link(h: nat, node: RequestNode)
      requires Valid() && node !in pending && node !in heads[..] && h == BucketOf(node.iden)
      modifies this`pending, heads[..]`next, heads[..]`prev, pending`next, pending`prev, node`next, node`prev
      ensures Valid() && pending == old(pending) + [node]
    {
      hide BucketOf, Lists.Circular;
      ghost var p, hs := pending, Hashes(pending);
      ghost var items := Part(p, hs, h);
      assert Linked(h);
      PartMembers(p, hs, h);
      assert heads[h] in heads[..];
      ListAddTail(node, heads[h], items);
      forall g | 0 <= g < LIST_SIZE && g != h ensures Circular(heads[g], Part(p, hs, g)) {
        assert old(Linked(g));
        PartMembers(p, hs, g);
        PartsApart(p, hs, g, h);
        assert heads[g] in heads[..];
      }
      pending := pending + [node];
      Appended(p, hs, node, h);
    }

    lemma Removed(p: seq<RequestNode>, hs: seq<nat>, i: nat, h: nat, j: nat)
      requires Shape() && i < |p| && pending == Without(p, i) && hs == Hashes(p) && h == BucketOf(p[i].iden)
      requires j < |Part(p, hs, h)| && Part(p, hs, h)[j] == p[i] && NoDuplicates(p)
      requires Circular(heads[h], Without(Part(p, hs, h), j))
      requires forall g :: 0 <= g < LIST_SIZE && g != h ==> Circular(heads[g], Part(p, hs, g))
      ensures Valid()
    {
      hide BucketOf, Lists.Circular;
      HashesWithout(p, i);
      forall g | 0 <= g < LIST_SIZE ensures Linked(g) {
        PartSplit(p, hs, i, g);
        HashAt(p, i);
        var a, c := Part(p[..i], hs[..i], g), Part(p[i + 1..], hs[i + 1..], g);
        if g == h {
          PartDistinct(p, hs, h);
          PlaceOf(a, p[i], c, Part(p, hs, h), j);
        } else {
          assert a + [] + c == a + c;
        }
      }
    }

    lemma Appended(p: seq<RequestNode>, hs: seq<nat>, node: RequestNode, h: nat)
      requires Shape() && pending == p + [node] && hs == Hashes(p) && h == BucketOf(node.iden)
      requires Circular(heads[h], Part(p, hs, h) + [node])
      requires forall g :: 0 <= g < LIST_SIZE && g != h ==> Circular(heads[g], Part(p, hs, g))
      ensures Valid()
    {
      hide BucketOf, Lists.Circular;
      HashesAppend(p, node);
      forall g | 0 <= g < LIST_SIZE ensures Linked(g) {
        PartAppend(p, hs, node, h, g);
        assert Part(p, hs, g) + [] == Part(p, hs, g);
      }
    }

    /**
     The search of `parse_response`: the oldest request with the id is unlinked.  `null` when there is none,
     where the program goes on with the list head for a request.
     */
    method Match(iden: uint16) returns (item: RequestNode?, ghost at: nat)
      requires Valid()
      modifies this`pending, heads[..]`next, heads[..]`prev, pending`next, pending`prev
      ensures Valid()
      ensures item != null <==> old(Outstanding(pending, iden))
      ensures item == null ==> pending == old(pending)
      ensures item != null ==>
                IsOldest(old(pending), iden, at) && item == old(pending)[at] && pending == Without(old(pending), at)
      ensures item != null ==> item.next == null && item.prev == null
    {
      hide BucketOf;
      var h := BucketOf(iden);
      ghost var p, hs := pending, Hashes(pending);
      ghost var items := Part(p, hs, h);
      assert Linked(h);
      PartMembers(p, hs, h);
      var head := heads[h];
      assert head in heads[..];
      assert Nth(head, items, 0) == head && Nth(head, items, 0).next == Nth(head, items, 1);
      assert items != [] ==> Nth(head, items, 1).next == Nth(head, items, 2);
      var pos := head.next;
      var nxt := pos.next;
      ghost var j := 0;
      while pos != head
        invariant j <= |items| && pos == Nth(head, items, j + 1) && (j < |items| ==> nxt == Nth(head, items, j + 2))
        invariant forall i :: 0 <= i < j ==> items[i].iden != iden
        modifies {}
        decreases |items| - j
      {
        if pos.iden == iden {
          break;
        }
        j := j + 1;
        pos := nxt;
        assert Nth(head, items, j + 1) == pos && (pos == head ==> pos == Nth(head, items, 0));
        nxt := nxt.next;
      }
      if pos == head {
        NoneInPart(p, hs, iden);
        return null, 0;
      }
      at := OldestPlace(p, hs, iden, j);
      item := pos;
      Unlink(h, item, at, j);
    }

    /** `list_del` of the request found. */
    method Unlink(h: nat, item: RequestNode, ghost i: nat, ghost j: nat)
      requires Valid() && i < |pending| && item == pending[i] && h == BucketOf(item.iden)
      requires var items := Part(pending, Hashes(pending), h); j < |items| && items[j] == item
      modifies this`pending, heads[..]`next, heads[..]`prev, pending`next, pending`prev
      ensures Valid() && pending == Without(old(pending), i) && item.next == null && item.prev == null
    {
      hide BucketOf, Lists.Circular;
      ghost var p, hs := pending, Hashes(pending);
      ghost var items := Part(p, hs, h);
      assert Linked(h);
      PartMembers(p, hs, h);
      assert heads[h] in heads[..];
      ListDel(item, heads[h], items, j);
      forall g | 0 <= g < LIST_SIZE && g != h ensures Circular(heads[g], Part(p, hs, g)) {
        assert old(Linked(g));
        PartMembers(p, hs, g);
        PartsApart(p, hs, g, h);
        assert heads[g] in heads[..];
      }
      pending := Without(p, i);
      Removed(p, hs, i, h, j);
    }
  }

  lemma PlaceOf(a: seq<RequestNode>, n: RequestNode, c: seq<RequestNode>, b: seq<RequestNode>, j: nat)
    requires b == a + [n] + c && NoDuplicates(b) && j < |b| && b[j] == n
    ensures j == |a| && a + c == Without(b, j)
  {
    assert b[|a|] == n;
  }

  lemma {:induction false} HashAt(p: seq<RequestNode>, i: nat)
    requires i < |p|
    ensures Hashes(p)[i] == BucketOf(p[i].iden)
  {
    hide BucketOf;
    if i < |p| - 1 {
      HashAt(p[..|p| - 1], i);
    }
  }

  lemma HashesWithout(p: seq<RequestNode>, i: nat)
    requires i < |p|
    ensures Hashes(Without(p, i)) == Without(Hashes(p), i)
  {
    hide BucketOf, Hashes;
    SplitAt(p, i);
    HashesAround(p[..i], p[i], p[i + 1..]);
  }

  lemma HashesAround(a: seq<RequestNode>, n: RequestNode, c: seq<RequestNode>)
    ensures |Hashes(a + [n] + c)| == |a| + 1 + |c|
    ensures Hashes(a + c) == Without(Hashes(a + [n] + c), |a|)
  {
    hide BucketOf, Hashes;
    HashesConcat(a, c);
    HashesConcat(a + [n], c);
    HashesAppend(a, n);
    WithoutMiddle(Hashes(a), BucketOf(n.iden), Hashes(c));
  }

  lemma {:induction false} HashesConcat(p: seq<RequestNode>, q: seq<RequestNode>)
    ensures Hashes(p + q) == Hashes(p) + Hashes(q)
  {
    hide BucketOf;
    if q == [] {
      assert p + q == p;
    } else {
      HashesConcat(p, q[..|q| - 1]);
      assert (p + q)[..|p + q| - 1] == p + q[..|q| - 1];
    }
  }

  /** No request of the bucket has the id: then none at all. */
  lemma NoneInPart(p: seq<RequestNode>, hs: seq<nat>, iden: uint16)
    requires hs == Hashes(p)
    requires var b := Part(p, hs, BucketOf(iden)); forall i :: 0 <= i < |b| ==> b[i].iden != iden
    ensures !Outstanding(p, iden)
  {
    hide BucketOf;
    forall i | 0 <= i < |p| ensures p[i].iden != iden {
      HashAt(p, i);
      var j := InItsPart(p, hs, i);
    }
  }

  /** The first of its bucket with the id is the oldest at all. */
  lemma OldestPlace(p: seq<RequestNode>, hs: seq<nat>, iden: uint16, j: nat) returns (i: nat)
    requires hs == Hashes(p) && NoDuplicates(p)
    requires var b := Part(p, hs, BucketOf(iden)); j < |b| && b[j].iden == iden && forall k :: 0 <= k < j ==>
        b[k].iden != iden
    ensures IsOldest(p, iden, i) && p[i] == Part(p, hs, BucketOf(iden))[j]
  {
    hide BucketOf;
    var h := BucketOf(iden);
    i := Origin(p, hs, h, j);
    PartSplit(p, hs, i, h);
    PartDistinct(p, hs, h);
    var a, c := Part(p[..i], hs[..i], h), Part(p[i + 1..], hs[i + 1..], h);
    PlaceOf(a, p[i], c, Part(p, hs, h), j);
    forall k | 0 <= k < i ensures p[k].iden != iden {
      HashAt(p, k);
      if hs[k] == h {
        var m := InItsPart(p[..i], hs[..i], k);
        assert Part(p, hs, h)[m] == p[k];
      }
    }
  }

  lemma HashesAppend(p: seq<RequestNode>, n: RequestNode)
    ensures Hashes(p + [n]) == Hashes(p) + [BucketOf(n.iden)]
  {
    hide BucketOf;
    assert (p + [n])[..|p|] == p;
  }
}
