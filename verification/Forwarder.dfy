/**
 The upstream side of net_forward/net_forward.c: a response meets its request, the cache learns, and the request
 goes on to be answered.
 */
module Forwarder {
  import opened Bytes
  import opened Names
  import Wire
  import opened Lists
  import opened Sequences
  import opened Pending
  import opened FirstWrites
  import opened Cache
  import NetRing
  import Ring
  import Answer

  /** No object of the table and its requests belongs to the cache. */
  ghost predicate Apart(table: PendingTable, cache: HashTable)
    reads table, table.heads, cache
  {
    && table !in cache.repr && table.heads !in cache.repr
    && (forall h :: 0 <= h < table.heads.Length ==> table.heads[h] !in cache.repr)
    && (forall n :: n in table.pending ==> n !in cache.repr && n.shost !in cache.repr)
  }

  /** The request holds the host name `name`, as the parser left it. */
  ghost predicate Asks(n: RequestNode, name: Name)
    reads n`hostLen, n.shost
  {
    IsName(name) && n.hostLen == |name| && Wire.Holds(n.shost[..], name)
  }

  /**
   `name` is what the oldest request with the response's id asks for, and its walk over the response stays in the
   buffer.
   */
  ghost predicate HeardByOldest(table: PendingTable, name: Name, b: seq<byte>, len: nat)
    requires 2 <= |b| && len <= |b|
    reads table`pending, table.pending`iden, table.pending`hostLen, table.pending`ipv4,
      set n | n in table.pending :: n.shost
  {
    forall i: nat :: IsOldest(table.pending, Wire.GetId(b), i) ==>
      Asks(table.pending[i], name) && Answer.Heard(b, len, |name|, table.pending[i].ipv4) != Answer.Outside
  }

  /** The node still has its id and its name. */
  twostate predicate Kept(n: RequestNode)
    reads n`iden, n`hostLen, n.shost
  {
    n.iden == old(n.iden) && n.hostLen == old(n.hostLen) && n.shost[..] == old(n.shost[..])
  }

  /**
   `parse_response` for a response whose id is outstanding.  The oldest request with that id leaves the table, gets
   the address that a walk from behind its own question finds in the response, its host name is cached with it
   unless it was cached before, and it is put into the bundle ring, or lost when that is full.
   */
  method ParseResponse(buff: array<byte>, bufflen: nat, table: PendingTable, cache: HashTable,
                       bundle: NetRing.NetRing, address: RequestNode -> Ring.Item, ghost name: Name)
    returns (item: RequestNode, ghost at: nat)
    requires 2 <= buff.Length && bufflen <= buff.Length && buff !in cache.repr
    requires table.Valid() && cache.Valid() && Apart(table, cache)
    requires bundle.Valid() && bundle !in cache.repr && bundle.ring !in cache.repr
    requires Outstanding(table.pending, Wire.GetId(buff[..])) && HeardByOldest(table, name, buff[..], bufflen)
    modifies table`pending, table.heads[..]`next, table.heads[..]`prev
    modifies table.pending`next, table.pending`prev, table.pending`ipv4, cache.repr, bundle, bundle.ring
    ensures table.Valid() && cache.Valid() && bundle.Valid()
    ensures old(IsOldest(table.pending, Wire.GetId(buff[..]), at)) && item == old(table.pending)[at]
    ensures table.pending == Without(old(table.pending), at)
    ensures Answer.Address(item.ipv4) == old(Answer.Heard(buff[..], bufflen, |name|, table.pending[at].ipv4))
    ensures forall n :: n in table.pending ==> n.ipv4 == old(n.ipv4)
    ensures forall n :: n in old(table.pending) ==> Kept(n)
    ensures cache.contents == Store(old(cache.contents), Record(name, item.ipv4))
    ensures bundle.contents == NetRing.Offered(old(bundle.contents), bundle.size, address(item))
  {
    hide Pending.BucketOf, Wire.Holds, Store, HeardByOldest, Answer.Heard;
    hide PendingTable.Valid, HashTable.Valid, NetRing.NetRing.Valid;
    item, at := AnswerOldest(buff, bufflen, table, name);
    Learn(item, table, cache, name);
    HandOn(item, table, cache, bundle, address);
  }

  /** The search for the request and the walk over the answers. */
  method AnswerOldest(buff: array<byte>, bufflen: nat, table: PendingTable, ghost name: Name)
    returns (item: RequestNode, ghost at: nat)
    requires 2 <= buff.Length && bufflen <= buff.Length && table.Valid()
    requires Outstanding(table.pending, Wire.GetId(buff[..])) && HeardByOldest(table, name, buff[..], bufflen)
    modifies table`pending, table.heads[..]`next, table.heads[..]`prev
    modifies table.pending`next, table.pending`prev, table.pending`ipv4
    ensures old(IsOldest(table.pending, Wire.GetId(buff[..]), at)) && item == old(table.pending)[at]
    ensures table.Valid() && table.pending == Without(old(table.pending), at)
    ensures Answer.Address(item.ipv4) == old(Answer.Heard(buff[..], bufflen, |name|, table.pending[at].ipv4))
    ensures forall n :: n in table.pending ==> n.ipv4 == old(n.ipv4)
    ensures Asks(item, name)
  {
    hide Pending.BucketOf, Asks, Answer.WalkFrom;
    var iden: uint16 := (buff[0] as int) + (buff[1] as int) * 256;
    assert iden == Wire.GetId(buff[..]) && NoDuplicates(table.pending);
    hide Wire.GetId, PendingTable.Valid, Outstanding, Answer.Heard;
    var found;
    found, at := table.Match(iden);
    item := found;
    assert Asks(item, name);
    LeftAlone(old(table.pending), at);
    var ip := Walk(item, buff, bufflen, name);
    item.ipv4 := ip;
  }

  lemma LeftAlone(p: seq<RequestNode>, at: nat)
    requires NoDuplicates(p) && at < |p|
    ensures p[at] !in Without(p, at)
  {
  }

  /** The walk begins behind the question that the request asked. */
  method Walk(item: RequestNode, buff: array<byte>, bufflen: nat, ghost name: Name) returns (ip: uint32)
    requires bufflen <= buff.Length && Asks(item, name)
        && Answer.Heard(buff[..], bufflen, |name|, item.ipv4) != Answer.Outside
    ensures Answer.Address(ip) == Answer.Heard(buff[..], bufflen, |name|, item.ipv4)
  {
    ip := Answer.Walk(buff, bufflen, Wire.HEADER + item.hostLen + 6, item.ipv4);
  }

  /** The cache fill of `parse_response`, which leaves the table alone. */
  method Learn(item: RequestNode, table: PendingTable, cache: HashTable, ghost name: Name)
    requires table.Valid() && cache.Valid() && Apart(table, cache) && item !in cache.repr && item.shost !in cache.repr
    requires IsName(name) && item.hostLen == |name| && Wire.Holds(item.shost[..], name)
    modifies cache.repr
    ensures table.Valid() && cache.Valid() && item.ipv4 == old(item.ipv4)
    ensures table.pending == old(table.pending) && fresh(cache.repr - old(cache.repr))
    ensures cache.contents == Store(old(cache.contents), Record(name, item.ipv4))
  {
    hide Pending.BucketOf, HashTable.Valid, Store, Lists.Circular;
    var ret := cache.Insert(item.shost[..item.hostLen], item.hostLen, item.ipv4);
    forall h | 0 <= h < LIST_SIZE ensures table.Linked(h) {
      assert old(table.Linked(h));
    }
  }

  /** The last step: the request goes to the thread that answers. */
  method HandOn(item: RequestNode, table: PendingTable, cache: HashTable, bundle: NetRing.NetRing,
                address: RequestNode -> Ring.Item)
    requires table.Valid() && cache.Valid() && bundle.Valid() && bundle !in cache.repr && bundle.ring !in cache.repr
    modifies bundle, bundle.ring
    ensures table.Valid() && cache.Valid() && bundle.Valid()
    ensures bundle.contents == NetRing.Offered(old(bundle.contents), bundle.size, address(item))
  {
    hide Pending.BucketOf;
    var ret := bundle.Enqueue(address(item));
    forall h | 0 <= h < LIST_SIZE ensures table.Linked(h) {
      assert old(table.Linked(h));
    }
  }
}
