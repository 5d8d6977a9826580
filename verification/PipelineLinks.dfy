/** The steps of the pipeline are what the parser, the responses and the rings of the other modules do. */
module PipelineLinks {
  import opened Bytes
  import opened Names
  import opened FirstWrites
  import opened Cache
  import opened Lists
  import opened Sequences
  import opened Pipeline
  import Pending
  import Forwarder
  import NetRing
  import Ring
  import RingTheorems
  import QueryParser
  import Wire
  import Answer

  // Nodes stand for requests: `address`, which is what the rings store, is taken to be the number of the request.

  /** The node holds id and name of request `i`. */
  ghost predicate Named(n: RequestNode, s: State, i: nat)
    reads n`iden, n`hostLen, n.shost
  {
    i < |s.received| == |s.ips| && n.iden == QueryOf(s, i).iden && Forwarder.Asks(n, QueryOf(s, i).name)
  }

  /** The node holds what the pipeline knows of request `i`. */
  ghost predicate Stands(n: RequestNode, s: State, i: nat)
    reads n`iden, n`hostLen, n`ipv4, n.shost
  {
    Named(n, s, i) && n.ipv4 == IpOf(s, i)
  }

  /** `q` is what the parser makes of message `b`, in which the name of `ls` is asked for if it is a query. */
  ghost predicate ReadAs(b: seq<byte>, ls: seq<Wire.Label>, q: Query) {
    && (q.accepted <==> QueryParser.IsQuery(b, ls))
    && (q.accepted ==> q.name == Wire.Dotted(ls) && q.iden == Wire.GetId(b))
  }

  // ---------- the parser ----------

  /** `net_work_module_inside_parser` does what the two steps of the worker do: the look-up and the enqueue. */
  method ParserFollows(node: RequestNode, cache: HashTable, forward: NetRing.NetRing, bundle: NetRing.NetRing,
                       address: RequestNode -> Ring.Item, ghost ls: seq<Wire.Label>, ghost cap: nat, ghost s: State)
    returns (ret: int, ghost t: State)
    requires node.request.Length == Wire.REQUEST_LEN && node.shost.Length == DOMAIN_LEN && node.request != node.shost
    requires Wire.Holds(node.shost[..], [])
    requires QueryParser.HeaderAccepted(node.request[..]) && Char(node.request[Wire.HEADER]) > 0 ==>
               QueryParser.HasName(node.request[..], Wire.HEADER, ls)
    requires cache.Valid() && node !in cache.repr && node.shost !in cache.repr
    requires forward.Valid() && bundle.Valid() && forward != bundle && forward.ring != bundle.ring
    requires {forward, forward.ring, bundle, bundle.ring} !! cache.repr
    requires cache.contents == s.cache && forward.contents == s.forward && bundle.contents == s.bundle
    requires forward.size == bundle.size == cap + 1
    requires s.workHand == [address(node)] && s.workFound == [] && address(node) < |s.received| == |s.ips|
    requires node.ipv4 == IpOf(s, address(node))
    requires ReadAs(node.request[..], ls, QueryOf(s, address(node)))
    modifies node`iden, node`hostLen, node`ipv4, node.shost, forward, forward.ring, bundle, bundle.ring
    ensures t == Step(cap, Step(cap, s, WorkLook), WorkPut)
    ensures cache.Valid() && forward.Valid() && bundle.Valid()
    ensures cache.contents == t.cache && forward.contents == t.forward && bundle.contents == t.bundle
    ensures ret == 0 ==> Stands(node, t, address(node))
    ensures ret == -1 ==> t.dropped == s.dropped + [address(node)]
    ensures ret == if QueryOf(s, address(node)).accepted then 0 else -1
  {
    assert |forward.contents| <= cap && |bundle.contents| <= cap;
    hide QueryParser.HeaderAccepted, QueryParser.HasName, QueryParser.Accepted, QueryParser.IsQuery,
      Wire.Holds, Wire.Dotted, Wire.QName,
      Lookup;
    hide HashTable.Valid, NetRing.NetRing.Valid;
    t := Step(cap, Step(cap, s, WorkLook), WorkPut);
    WorkerSteps(cap, s);
    hide Step, NetRing.Offered;
    ghost var route;
    ghost var b := node.request[..];
    ret, route := QueryParser.Parse(node, cache, forward, bundle, address, ls);
    if ret == 0 {
      QueryParser.AcceptedHeader(b, ls);
      QueryParser.AcceptedName(b, ls);
    }
  }

  /** What the two steps of the worker do. */
  lemma WorkerSteps(cap: nat, s: State)
    requires |s.workHand| == 1 && s.workFound == [] && s.workHand[0] < |s.ips| && |s.forward| <= cap
        && |s.bundle| <= cap
    ensures var i := s.workHand[0]; var q := QueryOf(s, i);
      var ip := Lookup(s.cache, q.name);
      var t := Step(cap, Step(cap, s, WorkLook), WorkPut);
      && t.received == s.received && t.cache == s.cache && |t.ips| == |s.ips|
      && IpOf(t, i) == (if q.accepted && ip != 0 then ip else IpOf(s, i))
      && t.forward == (if q.accepted && ip == 0 then NetRing.Offered(s.forward, cap + 1, i) else s.forward)
      && t.bundle == (if q.accepted && ip != 0 then NetRing.Offered(s.bundle, cap + 1, i) else s.bundle)
      && (!q.accepted ==> t.dropped == s.dropped + [i])
  {
    hide Lookup;
  }

  // ---------- responses ----------

  /** The nodes in the table stand for the outstanding requests. */
  ghost predicate TableStands(table: Pending.PendingTable, address: RequestNode -> Ring.Item, s: State)
    reads table`pending, table.pending`iden, table.pending`hostLen, table.pending`ipv4
    reads set n | n in table.pending :: n.shost
  {
    && |table.pending| == |s.pending|
    && forall j :: 0 <= j < |s.pending| ==>
         address(table.pending[j]) == s.pending[j] && Stands(table.pending[j], s, s.pending[j])
  }

  /** `parse_response` does what the two steps of the forwarder do: the response and the enqueue. */
  method ResponseFollows(buff: array<byte>, bufflen: nat, table: Pending.PendingTable, cache: HashTable,
                         bundle: NetRing.NetRing,
                         address: RequestNode -> Ring.Item, ghost stray: uint32, ghost cap: nat, ghost s: State)
    returns (item: RequestNode, ghost t: State)
    requires InBuffer(buff[..], bufflen) && buff !in cache.repr
    requires table.Valid() && cache.Valid() && Forwarder.Apart(table, cache)
    requires bundle.Valid() && bundle !in cache.repr && bundle.ring !in cache.repr
    requires TableStands(table, address, s) && cache.contents == s.cache && bundle.contents == s.bundle
    requires bundle.size == cap + 1 && s.replyHand == [] && NoDuplicates(s.pending)
    requires var k := Oldest(s, s.pending, Wire.GetId(buff[..]));
      && k < |s.pending|
      && Answer.Heard(buff[..], bufflen, |QueryOf(s, s.pending[k]).name|, IpOf(s, s.pending[k])) != Answer.Outside
    modifies table`pending, table.heads[..]`next, table.heads[..]`prev
    modifies table.pending`next, table.pending`prev, table.pending`ipv4, cache.repr, bundle, bundle.ring
    ensures t == Step(cap, Step(cap, s, Response(old(buff[..]), bufflen, stray)), ReplyPut)
    ensures table.Valid() && cache.Valid() && bundle.Valid()
    ensures TableStands(table, address, t) && cache.contents == t.cache && bundle.contents == t.bundle
    ensures Stands(item, t, address(item))
  {
    assert |bundle.contents| <= cap;
    hide Pending.PendingTable.Valid, HashTable.Valid, NetRing.NetRing.Valid, Answer.Heard, Wire.Holds, Store,
      NetRing.Offered;
    ghost var b, p := buff[..], table.pending;
    ghost var k := Oldest(s, s.pending, Wire.GetId(b));
    t := Step(cap, Step(cap, s, Response(b, bufflen, stray)), ReplyPut);
    OldestStands(table, address, s, b, bufflen);
    ResponseSteps(cap, s, b, bufflen, stray);
    assert forall j :: 0 <= j < |p| ==> address(p[j]) == s.pending[j] && Stands(p[j], s, s.pending[j]);
    KnownAll(p, s);
    assert IpOf(t, s.pending[k]) == Answer.Heard(b, bufflen, |QueryOf(s, s.pending[k]).name|, IpOf(s, s.pending[k])).ip;
    hide Step, Oldest, QueryOf, IpOf, SetIp, Forwarder.HeardByOldest, Forwarder.Apart, Named, Stands, TableStands;
    hide Pending.IsOldest, Pending.Outstanding;
    item := HandleResponse(buff, bufflen, table, cache, bundle, address, s, k);
    TableAfter(table, address, s, t, p, k);
    ItemAfter(item, s, t, s.pending[k]);
  }

  /** `parse_response`, in which all nodes but the one matched stand for the same requests as before. */
  method HandleResponse(buff: array<byte>, bufflen: nat, table: Pending.PendingTable, cache: HashTable,
                        bundle: NetRing.NetRing,
                        address: RequestNode -> Ring.Item, ghost s: State, ghost k: nat)
    returns (item: RequestNode)
    requires InBuffer(buff[..], bufflen) && buff !in cache.repr
    requires table.Valid() && cache.Valid() && Forwarder.Apart(table, cache)
    requires bundle.Valid() && bundle !in cache.repr && bundle.ring !in cache.repr
    requires TableStands(table, address, s) && k < |s.pending|
    requires forall i: nat :: Pending.IsOldest(table.pending, Wire.GetId(buff[..]), i) ==> i == k
    requires Pending.Outstanding(table.pending, Wire.GetId(buff[..]))
    requires Forwarder.HeardByOldest(table, QueryOf(s, s.pending[k]).name, buff[..], bufflen)
    modifies table`pending, table.heads[..]`next, table.heads[..]`prev
    modifies table.pending`next, table.pending`prev, table.pending`ipv4, cache.repr, bundle, bundle.ring
    ensures table.Valid() && cache.Valid() && bundle.Valid()
    ensures table.pending == Without(old(table.pending), k) && item == old(table.pending)[k]
    ensures Named(item, s, s.pending[k])
    ensures forall j :: 0 <= j < |s.pending| && j != k ==> Stands(old(table.pending)[j], s, s.pending[j])
    ensures Answer.Address(item.ipv4) == old(Answer.Heard(buff[..], bufflen, |QueryOf(s, s.pending[k]).name|,
        IpOf(s, s.pending[k])))
    ensures cache.contents == Store(old(cache.contents), Record(QueryOf(s, s.pending[k]).name, item.ipv4))
    ensures bundle.contents == NetRing.Offered(old(bundle.contents), bundle.size, address(item))
  {
    hide Pending.PendingTable.Valid, HashTable.Valid, NetRing.NetRing.Valid, Answer.Heard, Wire.Holds, Store,
      NetRing.Offered;
    hide Forwarder.HeardByOldest, Pending.IsOldest, Pending.Outstanding, QueryOf, IpOf, IsName;
    ghost var p := table.pending;
    ghost var at;
    item, at := Forwarder.ParseResponse(buff, bufflen, table, cache, bundle, address, QueryOf(s, s.pending[k]).name);
    forall j | 0 <= j < |p| && j != k ensures Stands(p[j], s, s.pending[j]) {
      KeptIn(p, k, j);
      assert Forwarder.Kept(p[j]);
    }
    assert Forwarder.Kept(p[k]);
  }

  lemma KnownAll(p: seq<RequestNode>, s: State)
    requires |p| == |s.pending| && forall j :: 0 <= j < |p| ==> Stands(p[j], s, s.pending[j])
    ensures forall j :: 0 <= j < |p| ==> s.pending[j] < |s.received| == |s.ips|
  {
    forall j | 0 <= j < |p| ensures s.pending[j] < |s.received| == |s.ips| {
      assert Stands(p[j], s, s.pending[j]);
    }
  }

  lemma ItemAfter(n: RequestNode, s: State, t: State, i: nat)
    requires Named(n, s, i) && t.received == s.received && |t.ips| == |s.ips| && n.ipv4 == IpOf(t, i)
    ensures Stands(n, t, i)
  {
  }

  lemma KeptIn(p: seq<RequestNode>, k: nat, j: nat)
    requires k < |p| && j < |p| && j != k
    ensures p[j] in Without(p, k)
  {
    assert p[j] == Without(p, k)[if j < k then j else j - 1];
  }

  /** Without request `k` the others stand as before. */
  lemma TableAfter(table: Pending.PendingTable, address: RequestNode -> Ring.Item, s: State, t: State,
                   p: seq<RequestNode>, k: nat)
    requires k < |s.pending| == |p| && NoDuplicates(s.pending) && table.pending == Without(p, k)
        && t.pending == Without(s.pending, k)
    requires forall j :: 0 <= j < |p| ==> address(p[j]) == s.pending[j] && s.pending[j] < |s.received| == |s.ips|
    requires forall j :: 0 <= j < |p| && j != k ==> Stands(p[j], s, s.pending[j])
    requires t.received == s.received && |t.ips| == |s.ips| && forall i :: i != s.pending[k] ==>
        IpOf(t, i) == IpOf(s, i)
    ensures TableStands(table, address, t)
  {
    hide Wire.Holds;
    forall j | 0 <= j < |t.pending|
      ensures address(table.pending[j]) == t.pending[j] && Stands(table.pending[j], t, t.pending[j])
    {
      var i := if j < k then j else j + 1;
      assert table.pending[j] == p[i] && t.pending[j] == s.pending[i] != s.pending[k];
      assert Stands(p[i], s, s.pending[i]);
    }
  }

  /** The oldest request with the id is the same one in the table and in the pipeline. */
  lemma OldestStands(table: Pending.PendingTable, address: RequestNode -> Ring.Item, s: State, b: seq<byte>, len: nat)
    requires TableStands(table, address, s) && InBuffer(b, len)
    requires var k := Oldest(s, s.pending, Wire.GetId(b));
      k < |s.pending| && Answer.Heard(b, len, |QueryOf(s, s.pending[k]).name|, IpOf(s, s.pending[k])) != Answer.Outside
    ensures var k := Oldest(s, s.pending, Wire.GetId(b));
      && Pending.Outstanding(table.pending, Wire.GetId(b))
      && Forwarder.HeardByOldest(table, QueryOf(s, s.pending[k]).name, b, len)
      && forall i: nat :: Pending.IsOldest(table.pending, Wire.GetId(b), i) ==> i == k
  {
    hide Answer.Heard, Wire.GetId;
    var id := Wire.GetId(b);
    var k := Oldest(s, s.pending, id);
    assert Stands(table.pending[k], s, s.pending[k]);
    forall i: nat | Pending.IsOldest(table.pending, id, i) ensures i == k {
      assert Stands(table.pending[i], s, s.pending[i]);
    }
  }

  /** What the two steps do when the walk stays in the buffer. */
  lemma ResponseSteps(cap: nat, s: State, b: seq<byte>, len: nat, stray: uint32)
    requires InBuffer(b, len) && s.replyHand == [] && |s.bundle| <= cap
    requires var k := Oldest(s, s.pending, Wire.GetId(b));
      k < |s.pending| && Answer.Heard(b, len, |QueryOf(s, s.pending[k]).name|, IpOf(s, s.pending[k])) != Answer.Outside
    ensures var k := Oldest(s, s.pending, Wire.GetId(b)); var i := s.pending[k];
      var ip := Answer.Heard(b, len, |QueryOf(s, i).name|, IpOf(s, i)).ip;
      var t := Step(cap, Step(cap, s, Response(b, len, stray)), ReplyPut);
      && t.pending == Without(s.pending, k) && t.received == s.received
      && |t.ips| == |s.ips| && (i < |s.ips| ==> IpOf(t, i) == ip) && (forall j :: j != i ==> IpOf(t, j) == IpOf(s, j))
      && t.cache == Store(s.cache, Record(QueryOf(s, i).name, ip)) && t.bundle == NetRing.Offered(s.bundle, cap + 1, i)
  {
    hide Answer.Heard, Store;
  }

  // ---------- the rings ----------

  /** What a hand has taken out of its ring in a step. */
  ghost function Taken(before: seq<nat>, after: seq<nat>): seq<nat> {
    if before == [] then after else []
  }

  /** The queues of `t` are those of `s`, with `i` at the end of at most one of them. */
  ghost predicate Extends(s: State, t: State, i: nat) {
    && t.workHand == s.workHand && t.forwardHand == s.forwardHand && t.bundleHand == s.bundleHand
    && (t.work == s.work || t.work == s.work + [i]) && (t.forward == s.forward || t.forward == s.forward + [i])
    && (t.bundle == s.bundle || t.bundle == s.bundle + [i])
  }

  lemma PutExtends(cap: nat, s: State, i: nat)
    ensures Extends(s, ToWork(cap, s, i), i) && Extends(s, ToForward(cap, s, i), i)
        && Extends(s, ToBundle(cap, s, i), i)
  {
  }

  /** Each step is a step of a queue at each of the three rings. */
  lemma RingsAreQueues(cap: nat, s: State, e: Event, out: seq<nat>)
    requires Hands(s)
    ensures var t := Step(cap, s, e);
      && RingTheorems.QueueStep(s.work, t.work, out, out + Taken(s.workHand, t.workHand))
      && RingTheorems.QueueStep(s.forward, t.forward, out, out + Taken(s.forwardHand, t.forwardHand))
      && RingTheorems.QueueStep(s.bundle, t.bundle, out, out + Taken(s.bundleHand, t.bundleHand))
  {
    hide ToWork, ToForward, ToBundle, HeardBy;
    assert out + [] == out;
    match e
    case Receive(q) => PutExtends(cap, s.(received := s.received + [q], ips := s.ips + [0]), |s.received|);
    case WorkPut => if |s.workHand| == 1 { PutExtends(cap, s.(workHand := [], workFound := []), s.workHand[0]); }
    case ReplyPut => if |s.replyHand| == 1 { PutExtends(cap, s.(replyHand := []), s.replyHand[0]); }
    case _ =>
  }
}
