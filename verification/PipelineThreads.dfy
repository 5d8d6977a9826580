/** The ends of the pipeline on nodes, rings and table: a request comes in, is taken out, is sent on, is answered. */
module PipelineThreads {
  import opened Bytes
  import opened Names
  import opened Lists
  import opened Pipeline
  import opened PipelineLinks
  import opened Cache
  import opened FirstWrites
  import PipelineProgress
  import Pending
  import NetRing
  import Ring
  import QueryParser
  import RoundTrip
  import Wire
  import Answer

  // ---------- receiving ----------

  /** A message in the zeroed buffer of a new node. */
  function Padded(message: seq<byte>): seq<byte>
    requires |message| <= Wire.REQUEST_LEN
  {
    message + seq(Wire.REQUEST_LEN - |message|, _ => 0)
  }

  /**
   `net_bundle_core_module_inside_udp_cb` does what the arrival of a request does: a new node holds the message, and
   `item`, which stands for its address, goes to the end of the work ring, or is lost when that is full.  An empty
   message goes nowhere.
   */
  method ReceiveFollows(message: seq<byte>, work: NetRing.NetRing, item: Ring.Item, ghost ls: seq<Wire.Label>,
                        ghost q: Query, ghost cap: nat, ghost s: State)
    returns (node: RequestNode, ghost t: State)
    requires |message| <= Wire.REQUEST_LEN && work.Valid() && work.contents == s.work && work.size == cap + 1
    requires item == |s.received| == |s.ips| && ReadAs(Padded(message), ls, q)
    modifies work, work.ring
    ensures t == if message == [] then s else Step(cap, s, Receive(q))
    ensures work.Valid() && work.contents == t.work
    ensures message != [] && |s.work| == cap ==> t.dropped == s.dropped + [item] && t.work == s.work
    ensures message != [] && |s.work| < cap ==> t.dropped == s.dropped && t.work == s.work + [item]
    ensures fresh(node) && fresh(node.request) && fresh(node.shost) && node.shost.Length == DOMAIN_LEN
    ensures node.request != node.shost
    ensures node.request[..] == Padded(message) && node.datalen == |message| && Wire.Holds(node.shost[..], [])
    ensures message != [] ==> node.ipv4 == IpOf(t, item) && ReadAs(node.request[..], ls, QueryOf(t, item))
  {
    assert |work.contents| <= cap;
    hide NetRing.NetRing.Valid, ReadAs, Wire.Holds;
    node := new RequestNode();
    assert Wire.Holds(node.shost[..], []) by { EmptyName(node.shost[..]); }
    var i := 0;
    while i < |message|
      invariant 0 <= i <= |message|
      invariant forall k :: 0 <= k < Wire.REQUEST_LEN ==> node.request[k] == if k < i then message[k] else 0
      modifies node.request
    {
      node.request[i] := message[i];
      i := i + 1;
    }
    t := s;
    if |message| > 0 {
      node.datalen := |message|;
      t := Step(cap, s, Receive(q));
      var ret := work.Enqueue(item);
    }
    assert node.request[..] == Padded(message);
  }

  lemma EmptyName(b: seq<byte>)
    requires b != [] && forall i :: 0 <= i < |b| ==> b[i] == 0
    ensures Wire.Holds(b, [])
  {
  }

  // ---------- taking out ----------

  /** The worker's `dequeue` does what its step does: it has the oldest request in its hand, or nothing happens. */
  method TakeFollows(work: NetRing.NetRing, ghost cap: nat, ghost s: State)
    returns (ret: int, item: Ring.Item, ghost t: State)
    requires work.Valid() && work.contents == s.work && s.workHand == []
    modifies work
    ensures t == Step(cap, s, WorkTake) && work.Valid() && work.contents == t.work
    ensures if s.work == [] then ret == -1 && t == s else ret == 0 && item == s.work[0] && t.workHand == [item]
  {
    t := Step(cap, s, WorkTake);
    ret, item := work.Dequeue();
  }

  // ---------- sending on ----------

  /** The node that is next in a ring; `nodes` is what the addresses in the rings point to. */
  function NextNode(q: seq<nat>, nodes: map<Ring.Item, RequestNode>): set<RequestNode> {
    if q != [] && q[0] in nodes then {nodes[q[0]]} else {}
  }

  /** The messages of the nodes. */
  function Messages(ns: set<RequestNode>): set<object> {
    set n | n in ns :: n.request
  }

  /** The forwarder's `dequeue`, which leaves the table alone. */
  method TakeBeside(forward: NetRing.NetRing, table: Pending.PendingTable) returns (ret: int, item: Ring.Item)
    requires forward.Valid() && table.Valid()
    modifies forward
    ensures forward.Valid() && table.Valid()
    ensures if old(forward.contents) == [] then ret == -1 && forward.contents == []
            else ret == 0 && old(forward.contents) == [item] + forward.contents
  {
    hide NetRing.NetRing.Valid, Pending.BucketOf;
    ret, item := forward.Dequeue();
    forall h | 0 <= h < Pending.LIST_SIZE ensures table.Linked(h) {
      assert old(table.Linked(h));
    }
  }

  /** A node that is not in the table and shares no buffer with the names there. */
  ghost predicate Fits(n: RequestNode, table: Pending.PendingTable)
    reads table, table.heads
  {
    && n !in table.pending && n !in table.heads[..] && n.request.Length == Wire.REQUEST_LEN && n.request != n.shost
    && forall m :: m in table.pending ==> m.shost != n.request
  }

  /** The message with RD set, all else as it was. */
  ghost predicate Desiring(b: seq<byte>, a: seq<byte>) {
    |b| == |a| == Wire.REQUEST_LEN && a[..2] == b[..2] && a[2] % 2 == 1 && a[2] / 2 == b[2] / 2 && a[3..] == b[3..]
  }

  /**
   The forwarder does what its two steps do.  The request that has waited longest in the forward ring becomes the
   youngest one in the table, and its message goes upstream with RD set.  With nothing to take nothing happens.
   */
  method SendFollows(forward: NetRing.NetRing, nodes: map<Ring.Item, RequestNode>, table: Pending.PendingTable,
                     ghost address: RequestNode -> Ring.Item, ghost cap: nat, ghost s: State)
    returns (ret: int, ghost t: State)
    requires forward.Valid() && forward.contents == s.forward && s.forwardHand == []
    requires table.Valid() && TableStands(table, address, s)
    requires s.forward != [] ==> s.forward[0] in nodes && var n := nodes[s.forward[0]];
      Stands(n, s, s.forward[0]) && address(n) == s.forward[0] && Fits(n, table)
    modifies forward, table`pending, table.heads[..]`next, table.heads[..]`prev, table.pending`next, table.pending`prev
    modifies NextNode(s.forward, nodes)`next, NextNode(s.forward, nodes)`prev, Messages(NextNode(s.forward, nodes))
    ensures t == Step(cap, Step(cap, s, ForwardTake), ForwardSend)
    ensures forward.Valid() && forward.contents == t.forward
    ensures table.Valid() && TableStands(table, address, t)
    ensures s.forward == [] ==> ret == -1 && t == s
    ensures s.forward != [] ==> var i, n := s.forward[0], nodes[s.forward[0]];
      && ret == 0 && t.pending == s.pending + [i] && t.forward == s.forward[1..]
      && Desiring(old(n.request[..]), n.request[..])
  {
    t := Step(cap, Step(cap, s, ForwardTake), ForwardSend);
    SendSteps(cap, s);
    hide NetRing.NetRing.Valid, Pending.PendingTable.Valid, Step, Stands, TableStands, Fits, Desiring;
    var item;
    ret, item := TakeBeside(forward, table);
    if ret == 0 {
      assert s.forward[0] == ([item] + forward.contents)[0] == item;
      SendNode(nodes[item], table, address, s, t);
    }
  }

  /** `net_forward_module_inside_gethostaddr`. */
  method SendNode(node: RequestNode, table: Pending.PendingTable, ghost address: RequestNode -> Ring.Item,
                  ghost s: State, ghost t: State)
    requires table.Valid() && TableStands(table, address, s) && Stands(node, s, address(node)) && Fits(node, table)
    requires t.pending == s.pending + [address(node)] && t.received == s.received && t.ips == s.ips
    modifies table`pending, table.heads[..]`next, table.heads[..]`prev, table.pending`next, table.pending`prev
    modifies node`next, node`prev, node.request
    ensures table.Valid() && TableStands(table, address, t)
    ensures Desiring(old(node.request[..]), node.request[..])
  {
    hide Pending.PendingTable.Valid, Wire.Holds;
    ghost var p := table.pending;
    table.Send(node);
    StandsLater(p + [node], t.pending, address, s, t);
  }

  /** What the two steps of the forwarder do. */
  lemma SendSteps(cap: nat, s: State)
    requires s.forwardHand == []
    ensures Step(cap, Step(cap, s, ForwardTake), ForwardSend) ==
      if s.forward == [] then s else s.(forward := s.forward[1..], pending := s.pending + [s.forward[0]])
  {
  }

  lemma StandsLater(p: seq<RequestNode>, pending: seq<nat>, address: RequestNode -> Ring.Item, s: State, t: State)
    requires |p| == |pending| && forall j :: 0 <= j < |p| ==> address(p[j]) == pending[j] && Stands(p[j], s, pending[j])
    requires t.received == s.received && t.ips == s.ips
    ensures forall j :: 0 <= j < |p| ==> address(p[j]) == pending[j] && Stands(p[j], t, pending[j])
  {
    hide Wire.Holds;
    forall j | 0 <= j < |p| ensures Stands(p[j], t, pending[j]) {
      assert Stands(p[j], s, pending[j]);
    }
  }

  /**
   The answering thread does what its two steps do.  The request `i` that has waited longest in the bundle ring is
   answered: its message goes back with QR and RA set and the address of `i` in the only answer.  With nothing to take
   nothing happens.
   */
  method AnswerFollows(bundle: NetRing.NetRing, nodes: map<Ring.Item, RequestNode>, ghost cap: nat, ghost s: State)
    returns (ret: int, ghost t: State)
    requires bundle.Valid() && bundle.contents == s.bundle && s.bundleHand == []
    requires s.bundle != [] ==> s.bundle[0] in nodes && var n := nodes[s.bundle[0]];
      Stands(n, s, s.bundle[0]) && n.request.Length == Wire.REQUEST_LEN
        && Wire.HEADER <= n.datalen <= Wire.REQUEST_LEN - 16
    modifies bundle, NextNode(s.bundle, nodes)`datalen, Messages(NextNode(s.bundle, nodes))
    ensures t == Step(cap, Step(cap, s, BundleTake), BundleReply)
    ensures bundle.Valid() && bundle.contents == t.bundle
    ensures s.bundle == [] ==> ret == -1 && t == s
    ensures s.bundle != [] ==> var i, n := s.bundle[0], nodes[s.bundle[0]];
      && ret == 0 && t.answered == s.answered + [i] && t.bundle == s.bundle[1..] && t.dropped == s.dropped
      && n.datalen == old(n.datalen) + 16
      && RoundTrip.Answered(old(n.request[..]), n.request[..], old(n.datalen), IpOf(s, i))
  {
    hide NetRing.NetRing.Valid, Wire.Holds, Answer.Reply;
    t := Step(cap, Step(cap, s, BundleTake), BundleReply);
    var item;
    ret, item := bundle.Dequeue();
    if ret == 0 {
      assert s.bundle[0] == ([item] + bundle.contents)[0] == item;
      var node := nodes[item];
      RoundTrip.Reply(node);
    }
  }

  // ---------- from the query to the reply ----------

  /** A query as the parser reads it, and its name is where the parser looks for it. */
  lemma ReadAsQuery(b: seq<byte>, ls: seq<Wire.Label>, q: Query)
    requires |b| == Wire.REQUEST_LEN && QueryParser.IsQuery(b, ls) && ReadAs(b, ls, q)
    ensures q.accepted && q.name == Wire.Dotted(ls) && QueryParser.HasName(b, Wire.HEADER, ls)
  {
  }

  /** The way of a request in the worker's hand that is answered from the cache. */
  lemma CachedSteps(cap: nat, s: State, i: nat)
    requires cap >= 1 && Shape(s) && s.workHand == [i] && s.workFound == [] && i < |s.received|
    requires s.bundle == [] && s.bundleHand == []
    requires QueryOf(s, i).accepted && Lookup(s.cache, QueryOf(s, i).name) != 0
    ensures var u := Step(cap, Step(cap, s, WorkLook), WorkPut);
      var t := Step(cap, Step(cap, u, BundleTake), BundleReply);
      && u.bundle == [i] && u.bundleHand == [] && IpOf(u, i) == s.cache[QueryOf(s, i).name]
      && u.cache == s.cache && u.forward == s.forward && u.answered == s.answered && u.dropped == s.dropped
      && t.cache == s.cache && t.forward == s.forward && t.bundle == []
  {
  }

  /** The parser at a query for a cached name. */
  method ParseOnly(node: RequestNode, cache: HashTable, forward: NetRing.NetRing, bundle: NetRing.NetRing,
                   item: Ring.Item, ghost ls: seq<Wire.Label>, ghost cap: nat, ghost s: State)
    returns (ghost t: State)
    requires node.request.Length == Wire.REQUEST_LEN && node.shost.Length == DOMAIN_LEN && node.request != node.shost
    requires Wire.Holds(node.shost[..], []) && QueryParser.HasName(node.request[..], Wire.HEADER, ls)
    requires cache.Valid() && node !in cache.repr && node.shost !in cache.repr
    requires forward.Valid() && bundle.Valid() && forward != bundle && forward.ring != bundle.ring
    requires {forward, forward.ring, bundle, bundle.ring} !! cache.repr
    requires cache.contents == s.cache && forward.contents == s.forward && bundle.contents == s.bundle
    requires forward.size == bundle.size == cap + 1
    requires s.workHand == [item] && s.workFound == [] && item < |s.received| == |s.ips|
    requires node.ipv4 == IpOf(s, item)
    requires ReadAs(node.request[..], ls, QueryOf(s, item)) && QueryOf(s, item).accepted
    modifies node`iden, node`hostLen, node`ipv4, node.shost, forward, forward.ring, bundle, bundle.ring
    ensures t == Step(cap, Step(cap, s, WorkLook), WorkPut)
    ensures cache.Valid() && forward.Valid() && bundle.Valid()
    ensures cache.contents == t.cache && forward.contents == t.forward && bundle.contents == t.bundle
    ensures node.request[..] == old(node.request[..]) && Stands(node, t, item)
  {
    hide *;
    var ret;
    ret, t := ParserFollows(node, cache, forward, bundle, _ => item, ls, cap, s);
  }

  /** The answer to the only request in the ring. */
  method AnswerOnly(bundle: NetRing.NetRing, node: RequestNode, item: Ring.Item, ghost cap: nat, ghost s: State)
    returns (ghost t: State)
    requires bundle.Valid() && bundle.contents == s.bundle == [item] && s.bundleHand == []
    requires Stands(node, s, item) && node.request.Length == Wire.REQUEST_LEN
        && Wire.HEADER <= node.datalen <= Wire.REQUEST_LEN - 16
    modifies bundle, node`datalen, node.request
    ensures t == Step(cap, Step(cap, s, BundleTake), BundleReply)
    ensures bundle.Valid() && bundle.contents == t.bundle && t.answered == s.answered + [item] && t.dropped == s.dropped
    ensures node.datalen == old(node.datalen) + 16
    ensures RoundTrip.Answered(old(node.request[..]), node.request[..], old(node.datalen), IpOf(s, item))
  {
    hide NetRing.NetRing.Valid, Wire.Holds, RoundTrip.Answered, Stands, Step;
    var ret;
    ret, t := AnswerFollows(bundle, map[item := node], cap, s);
  }

  /**
   A query for a cached name in the worker's hand, when no other waits to be answered: it is answered with the cached
   address, in a reply that begins with the octets of the query, and the upstream server is not asked.
   */
  method ServeCached(node: RequestNode, cache: HashTable, forward: NetRing.NetRing, bundle: NetRing.NetRing,
                     item: Ring.Item, ghost ls: seq<Wire.Label>, ghost cap: nat, ghost s: State)
    returns (ghost t: State)
    requires node.request.Length == Wire.REQUEST_LEN && node.shost.Length == DOMAIN_LEN && node.request != node.shost
    requires Wire.Holds(node.shost[..], []) && Wire.HEADER <= node.datalen <= Wire.REQUEST_LEN - 16
    requires QueryParser.IsQuery(node.request[..], ls) && ReadAs(node.request[..], ls, QueryOf(s, item))
    requires cache.Valid() && {node, node.shost, node.request} !! cache.repr
    requires forward.Valid() && bundle.Valid() && forward != bundle && forward.ring != bundle.ring
    requires {forward, forward.ring, bundle, bundle.ring} !! cache.repr
    requires cache.contents == s.cache && forward.contents == s.forward && bundle.contents == s.bundle == []
    requires forward.size == bundle.size == cap + 1 && Shape(s) && s.bundleHand == []
    requires s.workHand == [item] && s.workFound == [] && item < |s.received| && node.ipv4 == IpOf(s, item)
    requires Lookup(s.cache, Wire.Dotted(ls)) != 0
    modifies node`iden, node`hostLen, node`ipv4, node`datalen, node.shost, node.request
    modifies forward, forward.ring, bundle, bundle.ring
    ensures t == Step(cap, Step(cap, Step(cap, Step(cap, s, WorkLook), WorkPut), BundleTake), BundleReply)
    ensures cache.Valid() && forward.Valid() && bundle.Valid()
    ensures cache.contents == s.cache && forward.contents == s.forward && bundle.contents == []
    ensures t.answered == s.answered + [item] && t.dropped == s.dropped
    ensures node.datalen == old(node.datalen) + 16
    ensures RoundTrip.Answered(old(node.request[..]), node.request[..], old(node.datalen), s.cache[Wire.Dotted(ls)])
  {
    ReadAsQuery(node.request[..], ls, QueryOf(s, item));
    assert cap >= 1 && |s.received| == |s.ips|;
    CachedSteps(cap, s, item);
    hide *;
    t := ParseOnly(node, cache, forward, bundle, item, ls, cap, s);
    t := AnswerOnly(bundle, node, item, cap, t);
  }
}
