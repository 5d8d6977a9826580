/**
 The way of the requests through the server, between the three rings, the threads'
 hands and the table of outstanding requests.  Rings are first-in-first-out queues
 of bounded length (`Ring`), the cache is a map in which the first write wins (`FirstWrites`, refined by `Cache`).
 */
module Pipeline {
  import opened Bytes
  import opened Names
  import opened FirstWrites
  import Wire
  import Answer

  /** A received request as the parser will read it: whether it is accepted, its host name and its id. */
  datatype Query = Query(accepted: bool, name: Name, iden: uint16)

  /**
   Requests are known by their number in `received`; `ips[i]` is the `ipv4` field of request i.
   A hand holds at most one request: the one its thread has taken from one place and not yet put
   into the next.  `workFound` is the address that the worker has looked up for the request in its hand,
   between the look-up and the enqueue.  `hits` and `forwarded` record how the look-ups came out, `stored`
   what was inserted into the cache, whether it took effect or not.
   */
  datatype State = State(
    received: seq<Query>, ips: seq<uint32>,
    work: seq<nat>, workHand: seq<nat>, workFound: seq<uint32>,
    forward: seq<nat>, forwardHand: seq<nat>,
    pending: seq<nat>, replyHand: seq<nat>,
    bundle: seq<nat>, bundleHand: seq<nat>,
    answered: seq<nat>, dropped: seq<nat>,
    cache: map<Name, uint32>, stored: seq<Record>,
    hits: seq<nat>, forwarded: seq<nat>)

  datatype Event =
    | Receive(query: Query)                         // udp_cb: a new node, offered to the work ring
    | WorkTake                                      // the worker dequeues
    | WorkLook                                      // it parses, and looks the name up in the cache
    | WorkPut                                       // it enqueues, as the look-up came out
    | ForwardTake                                   // the forwarder dequeues
    | ForwardSend                                   // it links the node into the table and sends
    // A message of `len` octets in the buffer is matched by its id and walked from behind the question of the request
    // that it matches; what the walk finds is stored.  `stray` is what comes of a walk that leaves the buffer.
    | Response(buff: seq<byte>, len: nat, stray: uint32)
    | ReplyPut                                      // the forwarder enqueues the node it has unlinked
    | BundleTake                                    // the answering thread dequeues
    | BundleReply                                   // it writes back and frees

  /** After start-up the cache holds the configured records. */
  function Init(configured: seq<Record>): State {
    State([], [], [], [], [], [], [], [], [], [], [], [], [], StoreAll(map[], configured), configured, [], [])
  }

  function QueryOf(s: State, i: nat): Query {
    if i < |s.received| then s.received[i] else Query(false, [], 0)
  }

  function IpOf(s: State, i: nat): uint32 {
    if i < |s.ips| then s.ips[i] else 0
  }

  function SetIp(s: State, i: nat, ip: uint32): seq<uint32> {
    if i < |s.ips| then s.ips[i := ip] else s.ips
  }

  /** The place of the oldest outstanding request with the id, |pending| if there is none. */
  function Oldest(s: State, pending: seq<nat>, iden: uint16): (k: nat)
    ensures k <= |pending| && (k < |pending| ==> QueryOf(s, pending[k]).iden == iden)
    ensures forall j :: 0 <= j < k ==> QueryOf(s, pending[j]).iden != iden
  {
    if pending == [] then 0
    else if QueryOf(s, pending[0]).iden == iden then 0
    else 1 + Oldest(s, pending[1..], iden)
  }

  /** An enqueue; a request that finds the ring full is lost, for no caller looks at the result. */
  function ToWork(cap: nat, s: State, i: nat): State {
    if |s.work| < cap then s.(work := s.work + [i]) else s.(dropped := s.dropped + [i])
  }

  function ToForward(cap: nat, s: State, i: nat): State {
    if |s.forward| < cap then s.(forward := s.forward + [i]) else s.(dropped := s.dropped + [i])
  }

  function ToBundle(cap: nat, s: State, i: nat): State {
    if |s.bundle| < cap then s.(bundle := s.bundle + [i]) else s.(dropped := s.dropped + [i])
  }

  /** The parser's look at request `i`, which the worker has in its hand: a rejected one is left lying. */
  function Look(s: State, i: nat): State {
    var q := QueryOf(s, i);
    var ip := Lookup(s.cache, q.name);
    if !q.accepted then s.(workHand := [], dropped := s.dropped + [i])
    else if ip == 0 then s.(workFound := [0], forwarded := s.forwarded + [i])
    else s.(workFound := [ip], ips := SetIp(s, i, ip), hits := s.hits + [i])
  }

  /** Its enqueue of request `i`, which has left the hand, after a look-up that found `ip`. */
  function Put(cap: nat, s: State, i: nat, ip: uint32): State {
    if ip == 0 then ToForward(cap, s, i) else ToBundle(cap, s, i)
  }

  /** The address that request `i` gets from a message, by a walk from behind its own question. */
  function HeardBy(s: State, i: nat, buff: seq<byte>, len: nat, stray: uint32): uint32
    requires len <= |buff|
  {
    match Answer.Heard(buff, len, |QueryOf(s, i).name|, IpOf(s, i))
    case Address(ip) => ip
    case Outside => stray
  }

  /** A response that matches the outstanding request at place `k` and gives it the address `ip`. */
  function Respond(s: State, k: nat, ip: uint32): State
    requires k < |s.pending|
  {
    var i := s.pending[k];
    var r := Record(QueryOf(s, i).name, ip);
    s.(pending := s.pending[..k] + s.pending[k + 1..], replyHand := [i], ips := SetIp(s, i, ip),
       cache := Store(s.cache, r), stored := s.stored + [r])
  }

  /** The buffer of the forwarder has 2048 octets. */
  predicate InBuffer(buff: seq<byte>, len: nat) {
    |buff| == Wire.REQUEST_LEN && len <= |buff|
  }

  function Step(cap: nat, s: State, e: Event): State {
    match e
    case Receive(q) =>
      ToWork(cap, s.(received := s.received + [q], ips := s.ips + [0]), |s.received|)
    case WorkTake =>
      if s.workHand == [] && s.work != [] then s.(workHand := [s.work[0]], work := s.work[1..]) else s
    case WorkLook =>
      if |s.workHand| != 1 || s.workFound != [] then s else Look(s, s.workHand[0])
    case WorkPut =>
      if |s.workHand| != 1 || |s.workFound| != 1 then s
      else Put(cap, s.(workHand := [], workFound := []), s.workHand[0], s.workFound[0])
    case ForwardTake =>
      if s.forwardHand == [] && s.forward != [] then s.(forwardHand := [s.forward[0]], forward := s.forward[1..]) else s
    case ForwardSend =>
      if |s.forwardHand| != 1 then s else s.(forwardHand := [], pending := s.pending + s.forwardHand)
    case Response(buff, len, stray) =>
      if !InBuffer(buff, len) || s.replyHand != [] then s
      else
        var k := Oldest(s, s.pending, Wire.GetId(buff));
        if k == |s.pending| then s else Respond(s, k, HeardBy(s, s.pending[k], buff, len, stray))
    case ReplyPut =>
      if |s.replyHand| != 1 then s else ToBundle(cap, s.(replyHand := []), s.replyHand[0])
    case BundleTake =>
      if s.bundleHand == [] && s.bundle != [] then s.(bundleHand := [s.bundle[0]], bundle := s.bundle[1..]) else s
    case BundleReply =>
      if |s.bundleHand| != 1 then s else s.(bundleHand := [], answered := s.answered + s.bundleHand)
  }

  function Run(cap: nat, s: State, es: seq<Event>): State {
    if es == [] then s else Step(cap, Run(cap, s, es[..|es| - 1]), es[|es| - 1])
  }

  lemma {:induction false} RunConcat(cap: nat, s: State, a: seq<Event>, b: seq<Event>)
    ensures Run(cap, s, a + b) == Run(cap, Run(cap, s, a), b)
  {
    if b == [] {
      assert a + b == a;
    } else {
      assert (a + b)[..|a + b| - 1] == a + b[..|b| - 1];
      RunConcat(cap, s, a, b[..|b| - 1]);
    }
  }

  // ---------- every request is in exactly one place ----------

  ghost function Count(q: seq<nat>, i: nat): nat {
    if q == [] then 0 else Count(q[..|q| - 1], i) + if q[|q| - 1] == i then 1 else 0
  }

  lemma {:induction false} CountConcat(p: seq<nat>, q: seq<nat>, i: nat)
    ensures Count(p + q, i) == Count(p, i) + Count(q, i)
  {
    if q == [] {
      assert p + q == p;
    } else {
      assert (p + q)[..|p + q| - 1] == p + q[..|q| - 1];
      CountConcat(p, q[..|q| - 1], i);
    }
  }

  lemma CountOne(x: nat, i: nat)
    ensures Count([x], i) == if x == i then 1 else 0
  {
    assert [x][..0] == [];
  }

  lemma CountAppend(q: seq<nat>, x: nat, i: nat)
    ensures Count(q + [x], i) == Count(q, i) + if x == i then 1 else 0
  {
    CountConcat(q, [x], i);
    CountOne(x, i);
  }

  lemma CountOut(q: seq<nat>, k: nat, i: nat)
    requires k < |q|
    ensures Count(q, i) == Count(q[..k] + q[k + 1..], i) + if q[k] == i then 1 else 0
  {
    assert q == (q[..k] + [q[k]]) + q[k + 1..];
    CountConcat(q[..k] + [q[k]], q[k + 1..], i);
    CountAppend(q[..k], q[k], i);
    CountConcat(q[..k], q[k + 1..], i);
  }

  lemma CountFirstOut(q: seq<nat>, i: nat)
    requires q != []
    ensures Count(q, i) == Count(q[1..], i) + if q[0] == i then 1 else 0
  {
    CountOut(q, 0, i);
    assert q[..0] + q[1..] == q[1..];
  }

  lemma CountHand(h: seq<nat>, i: nat)
    requires |h| == 1
    ensures Count(h, i) == if h[0] == i then 1 else 0
  {
    assert h == [h[0]];
    CountOne(h[0], i);
  }

  lemma {:induction false} CountMember(q: seq<nat>, i: nat)
    ensures Count(q, i) > 0 <==> i in q
  {
    if q != [] {
      CountMember(q[..|q| - 1], i);
      assert q == q[..|q| - 1] + [q[|q| - 1]];
    }
  }

  /** How often request `i` is found when all places are looked through. */
  ghost function Occurrences(s: State, i: nat): nat {
    Count(s.work, i) + Count(s.workHand, i) + Count(s.forward, i) + Count(s.forwardHand, i) + Count(s.pending, i)
    + Count(s.replyHand, i) + Count(s.bundle, i) + Count(s.bundleHand, i) + Count(s.answered, i) + Count(s.dropped, i)
  }

  ghost predicate Hands(s: State) {
    |s.workFound| <= |s.workHand| <= 1 && |s.forwardHand| <= 1 && |s.replyHand| <= 1 && |s.bundleHand| <= 1
  }

  ghost predicate OnePlace(s: State) {
    && Hands(s) && |s.ips| == |s.received|
    && forall i: nat :: Occurrences(s, i) == if i < |s.received| then 1 else 0
  }

  lemma PutCounts(cap: nat, s: State, x: nat, i: nat)
    ensures Occurrences(ToWork(cap, s, x), i) == Occurrences(s, i) + if x == i then 1 else 0
    ensures Occurrences(ToForward(cap, s, x), i) == Occurrences(s, i) + if x == i then 1 else 0
    ensures Occurrences(ToBundle(cap, s, x), i) == Occurrences(s, i) + if x == i then 1 else 0
  {
    hide Count;
    CountAppend(s.work, x, i);
    CountAppend(s.forward, x, i);
    CountAppend(s.bundle, x, i);
    CountAppend(s.dropped, x, i);
  }

  lemma LookCounts(s: State, i: nat)
    requires |s.workHand| == 1
    ensures Occurrences(Look(s, s.workHand[0]), i) == Occurrences(s, i)
  {
    hide Count, Lookup;
    CountHand(s.workHand, i);
    CountEmpty(i);
    CountAppend(s.dropped, s.workHand[0], i);
  }

  /** No step but the arrival of a request changes how often a request is found. */
  lemma StepCounts(cap: nat, s: State, e: Event, i: nat)
    requires Hands(s)
    ensures Occurrences(Step(cap, s, e), i) == Occurrences(s, i) + if e.Receive? && i == |s.received| then 1 else 0
  {
    hide Count, ToWork, ToForward, ToBundle, Look, HeardBy;
    CountEmpty(i);
    match e
    case Receive(q) => PutCounts(cap, s.(received := s.received + [q], ips := s.ips + [0]), |s.received|, i);
    case WorkTake => if s.work != [] { CountFirstOut(s.work, i); CountOne(s.work[0], i); }
    case WorkLook => if |s.workHand| == 1 { LookCounts(s, i); }
    case WorkPut =>
      if |s.workHand| == 1 {
        CountHand(s.workHand, i);
        PutCounts(cap, s.(workHand := [], workFound := []), s.workHand[0], i);
      }
    case ForwardTake => if s.forward != [] { CountFirstOut(s.forward, i); CountOne(s.forward[0], i); }
    case ForwardSend => CountConcat(s.pending, s.forwardHand, i);
    case Response(buff, len, _) =>
      var k := if InBuffer(buff, len) then Oldest(s, s.pending, Wire.GetId(buff)) else |s.pending|;
      if k < |s.pending| { CountOut(s.pending, k, i); CountOne(s.pending[k], i); }
    case ReplyPut =>
      if |s.replyHand| == 1 { CountHand(s.replyHand, i); PutCounts(cap, s.(replyHand := []), s.replyHand[0], i); }
    case BundleTake => if s.bundle != [] { CountFirstOut(s.bundle, i); CountOne(s.bundle[0], i); }
    case BundleReply => CountConcat(s.answered, s.bundleHand, i);
  }

  lemma CountEmpty(i: nat)
    ensures Count([], i) == 0
  {
  }

  ghost predicate Shape(s: State) {
    Hands(s) && |s.ips| == |s.received|
  }

  lemma PutShape(cap: nat, s: State, i: nat)
    requires Shape(s)
    ensures Shape(ToWork(cap, s, i)) && ToWork(cap, s, i).received == s.received
    ensures Shape(ToForward(cap, s, i)) && ToForward(cap, s, i).received == s.received
    ensures Shape(ToBundle(cap, s, i)) && ToBundle(cap, s, i).received == s.received
  {
  }

  lemma LookShape(s: State, i: nat)
    requires Shape(s) && |s.workHand| == 1
    ensures Shape(Look(s, i)) || s.workFound != []
    ensures Look(s, i).received == s.received
  {
  }

  lemma StepShape(cap: nat, s: State, e: Event)
    requires Shape(s)
    ensures Shape(Step(cap, s, e))
    ensures Step(cap, s, e).received == s.received + if e.Receive? then [e.query] else []
  {
    hide Look, ToWork, ToForward, ToBundle, HeardBy;
    match e
    case Receive(q) => PutShape(cap, s.(received := s.received + [q], ips := s.ips + [0]), |s.received|);
    case WorkLook => if |s.workHand| == 1 { LookShape(s, s.workHand[0]); }
    case WorkPut => if |s.workHand| == 1 { PutShape(cap, s.(workHand := [], workFound := []), s.workHand[0]); }
    case ReplyPut => if |s.replyHand| == 1 { PutShape(cap, s.(replyHand := []), s.replyHand[0]); }
    case _ =>
  }

  /** In every state of every run each received request is in exactly one place. */
  lemma {:induction false} RunOnePlace(cap: nat, configured: seq<Record>, es: seq<Event>)
    ensures OnePlace(Run(cap, Init(configured), es))
  {
    if es == [] {
      forall i: nat ensures Occurrences(Init(configured), i) == 0 { CountEmpty(i); }
    } else {
      var last := |es| - 1;
      RunOnePlace(cap, configured, es[..last]);
      var s := Run(cap, Init(configured), es[..last]);
      StepShape(cap, s, es[last]);
      forall i: nat
        ensures Occurrences(Step(cap, s, es[last]), i) == if i < |Step(cap, s, es[last]).received| then 1 else 0
      {
        StepCounts(cap, s, es[last], i);
      }
    }
  }

  // ---------- nothing is lost sight of, nothing is answered twice ----------

  ghost function Held(s: State): nat {
    |s.work| + |s.workHand| + |s.forward| + |s.forwardHand| + |s.pending| + |s.replyHand| + |s.bundle| + |s.bundleHand|
  }

  ghost predicate Accounted(cap: nat, s: State) {
    && |s.received| == Held(s) + |s.answered| + |s.dropped|
    && |s.work| <= cap && |s.forward| <= cap && |s.bundle| <= cap
  }

  /** All but one request, which is in nobody's hand, are accounted for. */
  ghost predicate OneInTransit(cap: nat, s: State) {
    && |s.received| == Held(s) + |s.answered| + |s.dropped| + 1
    && |s.work| <= cap && |s.forward| <= cap && |s.bundle| <= cap
  }

  lemma PutAccounted(cap: nat, s: State, i: nat)
    requires OneInTransit(cap, s)
    ensures Accounted(cap, ToWork(cap, s, i)) && Accounted(cap, ToForward(cap, s, i))
        && Accounted(cap, ToBundle(cap, s, i))
  {
  }

  lemma StepAccounted(cap: nat, s: State, e: Event)
    requires Hands(s) && Accounted(cap, s)
    ensures Accounted(cap, Step(cap, s, e))
  {
    hide ToWork, ToForward, ToBundle, HeardBy;
    match e
    case Receive(q) => PutAccounted(cap, s.(received := s.received + [q], ips := s.ips + [0]), |s.received|);
    case WorkPut => if |s.workHand| == 1 { PutAccounted(cap, s.(workHand := [], workFound := []), s.workHand[0]); }
    case ReplyPut => if |s.replyHand| == 1 { PutAccounted(cap, s.(replyHand := []), s.replyHand[0]); }
    case _ =>
  }

  /** What came in is on its way, answered, or dropped; no ring holds more than it can. */
  lemma {:induction false} AllAccountedFor(cap: nat, configured: seq<Record>, es: seq<Event>)
    ensures Accounted(cap, Run(cap, Init(configured), es))
  {
    if es != [] {
      AllAccountedFor(cap, configured, es[..|es| - 1]);
      RunOnePlace(cap, configured, es[..|es| - 1]);
      StepAccounted(cap, Run(cap, Init(configured), es[..|es| - 1]), es[|es| - 1]);
    }
  }

  /** Request `i` is nowhere but among the answered or dropped ones. */
  ghost predicate Gone(s: State, i: nat) {
    && i !in s.work && i !in s.workHand && i !in s.forward && i !in s.forwardHand && i !in s.pending
    && i !in s.replyHand && i !in s.bundle && i !in s.bundleHand
  }

  lemma AnsweredIsGone(s: State, i: nat)
    requires OnePlace(s) && (i in s.answered || i in s.dropped)
    ensures Gone(s, i) && Count(s.answered, i) + Count(s.dropped, i) == 1
  {
    hide Count;
    assert Occurrences(s, i) == if i < |s.received| then 1 else 0;
    CountMember(s.work, i);
    CountMember(s.workHand, i);
    CountMember(s.forward, i);
    CountMember(s.forwardHand, i);
    CountMember(s.pending, i);
    CountMember(s.replyHand, i);
    CountMember(s.bundle, i);
    CountMember(s.bundleHand, i);
    CountMember(s.answered, i);
    CountMember(s.dropped, i);
  }

  /**
   The nodes that a step may read or write: links of neighbours in a list are written, and all ids of a bucket are
   read.
   */
  ghost predicate Touches(s: State, e: Event, i: nat) {
    match e
    case Receive(_) => i == |s.received|
    case WorkTake => i in s.work
    case WorkLook => i in s.workHand
    case WorkPut => i in s.workHand
    case ForwardTake => i in s.forward
    case ForwardSend => i in s.forwardHand || i in s.pending
    case Response(_, _, _) => i in s.pending
    case ReplyPut => i in s.replyHand
    case BundleTake => i in s.bundle
    case BundleReply => i in s.bundleHand
  }

  /** Only the worker's look and a response change the address of a request. */
  lemma StepTouches(cap: nat, s: State, e: Event, i: nat)
    requires Hands(s) && |s.ips| == |s.received| && i < |s.received|
    requires (e.WorkLook? ==> i !in s.workHand || s.workFound != []) && (e.Response? ==> i !in s.pending)
    ensures IpOf(Step(cap, s, e), i) == IpOf(s, i)
  {
    hide HeardBy;
    match e
    case WorkLook => if |s.workHand| == 1 { assert s.workHand[0] in s.workHand; }
    case Response(buff, len, _) =>
      if InBuffer(buff, len) {
        var k := Oldest(s, s.pending, Wire.GetId(buff));
        if k < |s.pending| { assert s.pending[k] in s.pending; }
      }
    case _ =>
  }

  /**
   An answered request is answered once and is found in no other place; in no continuation is there a step that
   touches it, and so its fields stay.
   */
  lemma {:induction false} AnsweredIsFinal(cap: nat, configured: seq<Record>, es: seq<Event>, more: seq<Event>, i: nat)
    requires var s := Run(cap, Init(configured), es); i in s.answered || i in s.dropped
    ensures var s, s' := Run(cap, Init(configured), es), Run(cap, Init(configured), es + more);
      && (i in s.answered ==> i in s'.answered && Count(s'.answered, i) == 1)
      && (i in s.dropped ==> i in s'.dropped && i !in s'.answered)
      && Gone(s', i) && IpOf(s', i) == IpOf(s, i) && QueryOf(s', i) == QueryOf(s, i)
      && forall e :: !Touches(s', e, i)
  {
    hide Step, OnePlace, Gone, Count, Touches;
    RunOnePlace(cap, configured, es + more);
    var s' := Run(cap, Init(configured), es + more);
    if more == [] {
      assert es + more == es;
    } else {
      var last := |more| - 1;
      assert (es + more)[..|es + more| - 1] == es + more[..last];
      AnsweredIsFinal(cap, configured, es, more[..last], i);
      RunOnePlace(cap, configured, es + more[..last]);
      FinalStep(cap, Run(cap, Init(configured), es + more[..last]), more[last], i);
    }
    AnsweredIsGone(s', i);
    CountMember(s'.answered, i);
    CountMember(s'.dropped, i);
    Known(s', i);
    GoneUntouched(s', i);
  }

  lemma GoneUntouched(s: State, i: nat)
    requires Gone(s, i) && i < |s.received|
    ensures forall e :: !Touches(s, e, i)
  {
  }

  lemma FinalStep(cap: nat, s: State, e: Event, i: nat)
    requires OnePlace(s) && (i in s.answered || i in s.dropped)
    ensures var t := Step(cap, s, e);
      (i in s.answered ==> i in t.answered) && (i in s.dropped ==> i in t.dropped) && IpOf(t, i) == IpOf(s, i)
        && QueryOf(t, i) == QueryOf(s, i)
  {
    AnsweredIsGone(s, i);
    Known(s, i);
    StepTouches(cap, s, e, i);
    StepAppends(cap, s, e);
  }

  lemma Known(s: State, i: nat)
    requires OnePlace(s) && (i in s.answered || i in s.dropped)
    ensures i < |s.received|
  {
    hide Count;
    CountMember(s.answered, i);
    CountMember(s.dropped, i);
    assert Occurrences(s, i) == if i < |s.received| then 1 else 0;
  }

  /** The records of what was done only grow. */
  ghost predicate Grown(s: State, t: State) {
    && s.received <= t.received && s.answered <= t.answered && s.dropped <= t.dropped
    && s.hits <= t.hits && s.forwarded <= t.forwarded && s.stored <= t.stored
  }

  lemma PutGrows(cap: nat, s: State, i: nat)
    ensures Grown(s, ToWork(cap, s, i)) && Grown(s, ToForward(cap, s, i)) && Grown(s, ToBundle(cap, s, i))
  {
  }

  lemma StepAppends(cap: nat, s: State, e: Event)
    ensures Grown(s, Step(cap, s, e))
  {
    hide ToWork, ToForward, ToBundle, HeardBy;
    match e
    case Receive(q) => PutGrows(cap, s.(received := s.received + [q], ips := s.ips + [0]), |s.received|);
    case WorkPut => if |s.workHand| == 1 { PutGrows(cap, s.(workHand := [], workFound := []), s.workHand[0]); }
    case ReplyPut => if |s.replyHand| == 1 { PutGrows(cap, s.(replyHand := []), s.replyHand[0]); }
    case _ =>
  }

  // ---------- what the cache makes of the requests ----------

  /** Past the look-up on the way of a cached answer. */
  ghost predicate OnReturn(s: State, i: nat) {
    (i in s.workHand && s.workFound != [] && s.workFound[0] != 0) || i in s.bundle || i in s.bundleHand
      || i in s.answered || i in s.dropped
  }

  /** Request `i`, which found its name cached, still carries the address cached under it. */
  ghost predicate HitOk(s: State, i: nat) {
    var name := QueryOf(s, i).name;
    i < |s.received| && OnReturn(s, i) && name in s.cache && IpOf(s, i) == s.cache[name] != 0
  }

  ghost predicate CacheOk(s: State) {
    && s.cache == StoreAll(map[], s.stored)
    && (forall k :: 0 <= k < |s.hits| ==> HitOk(s, s.hits[k]))
    && (forall k :: 0 <= k < |s.forwarded| ==> s.forwarded[k] < |s.received|)
  }

  lemma StoreAllAppend(rs: seq<Record>, r: Record)
    ensures StoreAll(map[], rs + [r]) == Store(StoreAll(map[], rs), r)
  {
    assert (rs + [r])[..|rs|] == rs;
  }

  lemma PutKeepsCache(cap: nat, s: State, i: nat)
    ensures ToWork(cap, s, i).cache == s.cache && ToWork(cap, s, i).stored == s.stored
    ensures ToForward(cap, s, i).cache == s.cache && ToForward(cap, s, i).stored == s.stored
    ensures ToBundle(cap, s, i).cache == s.cache && ToBundle(cap, s, i).stored == s.stored
  {
  }

  /** Bindings of the cache stay. */
  lemma StepKeepsBindings(cap: nat, s: State, e: Event, name: Name)
    requires name in s.cache
    ensures name in Step(cap, s, e).cache && Step(cap, s, e).cache[name] == s.cache[name]
  {
    hide ToWork, ToForward, ToBundle, HeardBy;
    match e
    case Receive(q) => PutKeepsCache(cap, s.(received := s.received + [q], ips := s.ips + [0]), |s.received|);
    case WorkPut => if |s.workHand| == 1 { PutKeepsCache(cap, s.(workHand := [], workFound := []), s.workHand[0]); }
    case ReplyPut => if |s.replyHand| == 1 { PutKeepsCache(cap, s.(replyHand := []), s.replyHand[0]); }
    case _ =>
  }

  /** A request on its return is in no place from which it could be worked on. */
  lemma ReturningUntouched(s: State, i: nat)
    requires OnePlace(s) && OnReturn(s, i)
    ensures (i !in s.workHand || s.workFound != []) && i !in s.pending && i < |s.received|
  {
    hide Count;
    assert Occurrences(s, i) == if i < |s.received| then 1 else 0;
    CountMember(s.workHand, i);
    CountMember(s.pending, i);
    CountMember(s.bundle, i);
    CountMember(s.bundleHand, i);
    CountMember(s.answered, i);
    CountMember(s.dropped, i);
  }

  lemma StepKeepsReturn(cap: nat, s: State, e: Event, i: nat)
    requires Hands(s) && OnReturn(s, i)
    ensures OnReturn(Step(cap, s, e), i)
  {
    match e
    case BundleTake =>
      if s.bundleHand == [] && s.bundle != [] {
        assert s.bundle == [s.bundle[0]] + s.bundle[1..];
      }
    case WorkPut =>
      if |s.workHand| == 1 && |s.workFound| == 1 {
        assert i in s.workHand ==> i == s.workHand[0];
      }
    case _ =>
  }

  lemma StepKeepsHit(cap: nat, s: State, e: Event, i: nat)
    requires OnePlace(s) && HitOk(s, i)
    ensures HitOk(Step(cap, s, e), i)
  {
    hide Step, OnePlace, OnReturn, Hands;
    assert OnReturn(s, i) && OnePlace(s) && Hands(s) by { Unfold(s, i); }
    ReturningUntouched(s, i);
    assert |s.ips| == |s.received| by { Unfold(s, i); }
    StepTouches(cap, s, e, i);
    StepKeepsReturn(cap, s, e, i);
    StepAppends(cap, s, e);
    StepKeepsBindings(cap, s, e, QueryOf(s, i).name);
  }

  lemma Unfold(s: State, i: nat)
    requires OnePlace(s) && HitOk(s, i)
    ensures OnReturn(s, i) && Hands(s) && |s.ips| == |s.received|
  {
  }

  /** The hit that a step may add is a good one. */
  lemma NewHitOk(cap: nat, s: State, e: Event)
    requires OnePlace(s)
    ensures var t := Step(cap, s, e);
      t.hits == s.hits || (t.hits == s.hits + [s.workHand[0]] && |s.workHand| == 1 && HitOk(t, s.workHand[0]))
  {
    if e.WorkLook? && |s.workHand| == 1 {
      InHandKnown(s);
    }
  }

  lemma InHandKnown(s: State)
    requires OnePlace(s) && |s.workHand| == 1
    ensures s.workHand[0] < |s.received|
  {
    hide Count;
    var i := s.workHand[0];
    assert Occurrences(s, i) == if i < |s.received| then 1 else 0;
    CountHand(s.workHand, i);
  }

  lemma {:induction false} RunCacheOk(cap: nat, configured: seq<Record>, es: seq<Event>)
    ensures CacheOk(Run(cap, Init(configured), es))
  {
    if es != [] {
      var last := |es| - 1;
      var s := Run(cap, Init(configured), es[..last]);
      RunCacheOk(cap, configured, es[..last]);
      RunOnePlace(cap, configured, es[..last]);
      StepCacheOk(cap, s, es[last]);
    }
  }

  lemma StepCacheOk(cap: nat, s: State, e: Event)
    requires OnePlace(s) && CacheOk(s)
    ensures CacheOk(Step(cap, s, e))
  {
    var t := Step(cap, s, e);
    StoredGrows(cap, s, e);
    NewHitOk(cap, s, e);
    NewForward(cap, s, e);
    StepAppends(cap, s, e);
    hide Step;
    forall k | 0 <= k < |t.hits| ensures HitOk(t, t.hits[k]) {
      if k < |s.hits| {
        StepKeepsHit(cap, s, e, s.hits[k]);
      }
    }
  }

  lemma StoredGrows(cap: nat, s: State, e: Event)
    requires s.cache == StoreAll(map[], s.stored)
    ensures Step(cap, s, e).cache == StoreAll(map[], Step(cap, s, e).stored)
  {
    hide ToWork, ToForward, ToBundle, HeardBy, StoreAll, Store;
    match e
    case Receive(q) => PutKeepsCache(cap, s.(received := s.received + [q], ips := s.ips + [0]), |s.received|);
    case WorkPut => if |s.workHand| == 1 { PutKeepsCache(cap, s.(workHand := [], workFound := []), s.workHand[0]); }
    case ReplyPut => if |s.replyHand| == 1 { PutKeepsCache(cap, s.(replyHand := []), s.replyHand[0]); }
    case Response(buff, len, stray) =>
      if InBuffer(buff, len) && s.replyHand == [] {
        var k := Oldest(s, s.pending, Wire.GetId(buff));
        if k < |s.pending| {
          var i := s.pending[k];
          StoreAllAppend(s.stored, Record(QueryOf(s, i).name, HeardBy(s, i, buff, len, stray)));
        }
      }
    case _ =>
  }

  lemma NewForward(cap: nat, s: State, e: Event)
    requires OnePlace(s)
    ensures var t := Step(cap, s, e);
      t.forwarded == s.forwarded || (|s.workHand| == 1 && t.forwarded == s.forwarded + [s.workHand[0]]
        && s.workHand[0] < |s.received|
        && Lookup(s.cache, QueryOf(s, s.workHand[0]).name) == 0)
  {
    if |s.workHand| == 1 { InHandKnown(s); }
  }

  /** On its way upstream or back, or about to set out. */
  ghost predicate Upstream(s: State, i: nat) {
    || i in s.forward || i in s.forwardHand || i in s.pending || i in s.replyHand
    || (i in s.workHand && s.workFound == [0])
  }

  /** Whatever is there was looked up and found to have no address. */
  ghost predicate UpstreamRecorded(s: State) {
    forall i :: Upstream(s, i) ==> i in s.forwarded
  }

  lemma PutUpstream(cap: nat, s: State, x: nat, i: nat)
    ensures Upstream(ToWork(cap, s, x), i) ==> Upstream(s, i)
    ensures Upstream(ToForward(cap, s, x), i) ==> Upstream(s, i) || i == x
    ensures Upstream(ToBundle(cap, s, x), i) ==> Upstream(s, i)
  {
  }

  lemma RespondUpstream(s: State, k: nat, ip: uint32, i: nat)
    requires k < |s.pending| && s.replyHand == []
    ensures Upstream(Respond(s, k, ip), i) ==> Upstream(s, i)
  {
  }

  lemma LookUpstream(s: State, i: nat)
    requires |s.workHand| == 1 && Upstream(Look(s, s.workHand[0]), i)
    ensures Upstream(s, i) || i in Look(s, s.workHand[0]).forwarded
  {
    hide Lookup;
  }

  lemma StepUpstream(cap: nat, s: State, e: Event, i: nat)
    requires Hands(s) && Upstream(Step(cap, s, e), i)
    ensures Upstream(s, i) || (e == WorkLook && i in Step(cap, s, e).forwarded)
  {
    hide HeardBy, ToWork, ToForward, ToBundle, Look, Respond;
    match e
    case WorkLook => if |s.workHand| == 1 && s.workFound == [] { LookUpstream(s, i); }
    case Response(buff, len, stray) =>
      if InBuffer(buff, len) && s.replyHand == [] {
        var k := Oldest(s, s.pending, Wire.GetId(buff));
        if k < |s.pending| { RespondUpstream(s, k, HeardBy(s, s.pending[k], buff, len, stray), i); }
      }
    case Receive(q) => PutUpstream(cap, s.(received := s.received + [q], ips := s.ips + [0]), |s.received|, i);
    case WorkPut => if |s.workHand| == 1 { PutUpstream(cap, s.(workHand := [], workFound := []), s.workHand[0], i); }
    case ReplyPut => if |s.replyHand| == 1 { PutUpstream(cap, s.(replyHand := []), s.replyHand[0], i); }
    case _ =>
  }

  lemma StepRecords(cap: nat, s: State, e: Event)
    requires Hands(s) && UpstreamRecorded(s)
    ensures UpstreamRecorded(Step(cap, s, e))
  {
    StepAppends(cap, s, e);
    hide Step, Upstream;
    forall i | Upstream(Step(cap, s, e), i) ensures i in Step(cap, s, e).forwarded {
      StepUpstream(cap, s, e, i);
    }
  }

  /** Only requests whose look-up found no address are ever forwarded. */
  lemma {:induction false} RunRecords(cap: nat, configured: seq<Record>, es: seq<Event>)
    ensures UpstreamRecorded(Run(cap, Init(configured), es))
  {
    if es != [] {
      hide Step, OnePlace, Hands, UpstreamRecorded;
      RunRecords(cap, configured, es[..|es| - 1]);
      RunOnePlace(cap, configured, es[..|es| - 1]);
      OnePlaceHands(Run(cap, Init(configured), es[..|es| - 1]));
      StepRecords(cap, Run(cap, Init(configured), es[..|es| - 1]), es[|es| - 1]);
    }
  }

  lemma OnePlaceHands(s: State)
    requires OnePlace(s)
    ensures Hands(s)
  {
  }

  /** Record `i` is the first one for the name. */
  ghost predicate FirstFor(rs: seq<Record>, i: int, name: Name) {
    0 <= i < |rs| && rs[i].domain == name && forall j :: 0 <= j < i ==> rs[j].domain != name
  }

  /**
   All requests for one name that are answered from the cache carry the same address, the first one stored for the
   name.
   */
  lemma HitsAgree(cap: nat, configured: seq<Record>, es: seq<Event>, k: nat, l: nat)
    requires var s := Run(cap, Init(configured), es);
      k < |s.hits| && l < |s.hits| && QueryOf(s, s.hits[k]).name == QueryOf(s, s.hits[l]).name
    ensures var s := Run(cap, Init(configured), es);
      && IpOf(s, s.hits[k]) == IpOf(s, s.hits[l]) != 0
      && forall i :: FirstFor(s.stored, i, QueryOf(s, s.hits[k]).name) ==> IpOf(s, s.hits[k]) == s.stored[i].ipv4
  {
    RunCacheOk(cap, configured, es);
    var s := Run(cap, Init(configured), es);
    assert HitOk(s, s.hits[k]) && HitOk(s, s.hits[l]);
    FirstWriteWins(s.stored, QueryOf(s, s.hits[k]).name);
  }

  /** From `s` to `t`: the binding of the name stays, and the requests routed in between went as it says. */
  ghost predicate Decided(s: State, t: State, name: Name)
    requires name in s.cache
  {
    && name in t.cache && t.cache[name] == s.cache[name] && s.forwarded <= t.forwarded && s.hits <= t.hits
    && (forall k :: |s.forwarded| <= k < |t.forwarded| && QueryOf(t, t.forwarded[k]).name == name ==>
      s.cache[name] == 0)
    && (forall k :: |s.hits| <= k < |t.hits| && QueryOf(t, t.hits[k]).name == name ==> s.cache[name] != 0)
  }

  /**
   Whether requests for a name that are looked up later are forwarded is settled by the first address stored for
   it: if it is not zero, none of them is forwarded; if it is zero, none is answered from the cache.
   */
  lemma {:induction false} FirstAddressDecides(cap: nat, configured: seq<Record>, es: seq<Event>, more: seq<Event>,
                                               name: Name)
    requires name in Run(cap, Init(configured), es).cache
    ensures Decided(Run(cap, Init(configured), es), Run(cap, Init(configured), es + more), name)
  {
    var init, s := Init(configured), Run(cap, Init(configured), es);
    if more == [] {
      assert es + more == es;
    } else {
      var last := |more| - 1;
      assert (es + more)[..|es + more| - 1] == es + more[..last];
      assert Run(cap, init, es + more) == Step(cap, Run(cap, init, es + more[..last]), more[last]);
      hide Step, Run, Init, OnePlace, CacheOk, Decided;
      FirstAddressDecides(cap, configured, es, more[..last], name);
      RunOnePlace(cap, configured, es + more[..last]);
      RunCacheOk(cap, configured, es + more[..last]);
      DecidedStep(cap, s, Run(cap, init, es + more[..last]), more[last], name);
    }
  }

  lemma DecidedStep(cap: nat, s: State, u: State, e: Event, name: Name)
    requires name in s.cache && Decided(s, u, name) && OnePlace(u) && CacheOk(u)
    ensures Decided(s, Step(cap, u, e), name)
  {
    StepCacheOk(cap, u, e);
    NewForward(cap, u, e);
    StepAppends(cap, u, e);
    StepKeepsBindings(cap, u, e, name);
    hide Step, OnePlace, OnReturn;
    var t := Step(cap, u, e);
    forall k | |s.hits| <= k < |t.hits| && QueryOf(t, t.hits[k]).name == name ensures s.cache[name] != 0 {
      assert HitOk(t, t.hits[k]);
    }
    forall k | |s.forwarded| <= k < |t.forwarded|
      && QueryOf(t, t.forwarded[k]).name == name ensures s.cache[name] == 0 {
      if k < |u.forwarded| {
        assert t.forwarded[k] == u.forwarded[k] && u.forwarded[k] < |u.received|;
      }
    }
  }
}
