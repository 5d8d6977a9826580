/** That requests are answered: schedules that end them all, in the order of the bundle ring. */
module PipelineProgress {
  import opened Bytes
  import opened Names
  import opened FirstWrites
  import opened Pipeline
  import PipelineResponses
  import Wire
  import Answer

  // ---------- the bundle ring empties into the answers ----------

  function AnswerRounds(n: nat): seq<Event> {
    if n == 0 then [] else [BundleTake, BundleReply] + AnswerRounds(n - 1)
  }

  lemma OneRound(cap: nat, s: State)
    requires s.bundleHand == [] && s.bundle != []
    ensures Run(cap, s, [BundleTake, BundleReply]) ==
      s.(answered := s.answered + [s.bundle[0]], bundle := s.bundle[1..])
  {
    PipelineResponses.OneStep(cap, s, BundleTake);
    PipelineResponses.RunThen(cap, s, [BundleTake], BundleReply);
    assert [BundleTake] + [BundleReply] == [BundleTake, BundleReply];
  }

  /** The answering thread answers all requests of its ring, in their order, and changes nothing else. */
  lemma {:induction false} AnswersInOrder(cap: nat, s: State)
    requires s.bundleHand == []
    ensures Run(cap, s, AnswerRounds(|s.bundle|)) == s.(answered := s.answered + s.bundle, bundle := [])
    decreases |s.bundle|
  {
    hide Step;
    if s.bundle == [] {
      assert s.answered + s.bundle == s.answered;
    } else {
      var n := |s.bundle| - 1;
      assert AnswerRounds(n + 1) == [BundleTake, BundleReply] + AnswerRounds(n);
      hide Run, AnswerRounds;
      OneRound(cap, s);
      RunConcat(cap, s, [BundleTake, BundleReply], AnswerRounds(n));
      AnswersInOrder(cap, s.(answered := s.answered + [s.bundle[0]], bundle := s.bundle[1..]));
      assert s.answered + [s.bundle[0]] + s.bundle[1..] == s.answered + s.bundle;
    }
  }

  // ---------- work ahead ----------

  /** How many steps the requests under way can still cause. */
  ghost function Ahead(s: State): int {
    9 * |s.work| + 8 * |s.workHand| - |s.workFound| + 6 * |s.forward| + 5 * |s.forwardHand| + 4 * |s.pending|
    + 3 * |s.replyHand| + 2 * |s.bundle| + |s.bundleHand|
  }

  lemma PutAhead(cap: nat, s: State, i: nat)
    ensures Ahead(ToForward(cap, s, i)) <= Ahead(s) + 6 && Ahead(ToBundle(cap, s, i)) <= Ahead(s) + 2
  {
  }

  /** Whatever the threads do: a step that changes anything lowers the work ahead, unless it brings a new request. */
  lemma StepLowersAhead(cap: nat, s: State, e: Event)
    requires Hands(s) && !e.Receive?
    ensures Step(cap, s, e) == s || Ahead(Step(cap, s, e)) < Ahead(s)
  {
    hide HeardBy, Lookup, ToForward, ToBundle;
    match e
    case WorkPut =>
      if |s.workHand| == 1 { PutAhead(cap, s.(workHand := [], workFound := []), s.workHand[0]); }
    case ReplyPut => if |s.replyHand| == 1 { PutAhead(cap, s.(replyHand := []), s.replyHand[0]); }
    case _ =>
  }

  /** An upstream server: the message, its length, and what a walk that leaves the buffer meets, for each query. */
  type Upstream = Query -> (seq<byte>, nat, uint32)

  /** Its responses bear the ids of the queries, whatever else they hold. */
  ghost predicate Responds(u: Upstream) {
    forall q :: InBuffer(u(q).0, u(q).1) && Wire.GetId(u(q).0) == q.iden
  }

  /** The least that such a server can send: the id and nothing else, in the forwarder's buffer. */
  function Bare(q: Query): (seq<byte>, nat, uint32) {
    ([q.iden % 256, q.iden / 256] + seq(Wire.REQUEST_LEN - 2, _ => 0), 2, 0)
  }

  lemma BareResponds()
    ensures Responds(Bare)
  {
    forall q ensures InBuffer(Bare(q).0, Bare(q).1) && Wire.GetId(Bare(q).0) == q.iden {
    }
  }

  /** Some thread has a request in hand or in its ring. */
  predicate Busy(s: State) {
    s.bundleHand != [] || s.bundle != [] || s.replyHand != [] || s.forwardHand != [] || s.forward != []
    || s.workHand != [] || s.work != []
  }

  /** A step of the thread whose requests are nearest to their end, and a response when all threads are idle. */
  function Next(s: State, u: Upstream): Event {
    if s.bundleHand != [] then BundleReply
    else if s.bundle != [] then BundleTake
    else if s.replyHand != [] then ReplyPut
    else if s.forwardHand != [] then ForwardSend
    else if s.forward != [] then ForwardTake
    else if s.workHand != [] then if s.workFound != [] then WorkPut else WorkLook
    else if s.work != [] then WorkTake
    else if s.pending != [] then
      var (buff, len, stray) := u(QueryOf(s, s.pending[0]));
      Response(buff, len, stray)
    else BundleTake
  }

  /** From `s` to `t` no request came in, and only such were dropped as are no queries. */
  ghost predicate OnlyRejected(s: State, t: State) {
    && t.received == s.received && s.dropped <= t.dropped && s.answered <= t.answered
    && forall k :: |s.dropped| <= k < |t.dropped| ==> !QueryOf(s, t.dropped[k]).accepted
  }

  lemma OnlyRejectedThen(s: State, t: State, u: State)
    requires OnlyRejected(s, t) && OnlyRejected(t, u)
    ensures OnlyRejected(s, u)
  {
    forall k | |s.dropped| <= k < |u.dropped| ensures !QueryOf(s, u.dropped[k]).accepted {
      if k < |t.dropped| { assert u.dropped[k] == t.dropped[k]; }
    }
  }

  lemma NextStep(cap: nat, s: State, u: Upstream)
    requires cap >= 1 && Shape(s) && Responds(u) && (Busy(s) || s.pending != [])
    ensures var t := Step(cap, s, Next(s, u));
      && Shape(t) && t != s && OnlyRejected(s, t)
      && !Next(s, u).Receive? && (Busy(s) ==> !Next(s, u).Response?)
  {
    StepShape(cap, s, Next(s, u));
    if Busy(s) { BusyStep(cap, s, u); } else { IdleStep(cap, s, u); }
  }

  lemma BusyStep(cap: nat, s: State, u: Upstream)
    requires cap >= 1 && Shape(s) && Busy(s)
    ensures var t := Step(cap, s, Next(s, u));
      t != s && OnlyRejected(s, t) && !Next(s, u).Receive? && !Next(s, u).Response?
  {
    hide Lookup, HeardBy;
  }

  lemma IdleStep(cap: nat, s: State, u: Upstream)
    requires Shape(s) && Responds(u) && !Busy(s) && s.pending != []
    ensures var t := Step(cap, s, Next(s, u)); t != s && OnlyRejected(s, t) && !Next(s, u).Receive?
  {
    hide HeardBy;
    var q := QueryOf(s, s.pending[0]);
    assert InBuffer(u(q).0, u(q).1) && Oldest(s, s.pending, q.iden) == 0;
    assert s.pending[..0] + s.pending[1..] == s.pending[1..];
  }

  /** No event of the schedule brings a request. */
  ghost predicate NoneReceived(es: seq<Event>) {
    forall k :: 0 <= k < |es| ==> !es[k].Receive?
  }

  ghost predicate NoneFromOutside(es: seq<Event>) {
    forall k :: 0 <= k < |es| ==> !es[k].Receive? && !es[k].Response?
  }

  lemma AheadBounded(s: State)
    requires Hands(s)
    ensures Ahead(s) >= 0
  {
  }

  /** Step after step as `Next` says, until all threads are idle, and if `served` until nothing is outstanding. */
  lemma {:induction false} Drain(cap: nat, s: State, u: Upstream, served: bool) returns (es: seq<Event>)
    requires cap >= 1 && Shape(s) && Responds(u)
    ensures NoneReceived(es) && (!served ==> NoneFromOutside(es)) && |es| <= Ahead(s)
    ensures var t := Run(cap, s, es);
      Shape(t) && !Busy(t) && (served ==> t.pending == []) && OnlyRejected(s, t)
    decreases Ahead(s)
  {
    AheadBounded(s);
    if !Busy(s) && (!served || s.pending == []) {
      es := [];
    } else {
      var e := Next(s, u);
      var t := Step(cap, s, e);
      NextStep(cap, s, u);
      StepLowersAhead(cap, s, e);
      AheadBounded(t);
      hide Step, Next, Ahead, OnlyRejected, Busy;
      var rest := Drain(cap, t, u, served);
      PipelineResponses.OneStep(cap, s, e);
      RunConcat(cap, s, [e], rest);
      OnlyRejectedThen(s, t, Run(cap, t, rest));
      es := [e] + rest;
    }
  }

  // ---------- from every reachable state ----------

  /** Request `i` is answered, or it was dropped before, or it is no query. */
  ghost predicate Ended(s: State, t: State, i: nat) {
    i in t.answered || i in s.dropped || (i in t.dropped && !QueryOf(s, i).accepted)
  }

  lemma RunsOn(cap: nat, configured: seq<Record>, es: seq<Event>, more: seq<Event>)
    ensures var t := Run(cap, Run(cap, Init(configured), es), more); OnePlace(t) && Accounted(cap, t)
  {
    RunConcat(cap, Init(configured), es, more);
    RunOnePlace(cap, configured, es + more);
    AllAccountedFor(cap, configured, es + more);
  }

  lemma InPlace(s: State, i: nat)
    requires OnePlace(s) && !Busy(s) && i < |s.received|
    ensures i in s.pending || i in s.answered || i in s.dropped
  {
    hide Count;
    CountEmpty(i);
    assert Occurrences(s, i) == 1;
    CountMember(s.pending, i);
    CountMember(s.answered, i);
    CountMember(s.dropped, i);
  }

  lemma EndedAt(s: State, t: State, i: nat)
    requires OnlyRejected(s, t) && (i in t.answered || i in t.dropped)
    ensures Ended(s, t, i)
  {
    if i in t.dropped {
      var k :| 0 <= k < |t.dropped| && t.dropped[k] == i;
      if k < |s.dropped| { assert s.dropped[k] == i; }
    }
  }

  /**
   From every reachable state the threads alone can bring every request to its end, or into the table of outstanding
   ones, without dropping any query, if a ring can hold one request.
   */
  lemma ThreadsDrain(cap: nat, configured: seq<Record>, es: seq<Event>, u: Upstream) returns (more: seq<Event>)
    requires cap >= 1 && Responds(u)
    ensures var s := Run(cap, Init(configured), es); var t := Run(cap, s, more);
      && NoneFromOutside(more) && |more| <= Ahead(s) && t.received == s.received
      && forall i: nat :: i < |s.received| ==> i in t.pending || Ended(s, t, i)
  {
    var s := Run(cap, Init(configured), es);
    RunsOn(cap, configured, es, []);
    more := Drain(cap, s, u, false);
    var t := Run(cap, s, more);
    RunsOn(cap, configured, es, more);
    hide Run, OnePlace, Busy, Ended;
    forall i: nat | i < |s.received| ensures i in t.pending || Ended(s, t, i) {
      InPlace(t, i);
      if i !in t.pending { EndedAt(s, t, i); }
    }
  }

  /** With a server upstream that responds to each query, every query that was not dropped before can be answered. */
  lemma AllAnswered(cap: nat, configured: seq<Record>, es: seq<Event>, u: Upstream) returns (more: seq<Event>)
    requires cap >= 1 && Responds(u)
    ensures var s := Run(cap, Init(configured), es); var t := Run(cap, s, more);
      && NoneReceived(more) && |more| <= Ahead(s) && t.received == s.received
      && forall i: nat :: i < |s.received| && QueryOf(s, i).accepted && i !in s.dropped ==> i in t.answered
  {
    var s := Run(cap, Init(configured), es);
    RunsOn(cap, configured, es, []);
    more := Drain(cap, s, u, true);
    var t := Run(cap, s, more);
    RunsOn(cap, configured, es, more);
    hide Run, OnePlace, Busy;
    forall i: nat | i < |s.received| && QueryOf(s, i).accepted && i !in s.dropped ensures i in t.answered {
      InPlace(t, i);
      EndedAt(s, t, i);
    }
  }

  // ---------- single requests ----------

  /** A request arrives at idle threads, its name is found in the cache, and it is answered. */
  function FromCache(q: Query): seq<Event> {
    PipelineResponses.LookedUp(q) + [WorkPut] + AnswerRounds(1)
  }

  lemma AnsweredFromCache(cap: nat, s: State, q: Query)
    requires cap >= 1 && Shape(s) && !Busy(s) && q.accepted && Lookup(s.cache, q.name) != 0
    ensures var n := |s.received|;
      Run(cap, s, FromCache(q)) ==
        s.(received := s.received + [q], ips := s.ips + [s.cache[q.name]], answered := s.answered + [n],
          hits := s.hits + [n])
  {
    var n, es := |s.received|, PipelineResponses.LookedUp(q);
    PipelineResponses.ThreeSteps(cap, s, Receive(q), WorkTake, WorkLook);
    PipelineResponses.RunThen(cap, s, es, WorkPut);
    RunConcat(cap, s, es + [WorkPut], AnswerRounds(1));
    hide Run, Lookup;
    var s1 := Step(cap, s, Receive(q));
    assert s1 == s.(received := s.received + [q], ips := s.ips + [0], work := [n]);
    var s2 := Step(cap, s1, WorkTake);
    assert s2 == s1.(work := [], workHand := [n]);
    var s3 := Step(cap, s2, WorkLook);
    assert s3.ips == s.ips + [Lookup(s.cache, q.name)] && s3.workFound == [Lookup(s.cache, q.name)];
    var s4 := Step(cap, s3, WorkPut);
    assert s4.bundle == [n] && s4.workHand == [] && s4.workFound == [];
    AnswersInOrder(cap, s4);
  }

  /** After start-up a query for a configured name is answered with the first address configured for it. */
  lemma ConfiguredAnswered(cap: nat, configured: seq<Record>, i: nat, q: Query)
    requires cap >= 1 && q.accepted && FirstFor(configured, i, q.name) && configured[i].ipv4 != 0
    ensures var t := Run(cap, Init(configured), FromCache(q));
      t.answered == [0] && t.ips == [configured[i].ipv4] && t.dropped == [] && t.forwarded == []
  {
    hide Step, Run, FromCache;
    FirstWriteWins(configured, q.name);
    assert configured[i].domain == q.name;
    AnsweredFromCache(cap, Init(configured), q);
  }

  /** A request whose name is not cached is forwarded, and the message `m` comes back. */
  function FromUpstream(q: Query, m: (seq<byte>, nat), stray: uint32): seq<Event> {
    PipelineResponses.Sent(q) + [Response(m.0, m.1, stray)] + [ReplyPut] + AnswerRounds(1)
  }

  /** No outstanding request has the id. */
  ghost predicate IdFree(s: State, iden: uint16) {
    forall j :: 0 <= j < |s.pending| ==> s.pending[j] < |s.received| && QueryOf(s, s.pending[j]).iden != iden
  }

  lemma LastHasId(s: State, pending: seq<nat>, iden: uint16)
    requires pending != [] && QueryOf(s, pending[|pending| - 1]).iden == iden
    requires forall j :: 0 <= j < |pending| - 1 ==> QueryOf(s, pending[j]).iden != iden
    ensures Oldest(s, pending, iden) == |pending| - 1
  {
  }

  lemma AnsweredFromUpstream(cap: nat, s: State, q: Query, m: (seq<byte>, nat), stray: uint32)
    requires cap >= 1 && Shape(s) && !Busy(s) && q.accepted && Lookup(s.cache, q.name) == 0
    requires PipelineResponses.Bears(m, q.iden) && IdFree(s, q.iden)
    ensures var n, ip := |s.received|, PipelineResponses.FirstHeard(q.name, m, stray);
      Run(cap, s, FromUpstream(q, m, stray)) ==
        s.(received := s.received + [q], ips := s.ips + [ip], answered := s.answered + [n],
          forwarded := s.forwarded + [n],
          cache := Store(s.cache, Record(q.name, ip)), stored := s.stored + [Record(q.name, ip)])
  {
    var n, es := |s.received|, PipelineResponses.Sent(q);
    PipelineResponses.SentRun(cap, s, q);
    PipelineResponses.RunThen(cap, s, es, Response(m.0, m.1, stray));
    PipelineResponses.RunThen(cap, s, es + [Response(m.0, m.1, stray)], ReplyPut);
    RunConcat(cap, s, es + [Response(m.0, m.1, stray)] + [ReplyPut], AnswerRounds(1));
    hide Run, Lookup, Store, AnswerRounds, PipelineResponses.Sent;
    var s1 := s.(received := s.received + [q], ips := s.ips + [0], pending := s.pending + [n],
                 forwarded := s.forwarded + [n]);
    var s3 := Step(cap, Step(cap, s1, Response(m.0, m.1, stray)), ReplyPut);
    UpstreamResponse(cap, s, s1, q, m, stray);
    hide Step;
    AnswersInOrder(cap, s3);
  }

  /** The first answer for a name comes from upstream, and all later ones repeat it without asking there. */
  lemma AskedTwice(cap: nat, s: State, q: Query, q': Query, m: (seq<byte>, nat), stray: uint32)
    requires cap >= 1 && Shape(s) && !Busy(s) && q.accepted && q'.accepted
    requires q.name == q'.name && q.name !in s.cache
    requires PipelineResponses.Bears(m, q.iden) && IdFree(s, q.iden)
    requires PipelineResponses.FirstHeard(q.name, m, stray) != 0
    ensures var n, ip := |s.received|, PipelineResponses.FirstHeard(q.name, m, stray);
      var t := Run(cap, s, FromUpstream(q, m, stray) + FromCache(q'));
      && t.answered == s.answered + [n, n + 1] && t.ips == s.ips + [ip, ip] && t.dropped == s.dropped
      && t.forwarded == s.forwarded + [n] && t.hits == s.hits + [n + 1]
  {
    hide Run, Step, FromUpstream, FromCache, PipelineResponses.FirstHeard, PipelineResponses.Bears, IdFree;
    AnsweredFromUpstream(cap, s, q, m, stray);
    AnsweredFromCache(cap, Run(cap, s, FromUpstream(q, m, stray)), q');
    RunConcat(cap, s, FromUpstream(q, m, stray), FromCache(q'));
  }

  lemma UpstreamResponse(cap: nat, s: State, s1: State, q: Query, m: (seq<byte>, nat), stray: uint32)
    requires cap >= 1 && Shape(s) && !Busy(s) && PipelineResponses.Bears(m, q.iden) && IdFree(s, q.iden)
    requires s1 == s.(received := s.received + [q], ips := s.ips + [0], pending := s.pending + [|s.received|],
      forwarded := s.forwarded + [|s.received|])
    ensures var n, ip := |s.received|, PipelineResponses.FirstHeard(q.name, m, stray);
      Step(cap, Step(cap, s1, Response(m.0, m.1, stray)), ReplyPut) ==
        s1.(pending := s.pending, ips := s.ips + [ip], bundle := [n], cache := Store(s.cache, Record(q.name, ip)),
          stored := s.stored + [Record(q.name, ip)])
  {
    hide Answer.Heard, Store;
    var n, k := |s.received|, |s.pending|;
    forall j | 0 <= j < k ensures QueryOf(s1, s1.pending[j]).iden != q.iden {
      assert s1.pending[j] == s.pending[j] < |s.received|;
    }
    LastHasId(s1, s1.pending, q.iden);
    assert HeardBy(s1, n, m.0, m.1, stray) == PipelineResponses.FirstHeard(q.name, m, stray);
    assert s1.pending[..k] + s1.pending[k + 1..] == s.pending;
    assert SetIp(s1, n, 0) == s1.ips;
    assert forall ip :: SetIp(s1, n, ip) == s.ips + [ip];
  }
}
