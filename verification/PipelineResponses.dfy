/** Whom a response meets: the oldest outstanding request with its id, whether or not that is the one that asked. */
module PipelineResponses {
  import opened Bytes
  import opened Names
  import opened FirstWrites
  import opened Sequences
  import opened Pipeline
  import Wire
  import Answer

  lemma CountTwice(q: seq<nat>, j: nat, k: nat)
    requires j < k < |q| && q[j] == q[k]
    ensures Count(q, q[k]) >= 2
  {
    CountOut(q, k, q[k]);
    CountOut(q[..k] + q[k + 1..], j, q[k]);
  }

  lemma PendingDistinct(s: State)
    requires OnePlace(s)
    ensures NoDuplicates(s.pending)
  {
    forall j, k | 0 <= j < k < |s.pending| ensures s.pending[j] != s.pending[k] {
      assert Occurrences(s, s.pending[k]) <= 1;
      if s.pending[j] == s.pending[k] { CountTwice(s.pending, j, k); }
    }
  }

  /** `messages[i]` arrived as request `i`; the ids of the outstanding ones are its first two octets. */
  ghost predicate IdsReadFrom(s: State, messages: seq<seq<byte>>) {
    forall j :: 0 <= j < |s.pending| ==>
      && s.pending[j] < |messages| && 2 <= |messages[s.pending[j]]|
      && QueryOf(s, s.pending[j]).iden == Wire.GetId(messages[s.pending[j]])
  }

  /**
   A message that begins with the two octets with which outstanding query `k` began is taken for a response to the
   oldest such query `m`: that one leaves the table, gets the address that the walk from behind its own question finds,
   and is stored.  It is query `k` exactly when no older outstanding query began with these two octets.
   */
  lemma ResponseMeetsAsker(cap: nat, configured: seq<Record>, es: seq<Event>, messages: seq<seq<byte>>, k: nat,
                           buff: seq<byte>, len: nat, stray: uint32)
    returns (m: nat)
    requires var s := Run(cap, Init(configured), es);
      k < |s.pending| && s.replyHand == [] && InBuffer(buff, len) && IdsReadFrom(s, messages)
        && buff[..2] == messages[s.pending[k]][..2]
    ensures var s := Run(cap, Init(configured), es);
      var t := Step(cap, s, Response(buff, len, stray));
      && m <= k && t.replyHand == [s.pending[m]] && t.pending == Without(s.pending, m)
      && messages[s.pending[m]][..2] == buff[..2]
      && (forall j :: 0 <= j < m ==> messages[s.pending[j]][..2] != buff[..2])
      && IpOf(t, s.pending[m]) == HeardBy(s, s.pending[m], buff, len, stray)
      && t.stored == s.stored + [Record(QueryOf(s, s.pending[m]).name, IpOf(t, s.pending[m]))]
      && (t.replyHand == [s.pending[k]] <==> forall j :: 0 <= j < k ==> messages[s.pending[j]][..2] != buff[..2])
  {
    var s := Run(cap, Init(configured), es);
    RunOnePlace(cap, configured, es);
    PendingDistinct(s);
    SameIds(s, messages, buff);
    m := Oldest(s, s.pending, Wire.GetId(buff));
    InHandOrPendingKnown(s, s.pending[m]);
    hide HeardBy, Wire.GetId, Run, OnePlace;
    assert m < k ==> s.pending[m] != s.pending[k];
  }

  lemma SameIds(s: State, messages: seq<seq<byte>>, buff: seq<byte>)
    requires IdsReadFrom(s, messages) && 2 <= |buff|
    ensures forall j :: 0 <= j < |s.pending| ==>
      (QueryOf(s, s.pending[j]).iden == Wire.GetId(buff) <==> messages[s.pending[j]][..2] == buff[..2])
  {
    forall j | 0 <= j < |s.pending|
      ensures QueryOf(s, s.pending[j]).iden == Wire.GetId(buff) <==> messages[s.pending[j]][..2] == buff[..2]
    {
      Wire.SameId(messages[s.pending[j]], buff);
    }
  }

  /** The answers `rs` stand in the message behind a question for a host name of `hostLen` octets. */
  ghost predicate Answering(buff: seq<byte>, len: nat, hostLen: nat, rs: seq<Wire.Record>) {
    Wire.HEADER + hostLen + 6 <= len <= |buff| && Wire.AreRecords(rs)
      && buff[Wire.HEADER + hostLen + 6..len] == Wire.RecordsBytes(rs)
  }

  /** Answers to a question are heard by every request whose name has the same length, whatever the name. */
  lemma HeardAtSameLength(s: State, i: nat, buff: seq<byte>, len: nat, stray: uint32, hostLen: nat,
                          rs: seq<Wire.Record>)
    requires Answering(buff, len, hostLen, rs) && |QueryOf(s, i).name| == hostLen
    ensures HeardBy(s, i, buff, len, stray) == Wire.FirstAddress(rs, IpOf(s, i))
  {
    Answer.WalkOverRecords(buff, len, Wire.HEADER + hostLen + 6, IpOf(s, i), rs);
  }

  /** The message ends with one compressed address record, behind a question of class IN. */
  ghost predicate AnswersWith(buff: seq<byte>, len: nat, hostLen: nat, ttl: seq<byte>, ip: uint32) {
    var start := Wire.HEADER + hostLen + 6;
    && |ttl| == 4 && len == start + 16 <= |buff| && buff[start - 1] == 1
    && buff[start..len] == [0xC0, 0x0C, 0, 1, 0, 1] + ttl + [0, 4] + Wire.AddressBytes(ip)
  }

  /** With a name one octet longer or shorter than the one in the question, nothing is heard of the only answer. */
  lemma UnheardBeside(s: State, i: nat, buff: seq<byte>, len: nat, stray: uint32, hostLen: nat, ttl: seq<byte>,
                      ip: uint32)
    requires AnswersWith(buff, len, hostLen, ttl, ip)
    requires |QueryOf(s, i).name| == hostLen + 1 || |QueryOf(s, i).name| == hostLen - 1
    ensures HeardBy(s, i, buff, len, stray) == IpOf(s, i)
  {
    Answer.BesideRecord(buff, Wire.HEADER + hostLen + 6, ttl, ip, IpOf(s, i));
  }

  lemma InHandOrPendingKnown(s: State, i: nat)
    requires OnePlace(s) && i in s.pending
    ensures i < |s.ips|
  {
    hide Count;
    CountMember(s.pending, i);
    assert Occurrences(s, i) == if i < |s.received| then 1 else 0;
  }

  // ---------- runs ----------

  lemma OneStep(cap: nat, s: State, e: Event)
    ensures Run(cap, s, [e]) == Step(cap, s, e)
  {
    assert [e][..0] == [];
  }

  lemma RunThen(cap: nat, s: State, a: seq<Event>, e: Event)
    ensures Run(cap, s, a + [e]) == Step(cap, Run(cap, s, a), e)
  {
    RunConcat(cap, s, a, [e]);
    OneStep(cap, Run(cap, s, a), e);
  }

  lemma ThreeSteps(cap: nat, s: State, a: Event, b: Event, c: Event)
    ensures Run(cap, s, [a, b, c]) == Step(cap, Step(cap, Step(cap, s, a), b), c)
  {
    hide Step;
    OneStep(cap, s, a);
    RunThen(cap, s, [a], b);
    RunThen(cap, s, [a] + [b], c);
    assert [a, b, c] == [a] + [b] + [c];
  }

  /** A request arrives and is looked up. */
  function LookedUp(q: Query): seq<Event> {
    [Receive(q), WorkTake, WorkLook]
  }

  /** It goes on to the table of outstanding ones. */
  function PassedOn(): seq<Event> {
    [WorkPut, ForwardTake, ForwardSend]
  }

  function Sent(q: Query): seq<Event> {
    LookedUp(q) + PassedOn()
  }

  /** Nothing is on the way to the table. */
  ghost predicate WayFree(s: State) {
    Shape(s) && s.work == [] && s.workHand == [] && s.forward == [] && s.forwardHand == []
  }

  /** When nothing else is on the way there, a request without an address in the cache is found to need one. */
  lemma LookedUpRun(cap: nat, s: State, q: Query)
    requires cap >= 1 && WayFree(s) && q.accepted && Lookup(s.cache, q.name) == 0
    ensures var n := |s.received|;
      Run(cap, s, LookedUp(q)) ==
        s.(received := s.received + [q], ips := s.ips + [0], workHand := [n], workFound := [0],
          forwarded := s.forwarded + [n])
  {
    ThreeSteps(cap, s, Receive(q), WorkTake, WorkLook);
    hide Run, Lookup;
    var n := |s.received|;
    var s1 := Step(cap, s, Receive(q));
    assert s1 == s.(received := s.received + [q], ips := s.ips + [0], work := [n]);
    var s2 := Step(cap, s1, WorkTake);
    assert s2 == s1.(work := [], workHand := [n]);
  }

  /** A request that was found to need an address becomes outstanding, whatever the cache has come to hold. */
  lemma PassedOnRun(cap: nat, s: State, n: nat)
    requires cap >= 1 && s.workHand == [n] && s.workFound == [0] && s.forward == [] && s.forwardHand == []
    ensures Run(cap, s, PassedOn()) == s.(workHand := [], workFound := [], pending := s.pending + [n])
  {
    ThreeSteps(cap, s, WorkPut, ForwardTake, ForwardSend);
    hide Run;
    var s1 := Step(cap, s, WorkPut);
    assert s1 == s.(workHand := [], workFound := [], forward := [n]);
    var s2 := Step(cap, s1, ForwardTake);
    assert s2 == s1.(forward := [], forwardHand := [n]);
  }

  lemma SentRun(cap: nat, s: State, q: Query)
    requires cap >= 1 && WayFree(s) && q.accepted && Lookup(s.cache, q.name) == 0
    ensures var n := |s.received|;
      Run(cap, s, Sent(q)) ==
        s.(received := s.received + [q], ips := s.ips + [0], pending := s.pending + [n], forwarded := s.forwarded + [n])
  {
    LookedUpRun(cap, s, q);
    hide Run, Lookup, LookedUp, PassedOn;
    PassedOnRun(cap, Run(cap, s, LookedUp(q)), |s.received|);
    RunConcat(cap, s, LookedUp(q), PassedOn());
  }

  lemma FirstSent(cap: nat, p: Query)
    requires cap >= 1 && p.accepted
    ensures Run(cap, Init([]), Sent(p)) == Init([]).(received := [p], ips := [0], pending := [0], forwarded := [0])
    ensures Init([]).cache == map[]
  {
    SentRun(cap, Init([]), p);
  }

  // ---------- two requests under one id ----------

  /** What a request for `name` that has no address yet hears in a message. */
  function FirstHeard(name: Name, m: (seq<byte>, nat), stray: uint32): uint32
    requires m.1 <= |m.0|
  {
    match Answer.Heard(m.0, m.1, |name|, 0)
    case Address(ip) => ip
    case Outside => stray
  }

  /** Two hosts are asked for under one id; then a first and a second message with that id arrive. */
  function DuplicateSchedule(a: Name, b: Name, iden: uint16, m: (seq<byte>, nat), m': (seq<byte>, nat),
                             stray: uint32): seq<Event> {
    Sent(Query(true, a, iden)) + Sent(Query(true, b, iden))
      + [Response(m.0, m.1, stray)] + [ReplyPut] + [Response(m'.0, m'.1, stray)]
  }

  ghost predicate BothOutstanding(s: State, a: Name, b: Name, iden: uint16) {
    && s.received == [Query(true, a, iden), Query(true, b, iden)] && s.ips == [0, 0] && s.pending == [0, 1]
    && s.replyHand == [] && s.bundle == [] && s.cache == map[]
  }

  lemma BothSent(cap: nat, a: Name, b: Name, iden: uint16)
    requires cap >= 1
    ensures BothOutstanding(Run(cap, Init([]), Sent(Query(true, a, iden)) + Sent(Query(true, b, iden))), a, b, iden)
  {
    var init, p, q := Init([]), Query(true, a, iden), Query(true, b, iden);
    hide Run, Sent;
    FirstSent(cap, p);
    SentRun(cap, Run(cap, init, Sent(p)), q);
    RunConcat(cap, init, Sent(p), Sent(q));
  }

  /** A message in the forwarder's buffer with the id. */
  ghost predicate Bears(m: (seq<byte>, nat), iden: uint16) {
    InBuffer(m.0, m.1) && Wire.GetId(m.0) == iden
  }

  lemma FirstResponse(cap: nat, s: State, a: Name, b: Name, iden: uint16, m: (seq<byte>, nat), stray: uint32)
    requires cap >= 1 && BothOutstanding(s, a, b, iden) && Bears(m, iden)
    ensures var t := Step(cap, Step(cap, s, Response(m.0, m.1, stray)), ReplyPut);
      var ip := FirstHeard(a, m, stray);
      && t.received == s.received && t.pending == [1] && t.replyHand == [] && t.bundle == [0]
      && t.cache == map[a := ip] && t.ips == [ip, 0]
  {
    hide Answer.Heard;
    assert Oldest(s, s.pending, iden) == 0;
    assert HeardBy(s, 0, m.0, m.1, stray) == FirstHeard(a, m, stray);
    var t := Step(cap, s, Response(m.0, m.1, stray));
    assert t.pending == [1] && t.replyHand == [0] && t.ips == [FirstHeard(a, m, stray), 0];
  }

  lemma SecondResponse(cap: nat, s: State, a: Name, b: Name, iden: uint16, m: (seq<byte>, nat), stray: uint32,
                       other: uint32)
    requires s.received == [Query(true, a, iden), Query(true, b, iden)] && s.pending == [1] && s.replyHand == []
    requires s.cache == map[a := other] && s.ips == [other, 0] && a != b && Bears(m, iden)
    ensures var t := Step(cap, s, Response(m.0, m.1, stray));
      var ip := FirstHeard(b, m, stray);
      t.replyHand == [1] && t.cache == map[a := other, b := ip] && t.ips == [other, ip] && t.bundle == s.bundle
  {
    hide Answer.Heard;
    assert Oldest(s, s.pending, iden) == 0;
    assert HeardBy(s, 1, m.0, m.1, stray) == FirstHeard(b, m, stray);
  }

  /**
   Each host is cached with what a walk from behind its own question finds in the message that came first, or
   second.
   */
  lemma DuplicateIds(cap: nat, a: Name, b: Name, iden: uint16, m: (seq<byte>, nat), m': (seq<byte>, nat), stray: uint32)
    requires cap >= 1 && a != b && Bears(m, iden) && Bears(m', iden)
    ensures var s := Run(cap, Init([]), DuplicateSchedule(a, b, iden, m, m', stray));
      var ip, ip' := FirstHeard(a, m, stray), FirstHeard(b, m', stray);
      s.cache == map[a := ip, b := ip'] && s.ips == [ip, ip'] && s.bundle == [0] && s.replyHand == [1]
  {
    BothSent(cap, a, b, iden);
    FirstResponse(cap, Run(cap, Init([]), Sent(Query(true, a, iden)) + Sent(Query(true, b, iden))), a, b, iden, m,
      stray);
    hide Step, Run, Sent, FirstHeard;
    var init, es := Init([]), Sent(Query(true, a, iden)) + Sent(Query(true, b, iden));
    var s := Run(cap, init, es);
    RunThen(cap, init, es, Response(m.0, m.1, stray));
    RunThen(cap, init, es + [Response(m.0, m.1, stray)], ReplyPut);
    RunThen(cap, init, es + [Response(m.0, m.1, stray)] + [ReplyPut], Response(m'.0, m'.1, stray));
    SecondResponse(cap, Step(cap, Step(cap, s, Response(m.0, m.1, stray)), ReplyPut), a, b, iden, m', stray,
      FirstHeard(a, m, stray));
  }

  /**
   When names of equal length share an id and the response for the second host comes first, each is cached with the
   address of the other.
   */
  lemma AddressesSwapped(cap: nat, a: Name, b: Name, iden: uint16, m: (seq<byte>, nat), m': (seq<byte>, nat),
                         stray: uint32,
                         ofB: seq<Wire.Record>, ofA: seq<Wire.Record>)
    requires cap >= 1 && a != b && |a| == |b| && Bears(m, iden) && Bears(m', iden)
    requires Answering(m.0, m.1, |b|, ofB) && Answering(m'.0, m'.1, |a|, ofA)
    ensures var s := Run(cap, Init([]), DuplicateSchedule(a, b, iden, m, m', stray));
      s.cache == map[a := Wire.FirstAddress(ofB, 0), b := Wire.FirstAddress(ofA, 0)]
  {
    hide Run, Answering, Wire.FirstAddress, FirstHeard, DuplicateSchedule;
    DuplicateIds(cap, a, b, iden, m, m', stray);
    FirstHeardAtSameLength(a, m, stray, |b|, ofB);
    FirstHeardAtSameLength(b, m', stray, |a|, ofA);
  }

  lemma FirstHeardAtSameLength(name: Name, m: (seq<byte>, nat), stray: uint32, hostLen: nat, rs: seq<Wire.Record>)
    requires m.1 <= |m.0| && Answering(m.0, m.1, hostLen, rs) && |name| == hostLen
    ensures FirstHeard(name, m, stray) == Wire.FirstAddress(rs, 0)
  {
    Answer.WalkOverRecords(m.0, m.1, Wire.HEADER + hostLen + 6, 0, rs);
  }

  /**
   When one name is an octet longer and both responses bring one compressed address record, neither walk finds it: both
   hosts are cached with 0, and so are never answered from the cache again.
   */
  lemma AddressesMissed(cap: nat, a: Name, b: Name, iden: uint16, m: (seq<byte>, nat), m': (seq<byte>, nat),
                        stray: uint32,
                        ttl: seq<byte>, ttl': seq<byte>, ofB: uint32, ofA: uint32)
    requires cap >= 1 && (|b| == |a| + 1 || |a| == |b| + 1) && Bears(m, iden) && Bears(m', iden)
    requires AnswersWith(m.0, m.1, |b|, ttl, ofB) && AnswersWith(m'.0, m'.1, |a|, ttl', ofA)
    ensures Run(cap, Init([]), DuplicateSchedule(a, b, iden, m, m', stray)).cache == map[a := 0, b := 0]
  {
    DuplicateIds(cap, a, b, iden, m, m', stray);
    Answer.BesideRecord(m.0, Wire.HEADER + |b| + 6, ttl, ofB, 0);
    Answer.BesideRecord(m'.0, Wire.HEADER + |a| + 6, ttl', ofA, 0);
  }

  // ---------- a look-up overtaken by an insert ----------

  /** A name is asked for twice; the first request has its response stored between look-up and enqueue of the second. */
  function OvertakenSchedule(q: Query, m: (seq<byte>, nat), stray: uint32): seq<Event> {
    Sent(q) + LookedUp(q) + [Response(m.0, m.1, stray)] + PassedOn()
  }

  /** Then the second one is forwarded although its name has an address in the cache. */
  lemma LookUpOvertaken(cap: nat, q: Query, m: (seq<byte>, nat), stray: uint32)
    requires cap >= 1 && q.accepted && Bears(m, q.iden)
    ensures var s := Run(cap, Init([]), OvertakenSchedule(q, m, stray));
      s.cache == map[q.name := FirstHeard(q.name, m, stray)] && s.pending == [1] && s.forwarded == [0, 1]
        && s.hits == []
  {
    var init := Init([]);
    FirstSent(cap, q);
    var s := Run(cap, init, Sent(q));
    LookedUpRun(cap, s, q);
    RunConcat(cap, init, Sent(q), LookedUp(q));
    RunThen(cap, init, Sent(q) + LookedUp(q), Response(m.0, m.1, stray));
    hide Run, Sent, LookedUp, PassedOn;
    var t := Run(cap, init, Sent(q) + LookedUp(q));
    OvertakingResponse(cap, t, q, m, stray);
    PassedOnRun(cap, Step(cap, t, Response(m.0, m.1, stray)), 1);
    RunConcat(cap, init, Sent(q) + LookedUp(q) + [Response(m.0, m.1, stray)], PassedOn());
  }

  lemma OvertakingResponse(cap: nat, s: State, q: Query, m: (seq<byte>, nat), stray: uint32)
    requires s.received == [q, q] && s.ips == [0, 0] && s.pending == [0] && s.replyHand == [] && s.cache == map[]
        && Bears(m, q.iden)
    ensures var t := Step(cap, s, Response(m.0, m.1, stray));
      && t.cache == map[q.name := FirstHeard(q.name, m, stray)] && t.pending == []
      && t == s.(cache := t.cache, pending := [], ips := t.ips, stored := t.stored, replyHand := [0])
  {
    hide Answer.Heard;
    assert Oldest(s, s.pending, q.iden) == 0;
    assert HeardBy(s, 0, m.0, m.1, stray) == FirstHeard(q.name, m, stray);
  }
}
