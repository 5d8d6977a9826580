/**
 What 2^32 reservations between two steps of a thread do to the ring with its 32-bit counters, and
 for how many threads its order is safe without any assumption on the run.
 */
module RingLap {
  import opened Bytes
  import opened Ring
  import opened RingSafety
  import opened RingWrap
  import opened RingRace

  // ---------- short runs ----------

  ghost predicate SmallP(pc: Producer, n: nat) {
    match pc
    case PIdle(_) => true
    case PStart(_) => true
    case PHead(_, head) => 0 <= head <= n
    case PBoth(_, head, tail, _) => 0 <= head <= n && 0 <= tail <= n
    case PReserved(_, head) => 0 <= head <= n
    case PWritten(_, head) => 0 <= head <= n
    case PTurn(_, head) => 0 <= head <= n
  }

  ghost predicate SmallC(pc: Consumer, n: nat) {
    match pc
    case CIdle(_) => true
    case CStart => true
    case CFirst(v, _) => 0 <= v <= n
    case CBoth(tail, head, _) => 0 <= tail <= n && 0 <= head <= n
    case CReserved(head) => 0 <= head <= n
    case CRead(head, _) => 0 <= head <= n
    case CTurn(head, _) => 0 <= head <= n
  }

  ghost predicate SmallCounters(s: State, n: nat) {
    0 <= s.prodHead <= n && 0 <= s.prodTail <= n && 0 <= s.consHead <= n && 0 <= s.consTail <= n
  }

  /** No counter that anyone has seen exceeds `n`. */
  ghost predicate Small(s: State, n: nat) {
    && SmallCounters(s, n)
    && (forall p :: 0 <= p < |s.prods| ==> SmallP(s.prods[p], n))
    && (forall c :: 0 <= c < |s.cons| ==> SmallC(s.cons[c], n))
  }

  lemma SmallProducerStep(cfg: Config, s: State, p: nat, n: nat)
    requires Sized(cfg, s) && !cfg.wrap && SmallCounters(s, n) && p < |s.prods| && SmallP(s.prods[p], n)
    ensures var t := ProducerStep(cfg, s, p);
      SmallCounters(t, n + 1) && SmallP(t.prods[p], n + 1) && t.prods == s.prods[p := t.prods[p]] && t.cons == s.cons
  {
  }

  lemma SmallConsumerStep(cfg: Config, s: State, c: nat, n: nat)
    requires Sized(cfg, s) && !cfg.wrap && SmallCounters(s, n) && c < |s.cons| && SmallC(s.cons[c], n)
    ensures var t := ConsumerStep(cfg, s, c);
      SmallCounters(t, n + 1) && SmallC(t.cons[c], n + 1) && t.cons == s.cons[c := t.cons[c]] && t.prods == s.prods
  {
  }

  lemma SmallStep(cfg: Config, s: State, e: Event, n: nat)
    requires Sized(cfg, s) && !cfg.wrap && Small(s, n)
    ensures Small(Step(cfg, s, e), n + 1)
  {
    match e
    case Produce(p) => if p < |s.prods| { SmallProducerStep(cfg, s, p, n); }
    case Consume(c) => if c < |s.cons| { SmallConsumerStep(cfg, s, c, n); }
    case _ =>
    hide ProducerStep, ConsumerStep;
    var t := Step(cfg, s, e);
    forall p | 0 <= p < |t.prods| ensures SmallP(t.prods[p], n + 1) {
      assert SmallP(s.prods[p], n);
    }
    forall c | 0 <= c < |t.cons| ensures SmallC(t.cons[c], n + 1) {
      assert SmallC(s.cons[c], n);
    }
  }

  lemma {:induction false} SmallRun(cfg: Config, producers: nat, consumers: nat, es: seq<Event>)
    requires cfg.size > 0 && !cfg.wrap
    ensures Small(Run(cfg, Init(cfg, producers, consumers), es), |es|)
  {
    if es != [] {
      hide Step, Small;
      SmallRun(cfg, producers, consumers, es[..|es| - 1]);
      SmallStep(cfg, Run(cfg, Init(cfg, producers, consumers), es[..|es| - 1]), es[|es| - 1], |es| - 1);
    }
  }

  /** In a run of at most 2^32 - mask steps nobody is misled. */
  lemma ShortRun(cfg: Config, producers: nat, consumers: nat, es: seq<Event>)
    requires cfg.size > 0 && !cfg.wrap && |es| + (cfg.size - 1) <= TWO32
    ensures NobodyMisled(cfg, producers, consumers, es)
  {
    forall i | 0 <= i < |es| ensures NotMisled(cfg, Run(cfg, Init(cfg, producers, consumers), es[..i]), es[i]) {
      SmallRun(cfg, producers, consumers, es[..i]);
      hide Run, Init;
      SmallDecides(cfg, Run(cfg, Init(cfg, producers, consumers), es[..i]), es[i], i);
    }
  }

  lemma SmallDecides(cfg: Config, s: State, e: Event, n: nat)
    requires Small(s, n) && cfg.size > 0 && n + (cfg.size - 1) < TWO32
    ensures NotMisled(cfg, s, e)
  {
    match e
    case Produce(p) => if p < |s.prods| { assert SmallP(s.prods[p], n); }
    case Consume(c) => if c < |s.cons| { assert SmallC(s.cons[c], n); }
    case _ =>
  }

  /**
   All runs of the 32-bit ring in which nobody is misled hand out a prefix of what was put in exactly when
   there is at most one consumer, or the loads are exchanged.
   */
  lemma UnmisledSafeExactlyWhen(cfg: Config, q: nat, producers: nat, consumers: nat)
    requires WordSized(cfg, q) && !cfg.wrap && producers >= 1
    ensures (forall es :: NobodyMisled(cfg, producers, consumers, es) ==>
              var s := Run(cfg.(wrap := true), Init(cfg, producers, consumers), es); s.deq <= s.enq)
       <==> cfg.swapped || consumers <= 1
  {
    if cfg.swapped || consumers <= 1 {
      forall es | NobodyMisled(cfg, producers, consumers, es)
        ensures var s := Run(cfg.(wrap := true), Init(cfg, producers, consumers), es); s.deq <= s.enq
      {
        WrappedDequeuedIsPrefix(cfg, q, producers, consumers, es);
      }
    } else {
      var es := RaceSchedule(1, 2);
      assert |es| == 35;
      assert cfg.size * q >= cfg.size * 2;
      ShortRun(cfg, producers, consumers, es);
      hide Run;
      RaceRun(cfg.(wrap := true), producers, consumers, 1, 2);
      assert Init(cfg.(wrap := true), producers, consumers) == Init(cfg, producers, consumers);
    }
  }

  // ---------- many rounds ----------

  /** An item goes through the ring while producer 0 and all consumers but 0 rest. */
  ghost function Round(y: Item): seq<Event> {
    EnqueueAlone(1, y) + DequeueAlone(0)
  }

  ghost function Rounds(n: nat, y: Item): seq<Event> {
    if n == 0 then [] else Rounds(n - 1, y) + Round(y)
  }

  ghost predicate Words32(cfg: Config, s: State) {
    && cfg.wrap && !cfg.swapped && 2 <= cfg.size < TWO32 && Sized(cfg, s) && |s.prods| >= 2 && |s.cons| >= 1
    && 0 <= s.prodHead < TWO32 && 0 <= s.consHead < TWO32
  }

  /** No call of producer 1 or consumer 0 is under way. */
  ghost predicate Resting(cfg: Config, s: State) {
    Words32(cfg, s) && s.prods[1].PIdle? && s.cons[0].CIdle? && s.prodHead == s.prodTail && s.consHead == s.consTail
  }

  ghost predicate Empty(s: State) {
    s.prodHead == s.consHead && s.deq == s.enq
  }

  lemma NormRange(cfg: Config, h: int)
    requires cfg.wrap
    ensures 0 <= Norm(cfg, h) < TWO32
  {
  }

  lemma NormNext(cfg: Config, h: int, k: nat)
    requires cfg.wrap
    ensures Norm(cfg, Norm(cfg, h + k) + 1) == Norm(cfg, h + (k + 1))
  {
    WordOfNext(h + k);
  }

  /** After `k` more items the guard still finds a slot. */
  lemma SlotsLeft(cfg: Config, h: int, k: nat)
    requires cfg.wrap && 0 <= h < TWO32 && k < cfg.size - 1 < TWO32
    ensures Norm(cfg, h - Norm(cfg, h + k) + (cfg.size - 1)) != 0
  {
    assert Norm(cfg, h + k) == if h + k < TWO32 then h + k else h + k - TWO32;
  }

  /** What the guards of a round compute. */
  lemma RoundWords(cfg: Config, tail: int, head: int)
    requires cfg.wrap && 0 <= tail == head < TWO32 && 2 <= cfg.size < TWO32
    ensures Norm(cfg, tail - head + (cfg.size - 1)) != 0 && Norm(cfg, Norm(cfg, head + 1) - tail) != 0
  {
  }

  /** `t` is `s` after `n` items have gone through. */
  ghost predicate Passed(cfg: Config, s: State, t: State, n: nat)
    requires Resting(cfg, s)
  {
    && Resting(cfg, t) && Empty(t) && t.prodHead == Norm(cfg, s.prodHead + n)
    && t.prods[0] == s.prods[0] && |t.enq| == |s.enq| + n
  }

  /** Producer 1 puts an item in. */
  lemma OneIn(cfg: Config, s: State, y: Item)
    requires Resting(cfg, s) && Norm(cfg, s.consHead - s.prodHead + (cfg.size - 1)) != 0
    ensures var t := Run(cfg, s, EnqueueAlone(1, y));
      && Resting(cfg, t) && t.prodHead == Norm(cfg, s.prodHead + 1) && t.consHead == s.consHead
      && t.prods[0] == s.prods[0] && t.slots[s.prodHead % cfg.size] == y && t.enq == s.enq + [y] && t.deq == s.deq
  {
    NormRange(cfg, s.prodHead + 1);
    hide Run, EnqueueAlone, Norm;
    SoloEnqueue(cfg, s, 1, y);
  }

  /** Consumer 0 takes one out. */
  lemma OneOut(cfg: Config, s: State)
    requires Resting(cfg, s) && Norm(cfg, s.prodHead - s.consHead) != 0
    ensures var t := Run(cfg, s, DequeueAlone(0));
      && Resting(cfg, t) && t.prodHead == s.prodHead && t.consHead == Norm(cfg, s.consHead + 1)
      && t.prods[0] == s.prods[0] && t.enq == s.enq && t.deq == s.deq + [s.slots[s.consHead % cfg.size]]
  {
    NormRange(cfg, s.consHead + 1);
    hide Run, DequeueAlone, Norm;
    SoloDequeue(cfg, s, 0);
  }

  /** One item goes through an empty ring. */
  lemma OneThrough(cfg: Config, s: State, y: Item)
    requires Resting(cfg, s) && Empty(s)
    ensures var t := Run(cfg, s, Round(y));
      Resting(cfg, t) && Empty(t) && t.prodHead == Norm(cfg, s.prodHead + 1) && t.prods[0] == s.prods[0]
        && |t.enq| == |s.enq| + 1
  {
    RoundWords(cfg, s.consHead, s.prodHead);
    hide Run, EnqueueAlone, DequeueAlone, Norm, Resting;
    OneIn(cfg, s, y);
    var u := Run(cfg, s, EnqueueAlone(1, y));
    assert u.consHead == s.prodHead && u.prodHead - u.consHead == Norm(cfg, s.prodHead + 1) - s.consHead;
    assert u.slots[u.consHead % cfg.size] == y;
    OneOut(cfg, u);
    RunConcat(cfg, s, EnqueueAlone(1, y), DequeueAlone(0));
  }

  lemma RoundRun(cfg: Config, s: State, t: State, n: nat, y: Item)
    requires Resting(cfg, s) && Passed(cfg, s, t, n)
    ensures Passed(cfg, s, Run(cfg, t, Round(y)), n + 1)
  {
    NormNext(cfg, s.prodHead, n);
    hide Run, Round, Norm, Resting, Empty;
    OneThrough(cfg, t, y);
  }

  lemma {:induction false} RoundsRun(cfg: Config, s: State, n: nat, y: Item)
    requires Resting(cfg, s) && Empty(s)
    ensures Passed(cfg, s, Run(cfg, s, Rounds(n, y)), n)
  {
    if n > 0 {
      hide Run, Round, Passed, Resting;
      RoundsRun(cfg, s, n - 1, y);
      RoundRun(cfg, s, Run(cfg, s, Rounds(n - 1, y)), n - 1, y);
      RunConcat(cfg, s, Rounds(n - 1, y), Round(y));
    }
  }

  // ---------- the guard misled ----------

  /**
   Producer 0 loads prod.head; the others pass 2^32 - mask items through the ring; then producer 0 loads cons.tail.
   */
  ghost function AboutToRefuse(size: nat, x: Item, y: Item): seq<Event>
    requires 2 <= size < TWO32
  {
    [Invoke(0, x)] + [Produce(0)] + Rounds(TWO32 - (size - 1), y) + [Produce(0)]
  }

  lemma AboutToRefuseRun(cfg: Config, producers: nat, consumers: nat, x: Item, y: Item)
    requires cfg.wrap && !cfg.swapped && 2 <= cfg.size < TWO32 && producers >= 2 && consumers >= 1
    ensures var s := Run(cfg, Init(cfg, producers, consumers), AboutToRefuse(cfg.size, x, y));
      && s.prods[0] == PBoth(x, 0, TWO32 - (cfg.size - 1), false)
      && Resting(cfg, s) && Empty(s) && |s.enq| == TWO32 - (cfg.size - 1)
      && ProducerStep(cfg, s, 0) == PutP(s, 0, PIdle(-1))
  {
    hide Run, Rounds;
    var init, n := Init(cfg, producers, consumers), TWO32 - (cfg.size - 1);
    var a := [Invoke(0, x)];
    RunOne(cfg, init, Invoke(0, x));
    Then(cfg, init, a, Produce(0));
    a := a + [Produce(0)];
    var s := Run(cfg, init, a);
    assert s == PutP(init, 0, PHead(x, 0));
    RoundsRun(cfg, s, n, y);
    RunConcat(cfg, init, a, Rounds(n, y));
    a := a + Rounds(n, y);
    Then(cfg, init, a, Produce(0));
    var t := Run(cfg, init, a);
    assert Step(cfg, t, Produce(0)) == PutP(t, 0, PBoth(x, 0, n, false));
  }

  ghost function RefusedSchedule(size: nat, x: Item, y: Item): seq<Event>
    requires 2 <= size < TWO32
  {
    AboutToRefuse(size, x, y) + [Produce(0)]
  }

  /**
   With fewer than 2^32 reservations in between, `enqueue` refuses an item of an empty ring.  Its last two steps
   touch no counter, so that the ring was as empty when it loaded cons.tail.
   */
  lemma RefusedThoughEmpty(cfg: Config, producers: nat, consumers: nat, x: Item, y: Item)
    requires cfg.wrap && !cfg.swapped && 2 <= cfg.size < TWO32 && producers >= 2 && consumers >= 1
    ensures var s := Run(cfg, Init(cfg, producers, consumers), RefusedSchedule(cfg.size, x, y));
      s.prods[0] == PIdle(-1) && Resting(cfg, s) && Empty(s) && |s.enq| == TWO32 - (cfg.size - 1) < TWO32
  {
    hide Run, AboutToRefuse;
    AboutToRefuseRun(cfg, producers, consumers, x, y);
    Then(cfg, Init(cfg, producers, consumers), AboutToRefuse(cfg.size, x, y), Produce(0));
  }

  // ---------- the CAS misled ----------

  ghost function Filling(n: nat, y: Item): seq<Event> {
    if n == 0 then [] else Filling(n - 1, y) + EnqueueAlone(1, y)
  }

  ghost function Copies(n: nat, y: Item): seq<Item> {
    seq(n, _ => y)
  }

  lemma CopiesNext(n: nat, y: Item)
    requires n > 0
    ensures Copies(n, y) == Copies(n - 1, y) + [y]
  {
  }

  /** `t` is `s` after `n` more items. */
  ghost predicate Filled(cfg: Config, s: State, t: State, n: nat, y: Item)
    requires Resting(cfg, s)
  {
    && Resting(cfg, t) && t.consHead == s.consHead && t.prodHead == Norm(cfg, s.prodHead + n)
    && t.prods[0] == s.prods[0] && t.deq == s.deq && t.enq == s.enq + Copies(n, y)
  }

  lemma FillRun(cfg: Config, s: State, t: State, n: nat, y: Item)
    requires Resting(cfg, s) && s.prodHead == s.consHead && n < cfg.size - 1 && Filled(cfg, s, t, n, y)
    ensures Filled(cfg, s, Run(cfg, t, EnqueueAlone(1, y)), n + 1, y)
  {
    SlotsLeft(cfg, s.prodHead, n);
    NormNext(cfg, s.prodHead, n);
    CopiesNext(n + 1, y);
    hide Run, EnqueueAlone, Norm, Copies;
    OneIn(cfg, t, y);
    assert t.enq + [y] == s.enq + Copies(n + 1, y);
  }

  lemma {:induction false} FillingRun(cfg: Config, s: State, n: nat, y: Item)
    requires Resting(cfg, s) && s.prodHead == s.consHead && n < cfg.size
    ensures Filled(cfg, s, Run(cfg, s, Filling(n, y)), n, y)
  {
    if n == 0 {
      assert s.enq + Copies(0, y) == s.enq;
    } else {
      hide Run, EnqueueAlone, Filled, Resting;
      FillingRun(cfg, s, n - 1, y);
      FillRun(cfg, s, Run(cfg, s, Filling(n - 1, y)), n - 1, y);
      RunConcat(cfg, s, Filling(n - 1, y), EnqueueAlone(1, y));
    }
  }

  /** Producer 0 loads both counters of an empty ring, and rests while the ring goes through 2^32 items and is full. */
  ghost function LapSchedule(size: nat, x: Item, y: Item): seq<Event>
    requires 2 <= size < TWO32
  {
    [Invoke(0, x), Produce(0), Produce(0)] + Rounds(TWO32 - (size - 1), y) + Filling(size - 1, y)
  }

  lemma LapRun(cfg: Config, producers: nat, consumers: nat, x: Item, y: Item)
    requires cfg.wrap && !cfg.swapped && 2 <= cfg.size < TWO32 && producers >= 2 && consumers >= 1
    ensures var s := Run(cfg, Init(cfg, producers, consumers), LapSchedule(cfg.size, x, y));
      && Resting(cfg, s) && s.prodHead == 0 && s.consHead == TWO32 - (cfg.size - 1)
      && s.prods[0].PBoth? && s.prods[0].item == x && s.prods[0].head == 0 && s.prods[0].tail == 0
      && s.enq == s.deq + Copies(cfg.size - 1, y)
  {
    hide Run, Rounds, Filling;
    var init, n := Init(cfg, producers, consumers), TWO32 - (cfg.size - 1);
    var a := [Invoke(0, x), Produce(0), Produce(0)];
    LoadsAlone(cfg, init, 0, x);
    RoundsRun(cfg, Run(cfg, init, a), n, y);
    RunConcat(cfg, init, a, Rounds(n, y));
    a := a + Rounds(n, y);
    FillingRun(cfg, Run(cfg, init, a), cfg.size - 1, y);
    RunConcat(cfg, init, a, Filling(cfg.size - 1, y));
  }

  /** Then its CAS succeeds on the full ring, and another item overwrites the oldest one. */
  ghost function OverwriteSchedule(z: Item): seq<Event> {
    [Produce(0)] + [Produce(0), Produce(0), Produce(0)] + EnqueueAlone(1, z) + DequeueAlone(0)
  }

  /** The stale CAS: the full ring takes one item more. */
  lemma StaleCasRun(cfg: Config, s: State)
    requires Resting(cfg, s) && s.prodHead == 0
    requires s.prods[0].PBoth? && s.prods[0].head == 0 && s.prods[0].tail == 0
    ensures var t := Run(cfg, s, [Produce(0)] + [Produce(0), Produce(0), Produce(0)]);
      && Resting(cfg, t) && t.prodHead == 1 && t.consHead == s.consHead
      && t.enq == s.enq + [s.prods[0].item] && t.deq == s.deq
  {
    hide Run;
    RunOne(cfg, s, Produce(0));
    var t, x := Step(cfg, s, Produce(0)), s.prods[0].item;
    assert t == PutP(s, 0, PReserved(x, 0)).(prodHead := 1, enq := s.enq + [x], pOwner := s.pOwner + [0]);
    PublishesAlone(cfg, t, 0, x, 0);
    RunConcat(cfg, s, [Produce(0)], [Produce(0), Produce(0), Produce(0)]);
  }

  /** What the overfull ring computes on words. */
  lemma OverfullWords(cfg: Config)
    requires cfg.wrap && 2 <= cfg.size <= TWO32 / 2
    ensures var consHead := TWO32 - (cfg.size - 1);
      Norm(cfg, consHead - 1 + (cfg.size - 1)) != 0 && Norm(cfg, 2 - consHead) != 0 && Norm(cfg, 1 + 1) == 2
        && 1 % cfg.size == 1
  {
  }

  lemma OverwriteRun(cfg: Config, s: State, z: Item)
    requires Resting(cfg, s) && s.prodHead == 0 && s.consHead == TWO32 - (cfg.size - 1) && s.consHead % cfg.size == 1
    requires cfg.size <= TWO32 / 2
    requires s.prods[0].PBoth? && s.prods[0].head == 0 && s.prods[0].tail == 0
    ensures var t := Run(cfg, s, OverwriteSchedule(z));
      t.enq == s.enq + [s.prods[0].item] + [z] && t.deq == s.deq + [z]
  {
    StaleCasRun(cfg, s);
    OverfullWords(cfg);
    hide Run, Step, EnqueueAlone, DequeueAlone, Norm;
    var a := [Produce(0)] + [Produce(0), Produce(0), Produce(0)];
    OneIn(cfg, Run(cfg, s, a), z);
    RunConcat(cfg, s, a, EnqueueAlone(1, z));
    OneOut(cfg, Run(cfg, s, a + EnqueueAlone(1, z)));
    RunConcat(cfg, s, a + EnqueueAlone(1, z), DequeueAlone(0));
  }

  /**
   A producer lapped by 2^32 reservations breaks the order of the ring: the item put in last is handed out for the
   oldest one that was waiting, which is lost.
   */
  lemma LapLosesItem(cfg: Config, q: nat, producers: nat, consumers: nat, x: Item, y: Item, z: Item)
    requires WordSized(cfg, q) && cfg.wrap && !cfg.swapped && producers >= 2 && consumers >= 1 && y != z
    ensures var s := Run(cfg, Init(cfg, producers, consumers), LapSchedule(cfg.size, x, y) + OverwriteSchedule(z));
      var k := |s.deq| - 1;
      && !(s.deq <= s.enq) && s.enq == s.deq[..k] + Copies(cfg.size - 1, y) + [x] + [z]
      && s.enq[k] == y && s.deq[k] == z
  {
    assert cfg.size * q >= cfg.size * 2;
    LapRun(cfg, producers, consumers, x, y);
    FirstSlot(cfg, q);
    hide Run, LapSchedule, OverwriteSchedule;
    var init := Init(cfg, producers, consumers);
    var s := Run(cfg, init, LapSchedule(cfg.size, x, y));
    OverwriteRun(cfg, s, z);
    RunConcat(cfg, init, LapSchedule(cfg.size, x, y), OverwriteSchedule(z));
    var t := Run(cfg, s, OverwriteSchedule(z));
    assert t.deq[|s.deq|] == z && t.enq[|s.deq|] == y && t.deq[..|s.deq|] == s.deq;
  }

  lemma FirstSlot(cfg: Config, q: nat)
    requires WordSized(cfg, q)
    ensures (TWO32 - (cfg.size - 1)) % cfg.size == 1
  {
    Distribute(cfg.size, q, 1);
    AddSizes(cfg.size, 1, q - 1);
  }

  // ---------- one producer ----------

  /** Nobody else can move the head that the producer has loaded. */
  ghost predicate HeadStands(s: State) {
    |s.prods| == 1 ==> (s.prods[0].PHead? || s.prods[0].PBoth? ==> s.prods[0].head == s.prodHead)
  }

  lemma {:induction false} HeadStandsInRun(cfg: Config, consumers: nat, es: seq<Event>)
    requires cfg.size > 0
    ensures HeadStands(Run(cfg, Init(cfg, 1, consumers), es))
  {
    if es != [] {
      HeadStandsInRun(cfg, consumers, es[..|es| - 1]);
      HeadStandsInStep(cfg, Run(cfg, Init(cfg, 1, consumers), es[..|es| - 1]), es[|es| - 1]);
    }
  }

  lemma HeadStandsInStep(cfg: Config, s: State, e: Event)
    requires Sized(cfg, s) && HeadStands(s)
    ensures HeadStands(Step(cfg, s, e))
  {
  }

  lemma SingleProducerNotMisled(cfg: Config, q: nat, s: State, e: Event)
    requires WordSized(cfg, q) && SafeConfig(cfg, s) && !cfg.swapped && Inv(cfg, s) && HeadStands(s) && |s.prods| == 1
    ensures NotMisled(cfg, s, e)
  {
    SizeFits(cfg, q);
    assert ProducerOk(cfg, s, 0);
  }

  lemma OneOfEachUnmisled(cfg: Config, q: nat, es: seq<Event>)
    requires WordSized(cfg, q) && !cfg.wrap && !cfg.swapped
    ensures NobodyMisled(cfg, 1, 1, es)
  {
    forall i | 0 <= i < |es| ensures NotMisled(cfg, Run(cfg, Init(cfg, 1, 1), es[..i]), es[i]) {
      RunSafe(cfg, 1, 1, es[..i]);
      HeadStandsInRun(cfg, 1, es[..i]);
      hide Run;
      SingleProducerNotMisled(cfg, q, Run(cfg, Init(cfg, 1, 1), es[..i]), es[i]);
    }
  }

  /**
   The program's ring as it is, on 32-bit words and without any assumption on the run: all runs hand out a prefix
   of what was put in exactly when there is one producer and one consumer.
   */
  lemma WordsSafeExactlyWhen(cfg: Config, q: nat, producers: nat, consumers: nat)
    requires WordSized(cfg, q) && cfg.wrap && !cfg.swapped && producers >= 1 && consumers >= 1
    ensures (forall es :: var s := Run(cfg, Init(cfg, producers, consumers), es); s.deq <= s.enq)
       <==> producers == 1 && consumers == 1
  {
    SizeFits(cfg, q);
    if consumers >= 2 {
      RaceRun(cfg, producers, consumers, 1, 2);
      assert !(Run(cfg, Init(cfg, producers, consumers), RaceSchedule(1, 2)).deq
            <= Run(cfg, Init(cfg, producers, consumers), RaceSchedule(1, 2)).enq);
    } else if producers >= 2 {
      LapLosesItem(cfg, q, producers, consumers, 1, 2, 3);
    } else {
      var unbounded := cfg.(wrap := false);
      forall es ensures var s := Run(cfg, Init(cfg, producers, consumers), es); s.deq <= s.enq {
        OneOfEachUnmisled(unbounded, q, es);
        WrappedDequeuedIsPrefix(unbounded, q, 1, 1, es);
      }
    }
  }
}
