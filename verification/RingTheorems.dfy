/** What callers of the ring rely on: order, refusals, capacity. */
module RingTheorems {
  import opened Bytes
  import opened Ring
  import opened RingSafety

  /** Nothing is lost, duplicated, reordered, or handed out before it was put in. */
  lemma DequeuedIsPrefix(cfg: Config, producers: nat, consumers: nat, es: seq<Event>)
    requires cfg.size >= 2 && !cfg.wrap && (cfg.swapped || consumers <= 1)
    ensures var s := Run(cfg, Init(cfg, producers, consumers), es);
      s.deq <= s.enq && Ordered(cfg, s)
  {
    RunSafe(cfg, producers, consumers, es);
  }

  /** A reserved counter is in the hands of exactly one thread. */
  lemma ReservedByOne(cfg: Config, producers: nat, consumers: nat, es: seq<Event>, k: int)
    requires cfg.size >= 2 && !cfg.wrap && (cfg.swapped || consumers <= 1)
    ensures var s := Run(cfg, Init(cfg, producers, consumers), es);
      && (s.prodTail <= k < s.prodHead <==> exists p :: 0 <= p < |s.prods| && HasP(s.prods[p], k))
      && (forall p, q :: 0 <= p < |s.prods| && 0 <= q < |s.prods| && HasP(s.prods[p], k) && HasP(s.prods[q], k) ==>
        p == q)
      && (s.consTail <= k < s.consHead <==> exists c :: 0 <= c < |s.cons| && HasC(s.cons[c], k))
      && (forall c, d :: 0 <= c < |s.cons| && 0 <= d < |s.cons| && HasC(s.cons[c], k) && HasC(s.cons[d], k) ==> c == d)
  {
    RunSafe(cfg, producers, consumers, es);
    var s := Run(cfg, Init(cfg, producers, consumers), es);
    forall p | 0 <= p < |s.prods| && HasP(s.prods[p], k) ensures s.prodTail <= k < s.prodHead && s.pOwner[k] == p {
      assert ProducerOk(cfg, s, p);
    }
    forall c | 0 <= c < |s.cons| && HasC(s.cons[c], k) ensures s.consTail <= k < s.consHead && s.cOwner[k] == c {
      assert ConsumerOk(cfg, s, c);
    }
    if s.prodTail <= k < s.prodHead { assert HasP(s.prods[s.pOwner[k]], k); }
    if s.consTail <= k < s.consHead { assert HasC(s.cons[s.cOwner[k]], k); }
  }

  /** No step overwrites a published slot that has not been read and released. */
  lemma UnreadSlotsStay(cfg: Config, producers: nat, consumers: nat, es: seq<Event>, e: Event, k: int)
    requires cfg.size >= 2 && !cfg.wrap && (cfg.swapped || consumers <= 1)
    requires var s := Run(cfg, Init(cfg, producers, consumers), es); s.consTail <= k < s.prodTail
    ensures var s := Run(cfg, Init(cfg, producers, consumers), es);
      0 <= k < |s.enq| && s.slots[k % cfg.size] == s.enq[k] && Step(cfg, s, e).slots[k % cfg.size] == s.enq[k]
  {
    RunSafe(cfg, producers, consumers, es);
    var s := Run(cfg, Init(cfg, producers, consumers), es);
    if e.Produce? && e.p < |s.prods| && s.prods[e.p].PReserved? {
      assert ProducerOk(cfg, s, e.p);
      SlotsDiffer(cfg.size, k, s.prods[e.p].head);
    }
  }

  /** Items put in and not yet handed out. */
  ghost function Contents(cfg: Config, s: State): seq<Item>
    requires History(cfg, s)
  {
    s.enq[s.consTail..]
  }

  /** From queue `a` to queue `b`, with `out` and then `out'` handed out so far. */
  ghost predicate QueueStep(a: seq<Item>, b: seq<Item>, out: seq<Item>, out': seq<Item>) {
    || (b == a && out' == out)
    || (|b| > 0 && b == a + [b[|b| - 1]] && out' == out)
    || (|a| > 0 && b == a[1..] && out' == out + [a[0]])
  }

  /** The step is the successful CAS of a producer. */
  ghost predicate Reserves(s: State, t: State, e: Event) {
    e.Produce? && e.p < |s.prods| == |t.prods| && s.prods[e.p].PBoth? && t.prods[e.p].PReserved?
  }

  /** The step is the last one of a call of `dequeue` that returns an item. */
  ghost predicate HandsOut(s: State, t: State, e: Event) {
    e.Consume? && e.c < |s.cons| == |t.cons| && s.cons[e.c].CTurn? && t.cons[e.c] == CIdle(0)
  }

  /** Producers append the item they were called with, and consumers return the oldest; nothing else moves the queue. */
  ghost predicate Moves(cfg: Config, s: State, t: State, e: Event)
    requires History(cfg, s) && History(cfg, t)
  {
    if Reserves(s, t, e) then Contents(cfg, t) == Contents(cfg, s) + [s.prods[e.p].item] && t.deq == s.deq
    else if HandsOut(s, t, e) then
      Contents(cfg, s) == [s.cons[e.c].item] + Contents(cfg, t) && t.deq == s.deq + [s.cons[e.c].item]
    else Contents(cfg, t) == Contents(cfg, s) && t.deq == s.deq
  }

  /**
   The ring is a queue of at most `mask` items: each step leaves it, appends the item of the producer whose CAS
   succeeds, or hands out the oldest item to the consumer that returns.
   */
  lemma RingIsQueue(cfg: Config, producers: nat, consumers: nat, es: seq<Event>, e: Event)
    requires cfg.size >= 2 && !cfg.wrap && (cfg.swapped || consumers <= 1)
    ensures var s := Run(cfg, Init(cfg, producers, consumers), es);
      var t := Step(cfg, s, e);
      && History(cfg, s) && History(cfg, t) && |Contents(cfg, s)| <= cfg.size - 1
      && Moves(cfg, s, t, e) && QueueStep(Contents(cfg, s), Contents(cfg, t), s.deq, t.deq)
  {
    RunSafe(cfg, producers, consumers, es);
    var s := Run(cfg, Init(cfg, producers, consumers), es);
    StepKeeps(cfg, s, e);
    StepMoves(cfg, s, e);
    MovesIsStep(cfg, s, Step(cfg, s, e), e);
  }

  lemma MovesIsStep(cfg: Config, s: State, t: State, e: Event)
    requires History(cfg, s) && History(cfg, t) && Moves(cfg, s, t, e)
    ensures QueueStep(Contents(cfg, s), Contents(cfg, t), s.deq, t.deq)
  {
    hide History, Contents, Reserves, HandsOut;
  }

  lemma StepMoves(cfg: Config, s: State, e: Event)
    requires SafeConfig(cfg, s) && Inv(cfg, s) && Inv(cfg, Step(cfg, s, e))
    ensures Moves(cfg, s, Step(cfg, s, e), e)
  {
    if e.Consume? && e.c < |s.cons| && s.cons[e.c].CTurn? {
      assert ConsumerOk(cfg, s, e.c);
    }
    EndsMove(cfg, s, e);
    hide Step, Owned;
    var t := Step(cfg, s, e);
    if Reserves(s, t, e) {
      assert Contents(cfg, t) == Contents(cfg, s) + [s.prods[e.p].item];
    }
  }

  /** What a step does to the ends of the queue. */
  lemma EndsMove(cfg: Config, s: State, e: Event)
    requires !cfg.wrap && Sized(cfg, s)
    ensures var t := Step(cfg, s, e);
      if Reserves(s, t, e) then t.enq == s.enq + [s.prods[e.p].item] && t.consTail == s.consTail && t.deq == s.deq
      else if HandsOut(s, t, e) then
        t.enq == s.enq && t.consTail == s.cons[e.c].head + 1 && t.deq == s.deq + [s.cons[e.c].item]
      else t.enq == s.enq && t.consTail == s.consTail && t.deq == s.deq
  {
  }

  /** A call under way carries the item it was invoked with, and its thread has not been idle since. */
  lemma {:induction false} CallItem(cfg: Config, producers: nat, consumers: nat, es: seq<Event>, p: nat)
    returns (i: nat)
    requires cfg.size >= 2 && p < producers
    requires !Run(cfg, Init(cfg, producers, consumers), es).prods[p].PIdle?
    ensures i < |es| && es[i] == Invoke(p, Run(cfg, Init(cfg, producers, consumers), es).prods[p].item)
    ensures Run(cfg, Init(cfg, producers, consumers), es[..i]).prods[p].PIdle?
    ensures forall j :: i < j <= |es| ==> !Run(cfg, Init(cfg, producers, consumers), es[..j]).prods[p].PIdle?
  {
    var init, last := Init(cfg, producers, consumers), |es| - 1;
    var before := Run(cfg, init, es[..last]);
    CallStays(cfg, before, es[last], p);
    assert es[..|es|] == es && Run(cfg, init, es) == Step(cfg, before, es[last]);
    hide Step, Init, Run;
    if before.prods[p].PIdle? {
      i := last;
    } else {
      i := CallItem(cfg, producers, consumers, es[..last], p);
      forall j | 0 <= j < |es| ensures es[..last][..j] == es[..j] {}
    }
  }

  lemma CallStays(cfg: Config, s: State, e: Event, p: nat)
    requires Sized(cfg, s) && p < |s.prods| && !Step(cfg, s, e).prods[p].PIdle?
    ensures if s.prods[p].PIdle? then e == Invoke(p, Step(cfg, s, e).prods[p].item)
            else Step(cfg, s, e).prods[p].item == s.prods[p].item
  {
  }

  // ---------- refusals ----------

  /** Producer `p`, before its guard in `s`, is about to load cons.tail in `moment`, and uses what it finds there. */
  ghost predicate LoadsTail(cfg: Config, moment: State, s: State, p: nat)
    requires p < |moment.prods| && p < |s.prods| && s.prods[p].PBoth?
  {
    var pc := s.prods[p];
    && moment.prods[p] == PHead(pc.item, pc.head) && pc.tail == moment.consTail
    && (pc.full <==> Norm(cfg, moment.prodHead - moment.consTail) == cfg.size - 1)
  }

  lemma ProducerMoves(cfg: Config, s: State, e: Event, p: nat)
    requires Sized(cfg, s) && p < |s.prods| && Step(cfg, s, e).prods[p].PBoth?
    ensures if e == Produce(p) then LoadsTail(cfg, s, Step(cfg, s, e), p) else Step(cfg, s, e).prods[p] == s.prods[p]
  {
  }

  lemma ConsumerMoves(cfg: Config, s: State, e: Event, c: nat)
    requires Sized(cfg, s) && c < |s.cons|
    ensures e != Consume(c) ==> Step(cfg, s, e).cons[c] == s.cons[c] || Step(cfg, s, e).cons[c].CStart?
    ensures var pc := Step(cfg, s, e).cons[c];
      && (e == Consume(c) && pc.CFirst? && !cfg.swapped ==>
            s.cons[c].CStart? && pc.value == s.prodTail && (pc.empty <==> s.prodTail == s.consHead))
      && (e == Consume(c) && pc.CBoth? && cfg.swapped ==>
            s.cons[c].CFirst? && pc.tail == s.prodTail && (pc.empty <==> s.prodTail == s.consHead))
      && (e == Consume(c) && pc.CBoth? && !cfg.swapped ==>
            s.cons[c].CFirst? && s.cons[c].value == pc.tail && s.cons[c].empty == pc.empty)
  {
  }

  lemma SamePlace(cfg: Config, moment: State, s: State, t: State, p: nat)
    requires p < |moment.prods| && p < |s.prods| == |t.prods| && s.prods[p] == t.prods[p] && s.prods[p].PBoth?
    requires LoadsTail(cfg, moment, s, p)
    ensures LoadsTail(cfg, moment, t, p)
  {
  }

  lemma Prefixes(es: seq<Event>, last: nat, i: nat)
    requires i <= last <= |es|
    ensures es[..last][..i] == es[..i] && forall j :: i <= j < last ==> es[..last][j] == es[j]
  {
  }

  /** The moment at which a producer before its guard loaded cons.tail, which was its last step. */
  lemma {:induction false} TailLoadedAt(cfg: Config, producers: nat, consumers: nat, es: seq<Event>, p: nat)
    returns (i: nat)
    requires cfg.size >= 2 && p < producers
    requires Run(cfg, Init(cfg, producers, consumers), es).prods[p].PBoth?
    ensures i < |es| && es[i] == Produce(p) && forall j :: i < j < |es| ==> es[j] != Produce(p)
    ensures LoadsTail(cfg, Run(cfg, Init(cfg, producers, consumers), es[..i]),
        Run(cfg, Init(cfg, producers, consumers), es), p)
  {
    var last := |es| - 1;
    var init := Init(cfg, producers, consumers);
    var before := Run(cfg, init, es[..last]);
    assert Run(cfg, init, es) == Step(cfg, before, es[last]);
    hide Step, Init, Run, LoadsTail;
    ProducerMoves(cfg, before, es[last], p);
    if es[last] == Produce(p) {
      i := last;
    } else {
      i := TailLoadedAt(cfg, producers, consumers, es[..last], p);
      Prefixes(es, last, i);
      SamePlace(cfg, Run(cfg, init, es[..i]), before, Run(cfg, init, es), p);
    }
  }

  /** `enqueue` returns -1 only if at the load of cons.tail that its guard uses all `mask` usable slots were taken. */
  lemma RefusedOnlyWhenFull(cfg: Config, producers: nat, consumers: nat, es: seq<Event>, p: nat) returns (i: nat)
    requires cfg.size >= 2 && !cfg.wrap && (cfg.swapped || consumers <= 1) && p < producers
    requires var s := Run(cfg, Init(cfg, producers, consumers), es);
      s.prods[p].PBoth? && ProducerStep(cfg, s, p).prods[p] == PIdle(-1)
    ensures i < |es| && es[i] == Produce(p) && forall j :: i < j < |es| ==> es[j] != Produce(p)
    ensures var moment := Run(cfg, Init(cfg, producers, consumers), es[..i]);
      p < |moment.prods| && moment.prods[p].PHead? && moment.prodHead - moment.consTail == cfg.size - 1
  {
    RunSafe(cfg, producers, consumers, es);
    assert ProducerOk(cfg, Run(cfg, Init(cfg, producers, consumers), es), p);
    hide Run, Init, History, Owned;
    i := TailLoadedAt(cfg, producers, consumers, es, p);
  }

  /** Between its loads, or before its guard. */
  ghost predicate Loading(pc: Consumer) {
    pc.CFirst? || pc.CBoth?
  }

  /** About to load prod.tail. */
  ghost predicate BeforeTail(cfg: Config, pc: Consumer) {
    if cfg.swapped then pc.CFirst? else pc.CStart?
  }

  /** The moment at which a consumer before its guard loaded prod.tail; since then it has done no more than load. */
  lemma {:induction false} ProdTailLoadedAt(cfg: Config, producers: nat, consumers: nat, es: seq<Event>, c: nat)
    returns (i: nat)
    requires cfg.size >= 2 && c < consumers
    requires var pc := Run(cfg, Init(cfg, producers, consumers), es).cons[c];
      pc.CBoth? || (pc.CFirst? && !cfg.swapped)
    ensures i < |es| && es[i] == Consume(c)
    ensures BeforeTail(cfg, Run(cfg, Init(cfg, producers, consumers), es[..i]).cons[c])
    ensures forall j :: i < j <= |es| ==> Loading(Run(cfg, Init(cfg, producers, consumers), es[..j]).cons[c])
    ensures var pc := Run(cfg, Init(cfg, producers, consumers), es).cons[c];
      var moment := Run(cfg, Init(cfg, producers, consumers), es[..i]);
      && (pc.empty <==> moment.prodTail == moment.consHead)
      && (if pc.CBoth? then pc.tail else pc.value) == moment.prodTail
  {
    var last := |es| - 1;
    var init := Init(cfg, producers, consumers);
    var before := Run(cfg, init, es[..last]);
    assert Run(cfg, init, es) == Step(cfg, before, es[last]);
    hide Step, Init, Run;
    ConsumerMoves(cfg, before, es[last], c);
    assert es[..|es|] == es;
    if es[last] == Consume(c) && (cfg.swapped || Run(cfg, init, es).cons[c].CFirst?) {
      i := last;
    } else {
      i := ProdTailLoadedAt(cfg, producers, consumers, es[..last], c);
      forall j | 0 <= j < |es| ensures es[..last][..j] == es[..j] {}
    }
  }

  /**
   With one consumer `dequeue` returns -1 exactly when at the load of prod.tail that its guard uses nothing
   published was unread.
   */
  lemma RefusedExactlyWhenEmpty(cfg: Config, producers: nat, consumers: nat, es: seq<Event>, c: nat) returns (i: nat)
    requires cfg.size >= 2 && !cfg.wrap && (cfg.swapped || consumers <= 1) && c < consumers
    requires Run(cfg, Init(cfg, producers, consumers), es).cons[c].CBoth?
    ensures i < |es| && es[i] == Consume(c)
    ensures BeforeTail(cfg, Run(cfg, Init(cfg, producers, consumers), es[..i]).cons[c])
    ensures forall j :: i < j <= |es| ==> Loading(Run(cfg, Init(cfg, producers, consumers), es[..j]).cons[c])
    ensures var s := Run(cfg, Init(cfg, producers, consumers), es);
      var moment := Run(cfg, Init(cfg, producers, consumers), es[..i]);
      && (ConsumerStep(cfg, s, c).cons[c] == CIdle(-1) ==> moment.prodTail == moment.consHead)
      && (!cfg.swapped && moment.prodTail == moment.consHead ==> ConsumerStep(cfg, s, c).cons[c] == CIdle(-1))
  {
    RunSafe(cfg, producers, consumers, es);
    assert ConsumerOk(cfg, Run(cfg, Init(cfg, producers, consumers), es), c);
    hide Run, Init, History, Owned;
    i := ProdTailLoadedAt(cfg, producers, consumers, es, c);
  }

  // ---------- capacity ----------

  /** A fresh ring of more than `nem` slots refuses no enqueue before `nem` were accepted. */
  lemma FreshRingAccepts(cfg: Config, producers: nat, consumers: nat, es: seq<Event>, p: nat, nem: nat)
    requires cfg.size >= 2 && !cfg.wrap && (cfg.swapped || consumers <= 1) && p < producers && nem < cfg.size
    requires var s := Run(cfg, Init(cfg, producers, consumers), es); s.prods[p].PBoth? && |s.enq| < nem
    ensures var s := Run(cfg, Init(cfg, producers, consumers), es);
      ProducerStep(cfg, s, p).prods[p] != PIdle(-1)
  {
    RunSafe(cfg, producers, consumers, es);
    assert ProducerOk(cfg, Run(cfg, Init(cfg, producers, consumers), es), p);
  }

  /** `align_pow2`: the least power of two above `num`, but at least 2. */
  method AlignPow2(num: nat) returns (size: nat, ghost k: nat)
    requires num < 0x2000_0000
    ensures 1 <= k <= 29 && size == Pow2(k) && num < size
    ensures forall j :: 1 <= j < k ==> Pow2(j) <= num
  {
    var offset: nat := 1;
    var mark1 := 2;
    assert Pow2(29) == 0x2000_0000 by { Pow2Of29(); }
    while num >= mark1
      invariant 1 <= offset <= 29 && mark1 == Pow2(offset)
      invariant forall j :: 1 <= j < offset ==> Pow2(j) <= num
      decreases 29 - offset
    {
      if offset == 29 { assert false; }
      offset := offset + 1;
      mark1 := 2 * mark1;
    }
    size, k := mark1, offset;
  }

  lemma Pow2Of29()
    ensures Pow2(29) == 0x2000_0000
  {
    assert Pow2(5) == 32;
    assert Pow2(10) == 1024;
    assert Pow2(15) == 32768;
    assert Pow2(20) == 1048576;
    assert Pow2(25) == 33554432;
  }

  /** `create`: what a fresh ring for `nem` items looks like. */
  method Create(nem: nat) returns (cfg: Config, ghost q: nat)
    requires nem < 0x2000_0000
    ensures cfg.wrap && !cfg.swapped && nem < cfg.size && cfg.size >= 2
    ensures q >= 2 && cfg.size * q == TWO32
  {
    ghost var k;
    var size;
    size, k := AlignPow2(nem);
    Pow2Monotone(1, k);
    Pow2Monotone(1, 32 - k);
    Pow2Add(k, 32 - k);
    Pow2Of32();
    cfg, q := Config(size, true, false), Pow2(32 - k);
  }

  lemma Pow2Of32()
    ensures Pow2(32) == TWO32
  {
    Pow2Of29();
    assert Pow2(30) == 2 * Pow2(29);
  }
}
