/** Two consumers on one ring: a run in which an item is handed out that was never put in. */
module RingRace {
  import opened Bytes
  import opened Ring
  import opened RingSafety

  lemma {:induction false} RunConcat(cfg: Config, s: State, a: seq<Event>, b: seq<Event>)
    requires Sized(cfg, s)
    ensures Run(cfg, s, a + b) == Run(cfg, Run(cfg, s, a), b)
  {
    if b == [] {
      assert a + b == a;
    } else {
      assert (a + b)[..|a + b| - 1] == a + b[..|b| - 1];
      RunConcat(cfg, s, a, b[..|b| - 1]);
    }
  }

  lemma RunOne(cfg: Config, s: State, e: Event)
    requires Sized(cfg, s)
    ensures Run(cfg, s, [e]) == Step(cfg, s, e)
  {
    assert [e][..0] == [];
  }

  /** A schedule built from two. */
  lemma Then(cfg: Config, s: State, a: seq<Event>, e: Event)
    requires Sized(cfg, s)
    ensures Run(cfg, s, a + [e]) == Step(cfg, Run(cfg, s, a), e)
  {
    RunConcat(cfg, s, a, [e]);
    RunOne(cfg, Run(cfg, s, a), e);
  }

  lemma ThreeSteps(cfg: Config, s: State, a: Event, b: Event, c: Event)
    requires Sized(cfg, s)
    ensures Run(cfg, s, [a, b, c]) == Step(cfg, Step(cfg, Step(cfg, s, a), b), c)
  {
    hide Step;
    RunOne(cfg, s, a);
    Then(cfg, s, [a], b);
    Then(cfg, s, [a] + [b], c);
    assert [a, b, c] == [a] + [b] + [c];
  }

  /** The events of a call that nobody disturbs: the loads, the CAS, and the rest. */
  ghost function EnqueueAlone(p: nat, x: Item): seq<Event> {
    [Invoke(p, x), Produce(p), Produce(p)] + [Produce(p)] + [Produce(p), Produce(p), Produce(p)]
  }

  ghost function DequeueAlone(c: nat): seq<Event> {
    [Request(c), Consume(c), Consume(c)] + [Consume(c)] + [Consume(c), Consume(c), Consume(c)]
  }

  lemma ThreeParts(cfg: Config, s: State, a: seq<Event>, e: Event, b: seq<Event>)
    requires Sized(cfg, s)
    ensures Run(cfg, s, a + [e] + b) == Run(cfg, Step(cfg, Run(cfg, s, a), e), b)
  {
    hide Step, Run;
    Then(cfg, s, a, e);
    RunConcat(cfg, s, a + [e], b);
  }

  lemma LoadsAlone(cfg: Config, s: State, p: nat, x: Item)
    requires Sized(cfg, s) && p < |s.prods| && s.prods[p].PIdle?
    ensures var t := Run(cfg, s, [Invoke(p, x), Produce(p), Produce(p)]);
      t == PutP(s, p, PBoth(x, s.prodHead, s.consTail, Norm(cfg, s.prodHead - s.consTail) == cfg.size - 1))
  {
    hide Norm, Run;
    ThreeSteps(cfg, s, Invoke(p, x), Produce(p), Produce(p));
    var s1 := Step(cfg, s, Invoke(p, x));
    assert s1 == PutP(s, p, PStart(x));
    assert Step(cfg, s1, Produce(p)) == PutP(s, p, PHead(x, s.prodHead));
  }

  lemma PublishesAlone(cfg: Config, s: State, p: nat, x: Item, h: int)
    requires Sized(cfg, s) && p < |s.prods| && s.prods[p] == PReserved(x, h) && s.prodTail == h
    ensures Run(cfg, s, [Produce(p), Produce(p), Produce(p)]) ==
            PutP(s, p, PIdle(0)).(slots := s.slots[h % cfg.size := x], prodTail := Norm(cfg, h + 1))
  {
    hide Norm, Run;
    ThreeSteps(cfg, s, Produce(p), Produce(p), Produce(p));
    var s1 := Step(cfg, s, Produce(p));
    assert s1 == PutP(s, p, PWritten(x, h)).(slots := s.slots[h % cfg.size := x]);
    assert Step(cfg, s1, Produce(p)) == PutP(s1, p, PTurn(x, h));
  }

  /** Alone, `enqueue` whose guard finds a free slot appends the item and returns 0. */
  lemma SoloEnqueue(cfg: Config, s: State, p: nat, x: Item)
    requires Sized(cfg, s) && p < |s.prods| && s.prods[p].PIdle? && s.prodTail == s.prodHead
    requires Norm(cfg, s.consTail - s.prodHead + (cfg.size - 1)) != 0
    ensures Run(cfg, s, EnqueueAlone(p, x)) ==
            PutP(s, p, PIdle(0)).(prodHead := Norm(cfg, s.prodHead + 1), prodTail := Norm(cfg, s.prodHead + 1),
                                  slots := s.slots[s.prodHead % cfg.size := x], enq := s.enq + [x],
                                    pOwner := s.pOwner + [p])
  {
    hide Norm, Run;
    var h := s.prodHead;
    LoadsAlone(cfg, s, p, x);
    var s3 := Run(cfg, s, [Invoke(p, x), Produce(p), Produce(p)]);
    var s4 := Step(cfg, s3, Produce(p));
    assert s4 == PutP(s, p, PReserved(x, h)).(prodHead := Norm(cfg, h + 1), enq := s.enq + [x],
      pOwner := s.pOwner + [p]);
    PublishesAlone(cfg, s4, p, x, h);
    ThreeParts(cfg, s, [Invoke(p, x), Produce(p), Produce(p)], Produce(p), [Produce(p), Produce(p), Produce(p)]);
  }

  lemma ConsumerLoadsAlone(cfg: Config, s: State, c: nat)
    requires Sized(cfg, s) && !cfg.swapped && c < |s.cons| && s.cons[c].CIdle?
    ensures Run(cfg, s, [Request(c), Consume(c), Consume(c)]) ==
            PutC(s, c, CBoth(s.prodTail, s.consHead, s.prodTail == s.consHead))
  {
    hide Norm, Run;
    ThreeSteps(cfg, s, Request(c), Consume(c), Consume(c));
    var s1 := Step(cfg, s, Request(c));
    assert s1 == PutC(s, c, CStart);
    assert Step(cfg, s1, Consume(c)) == PutC(s, c, CFirst(s.prodTail, s.prodTail == s.consHead));
  }

  lemma ReleasesAlone(cfg: Config, s: State, c: nat, h: int)
    requires Sized(cfg, s) && c < |s.cons| && s.cons[c] == CReserved(h) && s.consTail == h
    ensures Run(cfg, s, [Consume(c), Consume(c), Consume(c)]) ==
            PutC(s, c, CIdle(0)).(consTail := Norm(cfg, h + 1), deq := s.deq + [s.slots[h % cfg.size]])
  {
    hide Norm, Run;
    ThreeSteps(cfg, s, Consume(c), Consume(c), Consume(c));
    var x := s.slots[h % cfg.size];
    var s1 := Step(cfg, s, Consume(c));
    assert s1 == PutC(s, c, CRead(h, x));
    assert Step(cfg, s1, Consume(c)) == PutC(s1, c, CTurn(h, x));
  }

  /** Alone, `dequeue` whose guard finds a busy slot hands out the oldest one and returns 0. */
  lemma SoloDequeue(cfg: Config, s: State, c: nat)
    requires Sized(cfg, s) && !cfg.swapped && c < |s.cons| && s.cons[c].CIdle? && s.consTail == s.consHead
    requires Norm(cfg, s.prodTail - s.consHead) != 0
    ensures Run(cfg, s, DequeueAlone(c)) ==
            PutC(s, c, CIdle(0)).(consHead := Norm(cfg, s.consHead + 1), consTail := Norm(cfg, s.consHead + 1),
                                  deq := s.deq + [s.slots[s.consHead % cfg.size]], cOwner := s.cOwner + [c])
  {
    hide Norm, Run;
    var h := s.consHead;
    ConsumerLoadsAlone(cfg, s, c);
    var s3 := Run(cfg, s, [Request(c), Consume(c), Consume(c)]);
    var s4 := Step(cfg, s3, Consume(c));
    assert s4 == PutC(s, c, CReserved(h)).(consHead := Norm(cfg, h + 1), cOwner := s.cOwner + [c]);
    ReleasesAlone(cfg, s4, c, h);
    ThreeParts(cfg, s, [Request(c), Consume(c), Consume(c)], Consume(c), [Consume(c), Consume(c), Consume(c)]);
  }

  /** Consumer 0 loads prod.tail. */
  ghost function LoadSchedule(x: Item): seq<Event> {
    EnqueueAlone(0, x) + [Request(0)] + [Consume(0)]
  }

  /** Consumer 1 empties the ring twice over. */
  ghost function OvertakeSchedule(y: Item): seq<Event> {
    DequeueAlone(1) + EnqueueAlone(0, y) + DequeueAlone(1)
  }

  lemma LoadRun(cfg: Config, producers: nat, consumers: nat, x: Item)
    requires 2 <= cfg.size < TWO32 && !cfg.swapped && producers >= 1 && consumers >= 2
    ensures var s := Run(cfg, Init(cfg, producers, consumers), LoadSchedule(x));
      && s.enq == [x] && s.deq == [] && s.slots[0] == x && s.cons[0] == CFirst(1, false) && s.cons[1].CIdle?
        && s.prods[0].PIdle?
      && s.prodHead == s.prodTail == 1 && s.consHead == s.consTail == 0
  {
    var init, a := Init(cfg, producers, consumers), EnqueueAlone(0, x);
    SoloEnqueue(cfg, init, 0, x);
    hide Run, EnqueueAlone;
    Then(cfg, init, a, Request(0));
    Then(cfg, init, a + [Request(0)], Consume(0));
    assert Norm(cfg, 0 + 1) == 1;
  }

  lemma OvertakeRun(cfg: Config, s: State, y: Item)
    requires Sized(cfg, s) && 2 <= cfg.size < TWO32 && !cfg.swapped && |s.prods| >= 1 && |s.cons| >= 2
    requires s.cons[1].CIdle? && s.prods[0].PIdle? && s.prodHead == s.prodTail == 1 && s.consHead == s.consTail == 0
    ensures var t := Run(cfg, s, OvertakeSchedule(y));
      && t.enq == s.enq + [y] && t.deq == s.deq + [s.slots[0], y] && t.cons[0] == s.cons[0]
      && t.prodHead == t.prodTail == t.consHead == t.consTail == 2
  {
    hide Run, DequeueAlone, EnqueueAlone;
    SoloDequeue(cfg, s, 1);
    var t := Run(cfg, s, DequeueAlone(1));
    SoloEnqueue(cfg, t, 0, y);
    var u := Run(cfg, t, EnqueueAlone(0, y));
    SoloDequeue(cfg, u, 1);
    RunConcat(cfg, s, DequeueAlone(1), EnqueueAlone(0, y));
    RunConcat(cfg, s, DequeueAlone(1) + EnqueueAlone(0, y), DequeueAlone(1));
  }

  /** Then consumer 0 goes on, and three items have left a ring that only two entered. */
  ghost function RaceSchedule(x: Item, y: Item): seq<Event> {
    LoadSchedule(x) + OvertakeSchedule(y) + [Consume(0)] + [Consume(0)] + [Consume(0), Consume(0), Consume(0)]
  }

  lemma RaceRun(cfg: Config, producers: nat, consumers: nat, x: Item, y: Item)
    requires 2 <= cfg.size < TWO32 && !cfg.swapped && producers >= 1 && consumers >= 2
    ensures var s := Run(cfg, Init(cfg, producers, consumers), RaceSchedule(x, y));
      |s.deq| == 3 && s.enq == [x, y] && s.deq[..2] == [x, y]
  {
    var init, a := Init(cfg, producers, consumers), LoadSchedule(x) + OvertakeSchedule(y);
    hide Run, LoadSchedule, OvertakeSchedule;
    LoadRun(cfg, producers, consumers, x);
    OvertakeRun(cfg, Run(cfg, init, LoadSchedule(x)), y);
    RunConcat(cfg, init, LoadSchedule(x), OvertakeSchedule(y));
    var s := Run(cfg, init, a);
    Then(cfg, init, a, Consume(0));
    var t := Step(cfg, s, Consume(0));
    assert t == PutC(s, 0, CBoth(1, 2, false));
    Then(cfg, init, a + [Consume(0)], Consume(0));
    var u := Step(cfg, t, Consume(0));
    assert u.cons[0] == CReserved(2) && u.deq == s.deq && u.enq == s.enq && u.consTail == 2;
    ReleasesAlone(cfg, u, 0, 2);
    RunConcat(cfg, init, a + [Consume(0)] + [Consume(0)], [Consume(0), Consume(0), Consume(0)]);
  }

  /**
   All runs hand out a prefix of what was put in exactly when there is at most one consumer, or the loads are
   swapped.
   */
  lemma SafeExactlyWhen(cfg: Config, producers: nat, consumers: nat)
    requires 2 <= cfg.size < TWO32 && !cfg.wrap && producers >= 1
    ensures (forall es :: var s := Run(cfg, Init(cfg, producers, consumers), es); s.deq <= s.enq)
       <==> cfg.swapped || consumers <= 1
  {
    if cfg.swapped || consumers <= 1 {
      forall es ensures var s := Run(cfg, Init(cfg, producers, consumers), es); s.deq <= s.enq {
        RunSafe(cfg, producers, consumers, es);
      }
    } else {
      RaceRun(cfg, producers, consumers, 1, 2);
      assert !(Run(cfg, Init(cfg, producers, consumers), RaceSchedule(1, 2)).deq
            <= Run(cfg, Init(cfg, producers, consumers), RaceSchedule(1, 2)).enq);
    }
  }
}
