/** What callers of the program's ring, with its 32-bit counters, can rely on: refusals, capacity and progress. */
module RingWords {
  import opened Bytes
  import opened Ring
  import opened RingSafety
  import opened RingTheorems
  import opened RingProgress
  import opened RingWrap
  import opened RingLap

  function OnWords(cfg: Config): Config {
    cfg.(wrap := true)
  }

  /** The next step of producer `p` is to refuse its item. */
  ghost predicate Refuses(cfg: Config, s: State, p: nat)
    requires Sized(cfg, s)
  {
    p < |s.prods| && s.prods[p].PBoth? && ProducerStep(cfg, s, p).prods[p] == PIdle(-1)
  }

  /** An unmisled run on words is the unbounded one seen in words. */
  lemma RunInWords(cfg: Config, q: nat, producers: nat, consumers: nat, es: seq<Event>)
    requires WordSized(cfg, q) && !cfg.wrap && (cfg.swapped || consumers <= 1)
        && NobodyMisled(cfg, producers, consumers, es)
    ensures Run(OnWords(cfg), Init(cfg, producers, consumers), es)
        == Words(Run(cfg, Init(cfg, producers, consumers), es))
    ensures var s := Run(cfg, Init(cfg, producers, consumers), es); Inv(cfg, s) && SafeConfig(cfg, s)
  {
    RunAgrees(cfg, q, producers, consumers, es);
    assert es[..|es|] == es;
    RunSafe(cfg, producers, consumers, es);
  }

  // ---------- refusals ----------

  lemma RefusesWhenFull(cfg: Config, s: State, p: nat)
    requires SafeConfig(cfg, s) && Inv(cfg, s) && NotMisled(cfg, s, Produce(p)) && Refuses(OnWords(cfg), Words(s), p)
    ensures s.prods[p].full && Words(s).prods[p].PBoth? && Words(s).prods[p].full
  {
    assert ProducerOk(cfg, s, p);
    GuardOutcome(s.prods[p].tail, s.prods[p].head, cfg.size - 1);
  }

  /**
   `enqueue` on words, in a run in which nobody is misled, the refused call included, returns -1 only if at the
   load of cons.tail that its guard uses all `mask` usable slots were taken.
   */
  lemma RefusedOnlyWhenFullOnWords(cfg: Config, q: nat, producers: nat, consumers: nat, es: seq<Event>, p: nat)
    returns (i: nat)
    requires WordSized(cfg, q) && !cfg.wrap && (cfg.swapped || consumers <= 1) && p < producers
    requires NobodyMisled(cfg, producers, consumers, es + [Produce(p)])
    requires Refuses(OnWords(cfg), Run(OnWords(cfg), Init(cfg, producers, consumers), es), p)
    ensures i < |es| && es[i] == Produce(p) && forall j :: i < j < |es| ==> es[j] != Produce(p)
    ensures var moment := Run(OnWords(cfg), Init(cfg, producers, consumers), es[..i]);
      p < |moment.prods| && moment.prods[p].PHead?
        && Norm(OnWords(cfg), moment.prodHead - moment.consTail) == cfg.size - 1
  {
    FullOnWords(cfg, q, producers, consumers, es, p);
    assert Init(OnWords(cfg), producers, consumers) == Init(cfg, producers, consumers);
    hide Run, Init, NobodyMisled, WordSized, Refuses;
    i := TailLoadedAt(OnWords(cfg), producers, consumers, es, p);
  }

  lemma FullOnWords(cfg: Config, q: nat, producers: nat, consumers: nat, es: seq<Event>, p: nat)
    requires WordSized(cfg, q) && !cfg.wrap && (cfg.swapped || consumers <= 1)
    requires NobodyMisled(cfg, producers, consumers, es + [Produce(p)])
    requires Refuses(OnWords(cfg), Run(OnWords(cfg), Init(cfg, producers, consumers), es), p)
    ensures var pc := Run(OnWords(cfg), Init(cfg, producers, consumers), es).prods[p]; pc.PBoth? && pc.full
  {
    assert (es + [Produce(p)])[..|es|] == es;
    LastStep(cfg, producers, consumers, es + [Produce(p)]);
    RunInWords(cfg, q, producers, consumers, es);
    hide Run, Init, Words, NobodyMisled, NotMisled, Inv, Refuses;
    RefusesWhenFull(cfg, Run(cfg, Init(cfg, producers, consumers), es), p);
  }

  /**
   With one consumer `dequeue` on words, in such a run, returns -1 exactly when nothing published was unread at its
   load of prod.tail.
   */
  lemma RefusedExactlyWhenEmptyOnWords(cfg: Config, q: nat, producers: nat, es: seq<Event>) returns (i: nat)
    requires WordSized(cfg, q) && !cfg.wrap && !cfg.swapped && NobodyMisled(cfg, producers, 1, es)
    requires Run(OnWords(cfg), Init(cfg, producers, 1), es).cons[0].CBoth?
    ensures i < |es| && es[i] == Consume(0) && Run(OnWords(cfg), Init(cfg, producers, 1), es[..i]).cons[0].CStart?
    ensures forall j :: i < j <= |es| ==> Loading(Run(OnWords(cfg), Init(cfg, producers, 1), es[..j]).cons[0])
    ensures var s := Run(OnWords(cfg), Init(cfg, producers, 1), es);
      var moment := Run(OnWords(cfg), Init(cfg, producers, 1), es[..i]);
      ConsumerStep(OnWords(cfg), s, 0).cons[0] == CIdle(-1) <==> moment.prodTail == moment.consHead
  {
    var init := Init(cfg, producers, 1);
    RunInWords(cfg, q, producers, 1, es);
    EmptyInWords(cfg, q, Run(cfg, init, es));
    assert Init(OnWords(cfg), producers, 1) == init;
    i := ProdTailLoadedAt(OnWords(cfg), producers, 1, es, 0);
  }

  lemma EmptyInWords(cfg: Config, q: nat, s: State)
    requires WordSized(cfg, q) && SafeConfig(cfg, s) && !cfg.swapped && Inv(cfg, s) && |s.cons| == 1 && s.cons[0].CBoth?
    ensures ConsumerStep(OnWords(cfg), Words(s), 0).cons[0] == CIdle(-1) <==> s.cons[0].empty
  {
    assert ConsumerOk(cfg, s, 0);
    SingleConsumerNotLapped(cfg, q, s, 0);
    GuardOutcome(s.cons[0].tail, s.cons[0].head, 0);
  }

  /**
   The program's ring as it is, with its one consumer: every refusal in every run comes of a ring that was full at
   the load of cons.tail exactly when there is one producer.
   */
  lemma RefusalsRightExactlyWhen(cfg: Config, q: nat, producers: nat)
    requires WordSized(cfg, q) && cfg.wrap && !cfg.swapped && producers >= 1
    ensures (forall es, p: nat :: Refuses(cfg, Run(cfg, Init(cfg, producers, 1), es), p) ==>
        Run(cfg, Init(cfg, producers, 1), es).prods[p].full)
       <==> producers == 1
  {
    SizeFits(cfg, q);
    var init := Init(cfg, producers, 1);
    if producers == 1 {
      var unbounded := cfg.(wrap := false);
      forall es, p: nat | Refuses(cfg, Run(cfg, init, es), p) ensures Run(cfg, init, es).prods[p].full {
        OneOfEachUnmisled(unbounded, q, es);
        RunInWords(unbounded, q, 1, 1, es);
        HeadStandsInRun(unbounded, 1, es);
        SingleProducerNotMisled(unbounded, q, Run(unbounded, init, es), Produce(p));
        RefusesWhenFull(unbounded, Run(unbounded, init, es), p);
      }
    } else {
      var es := AboutToRefuse(cfg.size, 1, 2);
      AboutToRefuseRun(cfg, producers, 1, 1, 2);
      assert Refuses(cfg, Run(cfg, init, es), 0) && !Run(cfg, init, es).prods[0].full;
    }
  }

  // ---------- capacity ----------

  lemma {:induction false} FewerBefore(cfg: Config, s: State, es: seq<Event>, i: nat)
    requires Sized(cfg, s) && i <= |es|
    ensures |Run(cfg, s, es[..i]).enq| <= |Run(cfg, s, es).enq|
  {
    if i < |es| {
      assert es[..|es| - 1][..i] == es[..i];
      FewerBefore(cfg, s, es[..|es| - 1], i);
      EndsGrow(cfg, Run(cfg, s, es[..|es| - 1]), es[|es| - 1]);
    } else {
      assert es[..i] == es;
    }
  }

  lemma EndsGrow(cfg: Config, s: State, e: Event)
    requires Sized(cfg, s)
    ensures |s.enq| <= |Step(cfg, s, e).enq|
  {
  }

  /** As long as fewer items were accepted than there are slots nobody can be misled. */
  lemma FewAccepted(cfg: Config, q: nat, s: State, e: Event)
    requires WordSized(cfg, q) && SafeConfig(cfg, s) && Inv(cfg, s) && |s.enq| < cfg.size
    ensures NotMisled(cfg, s, e)
  {
    HalfOfWords(cfg, q);
    match e
    case Produce(p) => if p < |s.prods| { FewAcceptedByProducer(cfg, s, p); }
    case Consume(c) => if c < |s.cons| { FewAcceptedByConsumer(cfg, s, c); }
    case _ =>
  }

  lemma FewAcceptedByProducer(cfg: Config, s: State, p: nat)
    requires 2 * cfg.size <= TWO32 && Inv(cfg, s) && |s.enq| < cfg.size && p < |s.prods|
    ensures NotMisled(cfg, s, Produce(p))
  {
    assert ProducerOk(cfg, s, p);
    hide Owned;
  }

  lemma FewAcceptedByConsumer(cfg: Config, s: State, c: nat)
    requires 2 * cfg.size <= TWO32 && Inv(cfg, s) && |s.enq| < cfg.size && c < |s.cons|
    ensures NotMisled(cfg, s, Consume(c))
  {
    assert ConsumerOk(cfg, s, c);
    hide Owned;
  }

  lemma HalfOfWords(cfg: Config, q: nat)
    requires WordSized(cfg, q)
    ensures 2 * cfg.size <= TWO32
  {
    assert cfg.size * q >= cfg.size * 2;
  }

  lemma {:induction false} FewAcceptedRun(cfg: Config, q: nat, producers: nat, consumers: nat, es: seq<Event>)
    requires WordSized(cfg, q) && !cfg.wrap && (cfg.swapped || consumers <= 1)
    requires |Run(OnWords(cfg), Init(cfg, producers, consumers), es).enq| < cfg.size
    ensures NobodyMisled(cfg, producers, consumers, es)
  {
    if es != [] {
      hide Step, Words, Init, NotMisled, NobodyMisled, Inv;
      var last := |es| - 1;
      FewerBefore(OnWords(cfg), Init(cfg, producers, consumers), es, last);
      FewAcceptedRun(cfg, q, producers, consumers, es[..last]);
      RunInWords(cfg, q, producers, consumers, es[..last]);
      FewAccepted(cfg, q, Run(cfg, Init(cfg, producers, consumers), es[..last]), es[last]);
      LastStep(cfg, producers, consumers, es);
    }
  }

  /** A fresh ring of more than `nem` slots refuses no enqueue before `nem` were accepted, on words and in all runs. */
  lemma FreshRingAcceptsOnWords(cfg: Config, q: nat, producers: nat, consumers: nat, es: seq<Event>, p: nat, nem: nat)
    requires WordSized(cfg, q) && !cfg.wrap && (cfg.swapped || consumers <= 1) && p < producers && nem < cfg.size
    requires |Run(OnWords(cfg), Init(cfg, producers, consumers), es).enq| < nem
    ensures !Refuses(OnWords(cfg), Run(OnWords(cfg), Init(cfg, producers, consumers), es), p)
  {
    var s := Run(cfg, Init(cfg, producers, consumers), es);
    FewAcceptedRun(cfg, q, producers, consumers, es);
    RunInWords(cfg, q, producers, consumers, es);
    if Refuses(OnWords(cfg), Words(s), p) {
      FewAccepted(cfg, q, s, Produce(p));
      AcceptsYet(cfg, s, p);
    }
  }

  lemma AcceptsYet(cfg: Config, s: State, p: nat)
    requires SafeConfig(cfg, s) && Inv(cfg, s) && NotMisled(cfg, s, Produce(p)) && |s.enq| < cfg.size - 1
    ensures !Refuses(OnWords(cfg), Words(s), p)
  {
    if Refuses(OnWords(cfg), Words(s), p) {
      assert ProducerOk(cfg, s, p);
      GuardOutcome(s.prods[p].tail, s.prods[p].head, cfg.size - 1);
    }
  }

  // ---------- progress ----------

  /** In an unmisled run on words some call under way can make a real step while there is one. */
  lemma NotStuckOnWords(cfg: Config, q: nat, producers: nat, consumers: nat, es: seq<Event>) returns (e: Event)
    requires WordSized(cfg, q) && !cfg.wrap && (cfg.swapped || consumers <= 1)
        && NobodyMisled(cfg, producers, consumers, es)
    requires !Quiet(Run(OnWords(cfg), Init(cfg, producers, consumers), es))
    ensures var s := Run(OnWords(cfg), Init(cfg, producers, consumers), es);
      Continues(e) && Step(OnWords(cfg), s, e) != s
  {
    RunInWords(cfg, q, producers, consumers, es);
    var s := Run(cfg, Init(cfg, producers, consumers), es);
    if Quiet(s) {
      QuietInWords(s);
    }
    e := NotStuck(cfg, s);
    match e
    case Produce(p) => ProducerReads(cfg, q, s, p); RealOnWords(cfg, s, p);
    case Consume(c) => ConsumerReads(cfg, q, s, c); ConsumerRealOnWords(cfg, s, c);
  }

  lemma QuietInWords(s: State)
    requires Quiet(s)
    ensures Quiet(Words(s))
  {
  }

  /** A thread that does not spin on counters does not spin on words. */
  lemma RealOnWords(cfg: Config, s: State, p: nat)
    requires Sized(cfg, s) && p < |s.prods| && ProducerStep(cfg, s, p) != s
    requires s.prods[p].PWritten? ==> (Word(s.prodTail) == Word(s.prods[p].head) <==> s.prodTail == s.prods[p].head)
    ensures ProducerStep(OnWords(cfg), Words(s), p) != Words(s)
  {
    assert ProducerStep(OnWords(cfg), Words(s), p).prods[p] != Words(s).prods[p];
  }

  lemma ConsumerRealOnWords(cfg: Config, s: State, c: nat)
    requires Sized(cfg, s) && c < |s.cons| && ConsumerStep(cfg, s, c) != s
    requires s.cons[c].CRead? ==> (Word(s.consTail) == Word(s.cons[c].head) <==> s.consTail == s.cons[c].head)
    ensures ConsumerStep(OnWords(cfg), Words(s), c) != Words(s)
  {
    assert ConsumerStep(OnWords(cfg), Words(s), c).cons[c] != Words(s).cons[c];
  }
}
