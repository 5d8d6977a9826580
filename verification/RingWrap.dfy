/** The ring with 32-bit counters does what the ring with unbounded counters does, across any number of wraps. */
module RingWrap {
  import opened Bytes
  import opened Ring
  import opened RingSafety

  function Word(x: int): (w: int)
    ensures 0 <= w < TWO32
  {
    x % TWO32
  }

  function WordP(pc: Producer): Producer {
    match pc
    case PIdle(_) => pc
    case PStart(_) => pc
    case PHead(item, head) => PHead(item, Word(head))
    case PBoth(item, head, tail, full) => PBoth(item, Word(head), Word(tail), full)
    case PReserved(item, head) => PReserved(item, Word(head))
    case PWritten(item, head) => PWritten(item, Word(head))
    case PTurn(item, head) => PTurn(item, Word(head))
  }

  function WordC(pc: Consumer): Consumer {
    match pc
    case CIdle(_) => pc
    case CStart => pc
    case CFirst(v, empty) => CFirst(Word(v), empty)
    case CBoth(tail, head, empty) => CBoth(Word(tail), Word(head), empty)
    case CReserved(head) => CReserved(Word(head))
    case CRead(head, item) => CRead(Word(head), item)
    case CTurn(head, item) => CTurn(Word(head), item)
  }

  /** The state with every counter cut to 32 bits; slots and histories are the same. */
  function Words(s: State): (w: State)
    ensures |w.prods| == |s.prods| && |w.cons| == |s.cons| && w.slots == s.slots && w.enq == s.enq && w.deq == s.deq
  {
    s.(prodHead := Word(s.prodHead), prodTail := Word(s.prodTail),
       consHead := Word(s.consHead), consTail := Word(s.consTail),
       prods := seq(|s.prods|, i requires 0 <= i < |s.prods| => WordP(s.prods[i])),
       cons := seq(|s.cons|, i requires 0 <= i < |s.cons| => WordC(s.cons[i])))
  }

  // ---------- arithmetic of words ----------

  /** Sums and differences may be cut to words before or after. */
  lemma WordOfDifference(a: int, b: int, c: int)
    ensures Word(Word(a) - Word(b) + c) == Word(a - b + c)
  {
    var k := b / TWO32 - a / TWO32;
    assert Word(a) - Word(b) + c == (a - b + c) + TWO32 * k;
    AddWords(a - b + c, k);
  }

  lemma WordOfNext(a: int)
    ensures Word(Word(a) + 1) == Word(a + 1)
  {
    assert Word(a) + 1 == (a + 1) + TWO32 * -(a / TWO32);
    AddWords(a + 1, -(a / TWO32));
  }

  lemma SameWord(a: int, b: int)
    requires a <= b < a + TWO32
    ensures Word(a) == Word(b) <==> a == b
  {
    WordOfDifference(b, a, 0);
  }

  lemma SmallWord(a: int)
    requires 0 <= a < TWO32
    ensures Word(a) == a
  {
  }

  /** The slot index is found from the word alone, since the size divides 2^32. */
  lemma SlotOfWord(size: nat, q: nat, h: int)
    requires size > 0 && size * q == TWO32
    ensures Word(h) % size == h % size
  {
    var k := h / TWO32;
    assert h == Word(h) + size * (q * k) by {
      assert h == Word(h) + TWO32 * k;
      assert size * q * k == size * (q * k);
    }
    AddSizes(size, Word(h), q * k);
  }

  lemma {:induction false} AddSizes(size: nat, x: int, k: int)
    requires size > 0
    ensures (x + size * k) % size == x % size
    decreases if k < 0 then -k else k
  {
    if k > 0 {
      AddSizes(size, x, k - 1);
      NextMultiple(size, x, k - 1);
      AddOneSize(size, x + size * (k - 1));
    } else if k < 0 {
      AddSizes(size, x, k + 1);
      NextMultiple(size, x, k);
      AddOneSize(size, x + size * k);
    }
  }

  lemma NextMultiple(size: nat, x: int, k: int)
    ensures x + size * (k + 1) == (x + size * k) + size
  {
    Distribute(size, k + 1, k);
  }

  lemma AddOneSize(size: nat, y: int)
    requires size > 0
    ensures (y + size) % size == y % size
  {
    var r, d := y % size, y / size;
    assert y + size == size * (d + 1) + r by { Distribute(size, d + 1, d); }
    Quotient(size, d + 1, r);
  }

  lemma Quotient(size: nat, d: int, r: int)
    requires 0 <= r < size
    ensures (size * d + r) % size == r
  {
    var n := size * d + r;
    var e, s := n / size, n % size;
    assert n == size * e + s;
    assert size * d - size * e == size * (d - e) by { Distribute(size, d, e); }
    if d - e >= 1 { AtLeast(size, d - e); } else if e - d >= 1 { AtLeast(size, e - d); }
  }

  // ---------- what threads decide ----------

  /** A positive multiple of 2^32, which words take for 0. */
  predicate Lap(d: int) {
    d > 0 && d % TWO32 == 0
  }

  /**
   The CAS on words succeeds exactly as the one on counters unless a positive multiple of 2^32 reservations came
   between.
   */
  lemma CasOutcome(now: int, head: int)
    requires head <= now
    ensures (Word(now) == Word(head) <==> now == head) <==> !Lap(now - head)
  {
    WordOfDifference(now, head, 0);
  }

  /**
   The guard of `enqueue` on words decides as the one on counters exactly unless its sum is a positive multiple of
   2^32.
   */
  lemma GuardOutcome(tail: int, head: int, mask: int)
    requires tail - head + mask >= 0
    ensures (Word(Word(tail) - Word(head) + mask) == 0 <==> tail - head + mask == 0) <==> !Lap(tail - head + mask)
  {
    WordOfDifference(tail, head, mask);
  }

  /**
   The event is none at which a thread is misled by words: its guard decides as it should and so does its CAS, if
   the guard lets it come to that.  A single consumer of the program's ring is never misled.
   */
  ghost predicate NotMisled(cfg: Config, s: State, e: Event) {
    match e
    case Produce(p) =>
      p < |s.prods| && s.prods[p].PBoth? ==>
        var free := s.prods[p].tail - s.prods[p].head + (cfg.size - 1);
        !Lap(free) && (free != 0 ==> !Lap(s.prodHead - s.prods[p].head))
    case Consume(c) =>
      (cfg.swapped || |s.cons| > 1) && c < |s.cons| && s.cons[c].CBoth? ==>
        var busy := s.cons[c].tail - s.cons[c].head;
        !Lap(busy) && (busy != 0 ==> !Lap(s.consHead - s.cons[c].head))
    case _ => true
  }

  ghost predicate WordSized(cfg: Config, q: nat) {
    cfg.size >= 2 && q >= 2 && cfg.size * q == TWO32
  }

  lemma SizeFits(cfg: Config, q: nat)
    requires WordSized(cfg, q)
    ensures cfg.size - 1 < TWO32
  {
    assert cfg.size * q >= cfg.size * 1;
  }

  /**
   A producer is not misled when fewer than 2^32 - mask reservations fell between its load of the head and its CAS.
   */
  lemma FewReservations(cfg: Config, s: State, p: nat)
    requires SafeConfig(cfg, s) && Inv(cfg, s) && p < |s.prods| && s.prods[p].PBoth?
    requires s.prodHead - s.prods[p].head < TWO32 - (cfg.size - 1)
    ensures NotMisled(cfg, s, Produce(p))
  {
    assert ProducerOk(cfg, s, p);
  }

  /** What a single consumer computes from its loads fits in a word. */
  lemma SingleConsumerNotLapped(cfg: Config, q: nat, s: State, c: nat)
    requires WordSized(cfg, q) && SafeConfig(cfg, s) && !cfg.swapped && Inv(cfg, s) && c < |s.cons| && s.cons[c].CBoth?
    ensures !Lap(s.cons[c].tail - s.cons[c].head) && !Lap(s.consHead - s.cons[c].head)
  {
    SizeFits(cfg, q);
    assert ConsumerOk(cfg, s, c);
  }

  // ---------- the refinement ----------

  lemma WordsPutP(s: State, p: nat, pc: Producer)
    requires p < |s.prods|
    ensures Words(PutP(s, p, pc)) == PutP(Words(s), p, WordP(pc))
  {
    assert Words(PutP(s, p, pc)).prods == PutP(Words(s), p, WordP(pc)).prods;
  }

  lemma WordsPutC(s: State, c: nat, pc: Consumer)
    requires c < |s.cons|
    ensures Words(PutC(s, c, pc)) == PutC(Words(s), c, WordC(pc))
  {
    assert Words(PutC(s, c, pc)).cons == PutC(Words(s), c, WordC(pc)).cons;
  }

  /** What a producer makes of words where it cannot be misled. */
  lemma ProducerReads(cfg: Config, q: nat, s: State, p: nat)
    requires WordSized(cfg, q) && SafeConfig(cfg, s) && Inv(cfg, s) && p < |s.prods|
    ensures match s.prods[p]
      case PHead(_, _) => Word(Word(s.prodHead) - Word(s.consTail)) == s.prodHead - s.consTail
      case PReserved(_, head) => Word(head) % cfg.size == head % cfg.size
      case PWritten(_, head) => Word(s.prodTail) == Word(head) <==> s.prodTail == head
      case PTurn(_, head) => Word(Word(head) + 1) == Word(head + 1)
      case _ => true
  {
    hide Word, Owned;
    SizeFits(cfg, q);
    assert ProducerOk(cfg, s, p);
    match s.prods[p]
    case PHead(_, _) =>
      WordOfDifference(s.prodHead, s.consTail, 0);
      SmallWord(s.prodHead - s.consTail);
    case PReserved(_, head) => SlotOfWord(cfg.size, q, head);
    case PWritten(_, head) => SameWord(s.prodTail, head);
    case PTurn(_, head) => WordOfNext(head);
    case _ =>
  }

  lemma ConsumerReads(cfg: Config, q: nat, s: State, c: nat)
    requires WordSized(cfg, q) && SafeConfig(cfg, s) && Inv(cfg, s) && c < |s.cons|
    ensures Word(s.prodTail) == Word(s.consHead) <==> s.prodTail == s.consHead
    ensures match s.cons[c]
      case CReserved(head) => Word(head) % cfg.size == head % cfg.size
      case CRead(head, _) => Word(s.consTail) == Word(head) <==> s.consTail == head
      case CTurn(head, _) => Word(Word(head) + 1) == Word(head + 1)
      case _ => true
  {
    hide Word, Owned;
    SizeFits(cfg, q);
    assert ConsumerOk(cfg, s, c);
    SameWord(s.consHead, s.prodTail);
    match s.cons[c]
    case CReserved(head) => SlotOfWord(cfg.size, q, head);
    case CRead(head, _) => SameWord(s.consTail, head);
    case CTurn(head, _) => WordOfNext(head);
    case _ =>
  }

  /** The guard and the CAS of `enqueue`. */
  lemma ProducerChooses(cfg: Config, s: State, p: nat)
    requires SafeConfig(cfg, s) && Inv(cfg, s) && p < |s.prods| && s.prods[p].PBoth?
    ensures ProducerStep(cfg.(wrap := true), Words(s), p) == Words(ProducerStep(cfg, s, p))
        <==> NotMisled(cfg, s, Produce(p))
  {
    assert ProducerOk(cfg, s, p);
    var head, tail := s.prods[p].head, s.prods[p].tail;
    GuardOutcome(tail, head, cfg.size - 1);
    CasOutcome(s.prodHead, head);
    WordOfNext(head);
    hide Inv, Word, Lap;
    var t, w := ProducerStep(cfg, s, p), ProducerStep(cfg.(wrap := true), Words(s), p);
    WordsPutP(s, p, t.prods[p]);
    assert w == Words(t) ==> w.prods[p] == WordP(t.prods[p]);
  }

  lemma ProducerAgrees(cfg: Config, q: nat, s: State, p: nat)
    requires WordSized(cfg, q) && SafeConfig(cfg, s) && Inv(cfg, s) && p < |s.prods|
    ensures ProducerStep(cfg.(wrap := true), Words(s), p) == Words(ProducerStep(cfg, s, p))
        <==> NotMisled(cfg, s, Produce(p))
  {
    if s.prods[p].PBoth? {
      ProducerChooses(cfg, s, p);
    } else {
      ProducerReads(cfg, q, s, p);
      hide Inv, Word;
      WordsPutP(s, p, ProducerStep(cfg, s, p).prods[p]);
    }
  }

  /** The guard and the CAS of `dequeue`. */
  lemma ConsumerChooses(cfg: Config, q: nat, s: State, c: nat)
    requires WordSized(cfg, q) && SafeConfig(cfg, s) && Inv(cfg, s) && c < |s.cons| && s.cons[c].CBoth?
    ensures ConsumerStep(cfg.(wrap := true), Words(s), c) == Words(ConsumerStep(cfg, s, c))
        <==> NotMisled(cfg, s, Consume(c))
  {
    assert ConsumerOk(cfg, s, c);
    var head, tail := s.cons[c].head, s.cons[c].tail;
    if !cfg.swapped { SingleConsumerNotLapped(cfg, q, s, c); }
    GuardOutcome(tail, head, 0);
    CasOutcome(s.consHead, head);
    WordOfNext(head);
    hide Inv, Word, Lap;
    var t, w := ConsumerStep(cfg, s, c), ConsumerStep(cfg.(wrap := true), Words(s), c);
    WordsPutC(s, c, t.cons[c]);
    assert w == Words(t) ==> w.cons[c] == WordC(t.cons[c]);
  }

  lemma ConsumerAgrees(cfg: Config, q: nat, s: State, c: nat)
    requires WordSized(cfg, q) && SafeConfig(cfg, s) && Inv(cfg, s) && c < |s.cons|
    ensures ConsumerStep(cfg.(wrap := true), Words(s), c) == Words(ConsumerStep(cfg, s, c))
        <==> NotMisled(cfg, s, Consume(c))
  {
    if s.cons[c].CBoth? {
      ConsumerChooses(cfg, q, s, c);
    } else {
      ConsumerReads(cfg, q, s, c);
      hide Inv, Word;
      WordsPutC(s, c, ConsumerStep(cfg, s, c).cons[c]);
    }
  }

  /** A step on words is the step on counters exactly when no thread is misled in it. */
  lemma StepAgrees(cfg: Config, q: nat, s: State, e: Event)
    requires WordSized(cfg, q) && SafeConfig(cfg, s) && Inv(cfg, s)
    ensures Step(cfg.(wrap := true), Words(s), e) == Words(Step(cfg, s, e)) <==> NotMisled(cfg, s, e)
  {
    hide Inv, Word, ProducerStep, ConsumerStep;
    match e
    case Invoke(p, item) => if p < |s.prods| { WordsPutP(s, p, PStart(item)); }
    case Produce(p) => if p < |s.prods| { ProducerAgrees(cfg, q, s, p); }
    case Request(c) => if c < |s.cons| { WordsPutC(s, c, CStart); }
    case Consume(c) => if c < |s.cons| { ConsumerAgrees(cfg, q, s, c); }
  }

  /** In the run no thread is ever misled. */
  ghost predicate NobodyMisled(cfg: Config, producers: nat, consumers: nat, es: seq<Event>)
    requires cfg.size > 0
  {
    forall i :: 0 <= i < |es| ==> NotMisled(cfg, Run(cfg, Init(cfg, producers, consumers), es[..i]), es[i])
  }

  /** After the events `es` the 32-bit ring is the unbounded one seen in words. */
  ghost predicate Agrees(cfg: Config, producers: nat, consumers: nat, es: seq<Event>)
    requires cfg.size > 0
  {
    Run(cfg.(wrap := true), Init(cfg, producers, consumers), es) == Words(Run(cfg, Init(cfg, producers, consumers), es))
  }

  ghost predicate AgreesThroughout(cfg: Config, producers: nat, consumers: nat, es: seq<Event>)
    requires cfg.size > 0
  {
    forall i :: 0 <= i <= |es| ==> Agrees(cfg, producers, consumers, es[..i])
  }

  /**
   The 32-bit ring refines the unbounded one, across any number of wraps, along exactly the runs in which nobody is
   misled.
   */
  lemma {:induction false} RunAgrees(cfg: Config, q: nat, producers: nat, consumers: nat, es: seq<Event>)
    requires WordSized(cfg, q) && !cfg.wrap && (cfg.swapped || consumers <= 1)
    ensures AgreesThroughout(cfg, producers, consumers, es) <==> NobodyMisled(cfg, producers, consumers, es)
  {
    var init := Init(cfg, producers, consumers);
    if es == [] {
      assert es[..0] == es && Words(init).prods == init.prods && Words(init).cons == init.cons;
    } else {
      hide Step, Words, Init, NotMisled, NobodyMisled, AgreesThroughout, Inv;
      var last := |es| - 1;
      RunAgrees(cfg, q, producers, consumers, es[..last]);
      RunSafe(cfg, producers, consumers, es[..last]);
      StepAgrees(cfg, q, Run(cfg, init, es[..last]), es[last]);
      LastStep(cfg, producers, consumers, es);
    }
  }

  lemma LastStep(cfg: Config, producers: nat, consumers: nat, es: seq<Event>)
    requires cfg.size > 0 && es != []
    ensures var before, e := es[..|es| - 1], es[|es| - 1];
      && (NobodyMisled(cfg, producers, consumers, es) <==>
            NobodyMisled(cfg, producers, consumers, before)
              && NotMisled(cfg, Run(cfg, Init(cfg, producers, consumers), before), e))
      && (AgreesThroughout(cfg, producers, consumers, es) <==>
            AgreesThroughout(cfg, producers, consumers, before) && Agrees(cfg, producers, consumers, es))
      && (AgreesThroughout(cfg, producers, consumers, before) ==> Agrees(cfg, producers, consumers, before))
  {
    hide NotMisled, Agrees, Run;
    var before := es[..|es| - 1];
    assert es[..|es|] == es && before[..|before|] == before;
    forall i | 0 <= i < |es| ensures before[..i] == es[..i] {}
  }

  /** So the program's own ring hands items out in the order of their reservations. */
  lemma WrappedDequeuedIsPrefix(cfg: Config, q: nat, producers: nat, consumers: nat, es: seq<Event>)
    requires WordSized(cfg, q) && !cfg.wrap && (cfg.swapped || consumers <= 1)
    requires NobodyMisled(cfg, producers, consumers, es)
    ensures var s := Run(cfg.(wrap := true), Init(cfg, producers, consumers), es);
      s.deq <= s.enq && |s.enq| - |s.deq| <= cfg.size - 1
  {
    RunAgrees(cfg, q, producers, consumers, es);
    assert es[..|es|] == es;
    RunSafe(cfg, producers, consumers, es);
  }
}
