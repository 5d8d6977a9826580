/** No reachable state of the ring is stuck, and without new calls all calls under way come to an end. */
module RingProgress {
  import opened Ring
  import opened RingSafety

  // ---------- the measure ----------

  /** Calls before their CAS. */
  ghost function PPending(pc: Producer): nat {
    if pc.PStart? || pc.PHead? || pc.PBoth? then 1 else 0
  }

  /** Steps such a call needs at most before it succeeds, is refused, or is overtaken. */
  ghost function PAhead(pc: Producer, prodHead: int): nat {
    match pc
    case PStart(_) => 3
    case PHead(_, head) => if head == prodHead then 2 else 5
    case PBoth(_, head, _, _) => if head == prodHead then 1 else 4
    case _ => 0
  }

  /** Steps after the CAS. */
  ghost function PLeft(pc: Producer): nat {
    match pc
    case PReserved(_, _) => 3
    case PWritten(_, _) => 2
    case PTurn(_, _) => 1
    case _ => 0
  }

  ghost function CPending(pc: Consumer): nat {
    if pc.CStart? || pc.CFirst? || pc.CBoth? then 1 else 0
  }

  ghost function CAhead(pc: Consumer, consHead: int, swapped: bool): nat {
    match pc
    case CStart => 3
    case CFirst(v, _) => if !swapped || v == consHead then 2 else 5
    case CBoth(_, head, _) => if head == consHead then 1 else 4
    case _ => 0
  }

  ghost function CLeft(pc: Consumer): nat {
    match pc
    case CReserved(_) => 3
    case CRead(_, _) => 2
    case CTurn(_, _) => 1
    case _ => 0
  }

  ghost function SumP(ps: seq<Producer>, f: Producer -> nat): nat {
    if ps == [] then 0 else SumP(ps[..|ps| - 1], f) + f(ps[|ps| - 1])
  }

  ghost function SumC(cs: seq<Consumer>, f: Consumer -> nat): nat {
    if cs == [] then 0 else SumC(cs[..|cs| - 1], f) + f(cs[|cs| - 1])
  }

  lemma {:induction false} SumPUpdate(ps: seq<Producer>, f: Producer -> nat, p: nat, pc: Producer)
    requires p < |ps|
    ensures SumP(ps[p := pc], f) == SumP(ps, f) - f(ps[p]) + f(pc)
  {
    var last := |ps| - 1;
    if p < last {
      SumPUpdate(ps[..last], f, p, pc);
      assert ps[p := pc][..last] == ps[..last][p := pc];
    } else {
      assert ps[p := pc][..last] == ps[..last];
    }
  }

  lemma {:induction false} SumCUpdate(cs: seq<Consumer>, f: Consumer -> nat, c: nat, pc: Consumer)
    requires c < |cs|
    ensures SumC(cs[c := pc], f) == SumC(cs, f) - f(cs[c]) + f(pc)
  {
    var last := |cs| - 1;
    if c < last {
      SumCUpdate(cs[..last], f, c, pc);
      assert cs[c := pc][..last] == cs[..last][c := pc];
    } else {
      assert cs[c := pc][..last] == cs[..last];
    }
  }

  ghost function Pending(s: State): nat {
    SumP(s.prods, PPending) + SumC(s.cons, CPending)
  }

  ghost function Ahead(cfg: Config, s: State): nat {
    SumP(s.prods, pc => PAhead(pc, s.prodHead)) + SumC(s.cons, pc => CAhead(pc, s.consHead, cfg.swapped))
  }

  ghost function Left(s: State): nat {
    SumP(s.prods, PLeft) + SumC(s.cons, CLeft)
  }

  /** The measure, compared lexicographically. */
  ghost predicate Decreases(cfg: Config, s: State, s': State) {
    || Pending(s') < Pending(s)
    || (Pending(s') == Pending(s) && Ahead(cfg, s') < Ahead(cfg, s))
    || (Pending(s') == Pending(s) && Ahead(cfg, s') == Ahead(cfg, s) && Left(s') < Left(s))
  }

  /** What a real step does to the call that makes it. */
  lemma ProducerNearer(cfg: Config, s: State, p: nat)
    requires Sized(cfg, s) && p < |s.prods| && ProducerStep(cfg, s, p) != s
    ensures var s' := ProducerStep(cfg, s, p); var pc, pc' := s.prods[p], s'.prods[p];
      && s'.prods == s.prods[p := pc'] && s'.cons == s.cons && s'.consHead == s.consHead
      && (PPending(pc') < PPending(pc)
          || (PPending(pc') == PPending(pc) && s'.prodHead == s.prodHead
              && (PAhead(pc', s.prodHead) < PAhead(pc, s.prodHead)
                  || (PAhead(pc', s.prodHead) == PAhead(pc, s.prodHead) && PLeft(pc') < PLeft(pc)))))
  {
  }

  lemma ConsumerNearer(cfg: Config, s: State, c: nat)
    requires Sized(cfg, s) && c < |s.cons| && ConsumerStep(cfg, s, c) != s
    ensures var s' := ConsumerStep(cfg, s, c); var pc, pc' := s.cons[c], s'.cons[c];
      && s'.cons == s.cons[c := pc'] && s'.prods == s.prods && s'.prodHead == s.prodHead
      && (CPending(pc') < CPending(pc)
          || (CPending(pc') == CPending(pc) && s'.consHead == s.consHead
              && (CAhead(pc', s.consHead, cfg.swapped) < CAhead(pc, s.consHead, cfg.swapped)
                  || (CAhead(pc', s.consHead, cfg.swapped) == CAhead(pc, s.consHead, cfg.swapped)
                    && CLeft(pc') < CLeft(pc)))))
  {
  }

  lemma ProducerDecreases(cfg: Config, s: State, p: nat)
    requires Sized(cfg, s) && p < |s.prods| && ProducerStep(cfg, s, p) != s
    ensures Decreases(cfg, s, ProducerStep(cfg, s, p))
  {
    ProducerNearer(cfg, s, p);
    hide ProducerStep, PPending, PAhead, PLeft, SumP, SumC;
    var pc := ProducerStep(cfg, s, p).prods[p];
    SumPUpdate(s.prods, PPending, p, pc);
    SumPUpdate(s.prods, PLeft, p, pc);
    SumPUpdate(s.prods, pc => PAhead(pc, s.prodHead), p, pc);
  }

  lemma ConsumerDecreases(cfg: Config, s: State, c: nat)
    requires Sized(cfg, s) && c < |s.cons| && ConsumerStep(cfg, s, c) != s
    ensures Decreases(cfg, s, ConsumerStep(cfg, s, c))
  {
    ConsumerNearer(cfg, s, c);
    hide ConsumerStep, CPending, CAhead, CLeft, SumP, SumC;
    var pc := ConsumerStep(cfg, s, c).cons[c];
    SumCUpdate(s.cons, CPending, c, pc);
    SumCUpdate(s.cons, CLeft, c, pc);
    SumCUpdate(s.cons, pc => CAhead(pc, s.consHead, cfg.swapped), c, pc);
  }

  /** A step of a call under way (not of a new one). */
  ghost predicate Continues(e: Event) {
    e.Produce? || e.Consume?
  }

  /** Every step of a call under way that is not a turn of a spin loop takes it closer to its end. */
  lemma EveryStepDecreases(cfg: Config, s: State, e: Event)
    requires Sized(cfg, s) && Continues(e) && Step(cfg, s, e) != s
    ensures Decreases(cfg, s, Step(cfg, s, e))
  {
    match e
    case Produce(p) => ProducerDecreases(cfg, s, p);
    case Consume(c) => ConsumerDecreases(cfg, s, c);
  }

  // ---------- somebody can always move ----------

  ghost predicate Quiet(s: State) {
    && (forall p :: 0 <= p < |s.prods| ==> s.prods[p].PIdle?)
    && (forall c :: 0 <= c < |s.cons| ==> s.cons[c].CIdle?)
  }

  /** If a producer is past its CAS, then the one whose turn it is has a real step. */
  lemma TurnHolder(cfg: Config, s: State) returns (p: nat)
    requires Inv(cfg, s) && s.prodTail < s.prodHead
    ensures p < |s.prods| && HasP(s.prods[p], s.prodTail) && ProducerStep(cfg, s, p) != s
  {
    p := s.pOwner[s.prodTail];
    assert HasP(s.prods[p], s.prodTail);
    assert s.prods[p] != ProducerStep(cfg, s, p).prods[p];
  }

  lemma ConsumerTurnHolder(cfg: Config, s: State) returns (c: nat)
    requires Inv(cfg, s) && s.consTail < s.consHead
    ensures c < |s.cons| && HasC(s.cons[c], s.consTail) && ConsumerStep(cfg, s, c) != s
  {
    c := s.cOwner[s.consTail];
    assert HasC(s.cons[c], s.consTail);
    assert s.cons[c] != ConsumerStep(cfg, s, c).cons[c];
  }

  lemma NotStuck(cfg: Config, s: State) returns (e: Event)
    requires Inv(cfg, s) && !Quiet(s)
    ensures Continues(e) && Step(cfg, s, e) != s
  {
    if p :| 0 <= p < |s.prods| && !s.prods[p].PIdle? {
      if s.prods[p].PWritten? && s.prodTail != s.prods[p].head {
        assert ProducerOk(cfg, s, p);
        var q := TurnHolder(cfg, s);
        e := Produce(q);
      } else {
        e := Produce(p);
        assert s.prods[p] != ProducerStep(cfg, s, p).prods[p];
      }
    } else {
      var c :| 0 <= c < |s.cons| && !s.cons[c].CIdle?;
      if s.cons[c].CRead? && s.consTail != s.cons[c].head {
        assert ConsumerOk(cfg, s, c);
        var d := ConsumerTurnHolder(cfg, s);
        e := Consume(d);
      } else {
        e := Consume(c);
        assert s.cons[c] != ConsumerStep(cfg, s, c).cons[c];
      }
    }
  }

  lemma {:induction false} RunFirst(cfg: Config, s: State, e: Event, es: seq<Event>)
    requires Sized(cfg, s)
    ensures Run(cfg, s, [e] + es) == Run(cfg, Step(cfg, s, e), es)
  {
    if es == [] {
      assert [e] + es == [e] && [e][..0] == [];
    } else {
      RunFirst(cfg, s, e, es[..|es| - 1]);
      assert ([e] + es)[..|es|] == [e] + es[..|es| - 1];
    }
  }

  function Again(e: Event, n: nat): seq<Event> {
    seq(n, _ => e)
  }

  lemma AgainFirst(cfg: Config, s: State, e: Event, n: nat)
    requires Sized(cfg, s)
    ensures Run(cfg, s, Again(e, n + 1)) == Run(cfg, Step(cfg, s, e), Again(e, n))
  {
    assert Again(e, n + 1) == [e] + Again(e, n);
    RunFirst(cfg, s, e, Again(e, n));
  }

  /** The state after the call that holds the turn has returned. */
  ghost function Enqueued(cfg: Config, s: State, p: nat): State
    requires History(cfg, s) && s.prodTail < s.prodHead && p < |s.prods|
  {
    PutP(s, p, PIdle(0)).(prodTail := s.prodTail + 1, slots := s.slots[s.prodTail % cfg.size := s.enq[s.prodTail]])
  }

  ghost function Dequeued(cfg: Config, s: State, c: nat): State
    requires History(cfg, s) && s.consTail < s.consHead && c < |s.cons|
  {
    PutC(s, c, CIdle(0)).(consTail := s.consTail + 1, deq := s.deq + [s.enq[s.consTail]])
  }

  lemma {:induction false} FinishEnqueue(cfg: Config, s: State, p: nat)
    requires SafeConfig(cfg, s) && Inv(cfg, s) && s.prodTail < s.prodHead && p < |s.prods|
        && HasP(s.prods[p], s.prodTail)
    ensures Run(cfg, s, Again(Produce(p), PLeft(s.prods[p]))) == Enqueued(cfg, s, p)
    decreases PLeft(s.prods[p])
  {
    var t := Step(cfg, s, Produce(p));
    assert ProducerOk(cfg, s, p);
    AgainFirst(cfg, s, Produce(p), PLeft(s.prods[p]) - 1);
    if s.prods[p].PTurn? {
      assert t == Enqueued(cfg, s, p);
    } else {
      StepKeeps(cfg, s, Produce(p));
      FinishEnqueue(cfg, t, p);
      assert Enqueued(cfg, t, p) == Enqueued(cfg, s, p);
    }
  }

  lemma {:induction false} FinishDequeue(cfg: Config, s: State, c: nat)
    requires SafeConfig(cfg, s) && Inv(cfg, s) && s.consTail < s.consHead && c < |s.cons| && HasC(s.cons[c], s.consTail)
    ensures Run(cfg, s, Again(Consume(c), CLeft(s.cons[c]))) == Dequeued(cfg, s, c)
    decreases CLeft(s.cons[c])
  {
    var t := Step(cfg, s, Consume(c));
    assert ConsumerOk(cfg, s, c);
    AgainFirst(cfg, s, Consume(c), CLeft(s.cons[c]) - 1);
    if s.cons[c].CTurn? {
      assert t == Dequeued(cfg, s, c);
    } else {
      StepKeeps(cfg, s, Consume(c));
      FinishDequeue(cfg, t, c);
      assert Dequeued(cfg, t, c) == Dequeued(cfg, s, c);
    }
  }

  /**
   If a producer is past its CAS, then one holds the turn and can finish without waiting: by at most three steps
   of its own, in which nobody else takes part, its item is published and the call returns 0.
   */
  lemma TurnIsHeld(cfg: Config, s: State) returns (p: nat, n: nat)
    requires SafeConfig(cfg, s) && Inv(cfg, s) && s.prodTail < s.prodHead
    ensures p < |s.prods| && HasP(s.prods[p], s.prodTail) && 1 <= n <= 3
    ensures Run(cfg, s, Again(Produce(p), n)) == Enqueued(cfg, s, p)
  {
    p := TurnHolder(cfg, s);
    n := PLeft(s.prods[p]);
    FinishEnqueue(cfg, s, p);
  }

  /** The same for consumers: the oldest item is handed out. */
  lemma ConsumerTurnIsHeld(cfg: Config, s: State) returns (c: nat, n: nat)
    requires SafeConfig(cfg, s) && Inv(cfg, s) && s.consTail < s.consHead
    ensures c < |s.cons| && HasC(s.cons[c], s.consTail) && 1 <= n <= 3
    ensures Run(cfg, s, Again(Consume(c), n)) == Dequeued(cfg, s, c)
  {
    c := ConsumerTurnHolder(cfg, s);
    n := CLeft(s.cons[c]);
    FinishDequeue(cfg, s, c);
  }

  /** From every reachable state all calls under way can be run to their end. */
  lemma {:induction false} Completes(cfg: Config, s: State) returns (es: seq<Event>)
    requires SafeConfig(cfg, s) && Inv(cfg, s)
    ensures forall e :: e in es ==> Continues(e)
    ensures Quiet(Run(cfg, s, es))
    decreases Pending(s), Ahead(cfg, s), Left(s)
  {
    if Quiet(s) {
      es := [];
    } else {
      var e := NotStuck(cfg, s);
      EveryStepDecreases(cfg, s, e);
      StepKeeps(cfg, s, e);
      var rest := Completes(cfg, Step(cfg, s, e));
      RunFirst(cfg, s, e, rest);
      es := [e] + rest;
    }
  }

  // ---------- and so every run of the calls under way ends ----------

  lemma {:induction false} SumPBound(ps: seq<Producer>, f: Producer -> nat, b: nat)
    requires forall pc :: f(pc) <= b
    ensures SumP(ps, f) <= b * |ps|
  {
    if ps != [] {
      SumPBound(ps[..|ps| - 1], f, b);
      assert b * |ps| == b * (|ps| - 1) + b;
    }
  }

  lemma {:induction false} SumCBound(cs: seq<Consumer>, f: Consumer -> nat, b: nat)
    requires forall pc :: f(pc) <= b
    ensures SumC(cs, f) <= b * |cs|
  {
    if cs != [] {
      SumCBound(cs[..|cs| - 1], f, b);
      assert b * |cs| == b * (|cs| - 1) + b;
    }
  }

  lemma MeasureBound(cfg: Config, s: State)
    ensures Ahead(cfg, s) <= 5 * (|s.prods| + |s.cons|) && Left(s) <= 3 * (|s.prods| + |s.cons|)
  {
    SumPBound(s.prods, pc => PAhead(pc, s.prodHead), 5);
    SumCBound(s.cons, pc => CAhead(pc, s.consHead, cfg.swapped), 5);
    SumPBound(s.prods, PLeft, 3);
    SumCBound(s.cons, CLeft, 3);
  }

  ghost function Times(a: nat, n: nat): nat {
    if a == 0 then 0 else Times(a - 1, n) + n
  }

  /** Two numbers as one, when the second is at most `n`. */
  ghost function Weight(a: nat, b: nat, n: nat): nat {
    Times(a, n + 1) + b
  }

  /** The measure as one number. */
  ghost function Rank(cfg: Config, s: State): nat {
    var n := |s.prods| + |s.cons|;
    Weight(Weight(Pending(s), Ahead(cfg, s), 5 * n), Left(s), 3 * n)
  }

  lemma {:induction false} Weigh(a: nat, b: nat, a': nat, b': nat, n: nat)
    requires a' < a && b' <= n
    ensures Weight(a', b', n) < Weight(a, b, n)
  {
    if a' + 1 < a {
      Weigh(a - 1, b, a', b', n);
    }
  }

  lemma RankDecreases(cfg: Config, s: State, e: Event)
    requires Sized(cfg, s) && Continues(e) && Step(cfg, s, e) != s
    ensures Rank(cfg, Step(cfg, s, e)) < Rank(cfg, s)
  {
    EveryStepDecreases(cfg, s, e);
    hide Step, Pending, Ahead, Left, Weight;
    var s' := Step(cfg, s, e);
    MeasureBound(cfg, s');
    var n := |s.prods| + |s.cons|;
    var m, m' := Weight(Pending(s), Ahead(cfg, s), 5 * n), Weight(Pending(s'), Ahead(cfg, s'), 5 * n);
    if Pending(s') < Pending(s) {
      Weigh(Pending(s), Ahead(cfg, s), Pending(s'), Ahead(cfg, s'), 5 * n);
    } else if Ahead(cfg, s') < Ahead(cfg, s) {
      WeighSecond(Pending(s), Ahead(cfg, s), Ahead(cfg, s'), 5 * n);
    }
    if m' < m {
      Weigh(m, Left(s), m', Left(s'), 3 * n);
    } else {
      WeighSecond(m, Left(s), Left(s'), 3 * n);
    }
  }

  lemma WeighSecond(a: nat, b: nat, b': nat, n: nat)
    requires b' < b
    ensures Weight(a, b', n) < Weight(a, b, n)
  {
  }

  /** A schedule whose every event is a real step of a call under way has at most `Rank` events. */
  lemma {:induction false} NoEndlessRun(cfg: Config, s: State, es: seq<Event>)
    requires Sized(cfg, s)
    requires forall i :: 0 <= i < |es| ==> Continues(es[i]) && Run(cfg, s, es[..i + 1]) != Run(cfg, s, es[..i])
    ensures |es| + Rank(cfg, Run(cfg, s, es)) <= Rank(cfg, s)
  {
    hide Step, Rank;
    if es != [] {
      var last := |es| - 1;
      forall i | 0 <= i < last
        ensures Continues(es[..last][i]) && Run(cfg, s, es[..last][..i + 1]) != Run(cfg, s, es[..last][..i])
      {
        assert es[..last][..i + 1] == es[..i + 1] && es[..last][..i] == es[..i];
      }
      NoEndlessRun(cfg, s, es[..last]);
      assert es[..last + 1] == es;
      RankDecreases(cfg, Run(cfg, s, es[..last]), es[last]);
    }
  }
}
