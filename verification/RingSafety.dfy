/**
 What every reachable state of the ring satisfies, with unbounded counters: for any
 number of producers and one consumer, and for any number of both in the variant.
 */
module RingSafety {
  import opened Ring

  /** The slot index tells counters apart that lie less than `size` apart. */
  lemma SlotsDiffer(size: nat, a: int, b: int)
    requires size > 0 && a != b && a - b < size && b - a < size
    ensures a % size != b % size
  {
    if a % size == b % size {
      var qa, qb := a / size, b / size;
      assert a == size * qa + a % size && b == size * qb + b % size;
      assert a - b == size * (qa - qb) by { Distribute(size, qa, qb); }
      if qa - qb >= 1 { AtLeast(size, qa - qb); } else if qb - qa >= 1 { AtLeast(size, qb - qa); }
      assert false;
    }
  }

  lemma Distribute(n: int, a: int, b: int)
    ensures n * a - n * b == n * (a - b)
  {
  }

  lemma AtLeast(n: nat, k: int)
    requires k >= 1
    ensures n * k >= n && n * (-k) <= 0 - n
  {
    assert n * k - n * 1 == n * (k - 1) by { Distribute(n, k, 1); }
  }

  // ---------- the invariant ----------

  /** The thread has reserved counter `h` and not yet published it. */
  ghost predicate HasP(pc: Producer, h: int) {
    (pc.PReserved? || pc.PWritten? || pc.PTurn?) && pc.head == h
  }

  ghost predicate HasC(pc: Consumer, h: int) {
    (pc.CReserved? || pc.CRead? || pc.CTurn?) && pc.head == h
  }

  ghost predicate Ordered(cfg: Config, s: State) {
    0 <= s.consTail <= s.consHead <= s.prodTail <= s.prodHead <= s.consTail + (cfg.size - 1)
  }

  ghost predicate History(cfg: Config, s: State) {
    && Ordered(cfg, s) && Sized(cfg, s)
    && |s.enq| == |s.pOwner| == s.prodHead && |s.cOwner| == s.consHead
    && s.deq == s.enq[..s.consTail]
    && forall k :: s.consTail <= k < s.prodTail ==> s.slots[k % cfg.size] == s.enq[k]
  }

  /** What holds of the locals of producer `p`. */
  ghost predicate ProducerOk(cfg: Config, s: State, p: nat)
    requires History(cfg, s) && p < |s.prods|
  {
    match s.prods[p]
    case PIdle(_) => true
    case PStart(_) => true
    case PHead(_, head) => 0 <= head <= s.prodHead
    case PBoth(_, head, tail, full) =>
      && 0 <= head <= s.prodHead && 0 <= tail <= s.consTail
      && 0 <= tail - head + (cfg.size - 1) && (tail - head + (cfg.size - 1) == 0 ==> full)
    case PReserved(item, head) => Reserved(cfg, s, p, item, head)
    case PWritten(item, head) => Reserved(cfg, s, p, item, head) && s.slots[head % cfg.size] == item
    case PTurn(item, head) => Reserved(cfg, s, p, item, head) && s.slots[head % cfg.size] == item && s.prodTail == head
  }

  ghost predicate Reserved(cfg: Config, s: State, p: nat, item: Item, head: int)
    requires History(cfg, s)
  {
    s.prodTail <= head < s.prodHead && s.pOwner[head] == p && s.enq[head] == item
  }

  ghost predicate ConsumerOk(cfg: Config, s: State, c: nat)
    requires History(cfg, s) && c < |s.cons|
  {
    match s.cons[c]
    case CIdle(_) => true
    case CStart => true
    case CFirst(v, empty) =>
      if cfg.swapped then 0 <= v <= s.consHead
      else s.consHead <= v <= s.prodTail && (empty <==> v == s.consHead)
    case CBoth(tail, head, empty) =>
      && 0 <= head <= tail <= s.prodTail && head <= s.consHead && (tail == head ==> empty)
      && (!cfg.swapped ==> head == s.consHead && (empty ==> tail == head))
    case CReserved(head) => s.consTail <= head < s.consHead && s.cOwner[head] == c
    case CRead(head, item) => s.consTail <= head < s.consHead && s.cOwner[head] == c && item == s.enq[head]
    case CTurn(head, item) => s.consTail == head < s.consHead && s.cOwner[head] == c && item == s.enq[head]
  }

  /** Every reserved and unpublished counter is in the hands of the thread that reserved it. */
  ghost predicate Owned(cfg: Config, s: State)
    requires History(cfg, s)
  {
    && (forall k :: s.prodTail <= k < s.prodHead ==> s.pOwner[k] < |s.prods| && HasP(s.prods[s.pOwner[k]], k))
    && (forall k :: s.consTail <= k < s.consHead ==> s.cOwner[k] < |s.cons| && HasC(s.cons[s.cOwner[k]], k))
  }

  ghost predicate Inv(cfg: Config, s: State) {
    && History(cfg, s) && Owned(cfg, s)
    && (forall p :: 0 <= p < |s.prods| ==> ProducerOk(cfg, s, p))
    && (forall c :: 0 <= c < |s.cons| ==> ConsumerOk(cfg, s, c))
  }

  /** The configurations for which the ring is safe. */
  predicate SafeConfig(cfg: Config, s: State) {
    cfg.size >= 2 && !cfg.wrap && (cfg.swapped || |s.cons| <= 1)
  }

  // ---------- it is kept by every step ----------

  lemma ProducerKeeps(cfg: Config, s: State, p: nat)
    requires SafeConfig(cfg, s) && Inv(cfg, s) && p < |s.prods|
    ensures Inv(cfg, ProducerStep(cfg, s, p))
  {
    var s' := ProducerStep(cfg, s, p);
    assert ProducerOk(cfg, s, p);
    match s.prods[p]
    case PIdle(_) =>
    case PStart(_) => LocalP(cfg, s, s', p);
    case PHead(_, _) => LocalP(cfg, s, s', p);
    case PBoth(item, head, tail, _) =>
      if tail - head + (cfg.size - 1) == 0 || s.prodHead != head {
        LocalP(cfg, s, s', p);
      } else {
        ReserveP(cfg, s, s', p);
      }
    case PReserved(_, _) => WriteP(cfg, s, s', p);
    case PWritten(_, _) => if s' != s { LocalP(cfg, s, s', p); }
    case PTurn(_, _) => PublishP(cfg, s, s', p);
  }

  /** A step that changes only the locals of `p`, which keep what they hold. */
  lemma LocalP(cfg: Config, s: State, s': State, p: nat)
    requires Inv(cfg, s) && p < |s.prods| == |s'.prods| && s' == PutP(s, p, s'.prods[p])
    requires History(cfg, s') && ProducerOk(cfg, s', p)
    requires forall k :: HasP(s.prods[p], k) ==> HasP(s'.prods[p], k)
    ensures Inv(cfg, s')
  {
    forall q | 0 <= q < |s'.prods| ensures ProducerOk(cfg, s', q) {
      if q != p { assert ProducerOk(cfg, s, q); }
    }
    forall c | 0 <= c < |s'.cons| ensures ConsumerOk(cfg, s', c) {
      assert ConsumerOk(cfg, s, c);
    }
  }

  lemma ReserveP(cfg: Config, s: State, s': State, p: nat)
    requires SafeConfig(cfg, s) && Inv(cfg, s) && p < |s.prods| && s' == ProducerStep(cfg, s, p)
    requires s.prods[p].PBoth? && s.prodHead == s.prods[p].head
        && s.prods[p].tail - s.prods[p].head + (cfg.size - 1) != 0
    ensures Inv(cfg, s')
  {
    assert ProducerOk(cfg, s, p);
    assert s'.enq[..s'.consTail] == s.enq[..s.consTail];
    forall q | 0 <= q < |s'.prods| ensures ProducerOk(cfg, s', q) {
      if q != p { assert ProducerOk(cfg, s, q); }
    }
    forall c | 0 <= c < |s'.cons| ensures ConsumerOk(cfg, s', c) {
      assert ConsumerOk(cfg, s, c);
    }
    forall k | s'.prodTail <= k < s'.prodHead ensures s'.pOwner[k] < |s'.prods| && HasP(s'.prods[s'.pOwner[k]], k) {
      if k < s.prodHead {
        assert s.pOwner[k] != p;
      }
    }
  }

  lemma WriteP(cfg: Config, s: State, s': State, p: nat)
    requires SafeConfig(cfg, s) && Inv(cfg, s) && p < |s.prods| && s' == ProducerStep(cfg, s, p)
    requires s.prods[p].PReserved?
    ensures Inv(cfg, s')
  {
    var h := s.prods[p].head;
    assert ProducerOk(cfg, s, p);
    forall k | s.consTail <= k < s.prodHead && k != h ensures s'.slots[k % cfg.size] == s.slots[k % cfg.size] {
      SlotsDiffer(cfg.size, k, h);
    }
    forall q | 0 <= q < |s'.prods| ensures ProducerOk(cfg, s', q) {
      if q != p { assert ProducerOk(cfg, s, q); }
    }
    forall c | 0 <= c < |s'.cons| ensures ConsumerOk(cfg, s', c) {
      assert ConsumerOk(cfg, s, c);
    }
  }

  lemma PublishP(cfg: Config, s: State, s': State, p: nat)
    requires SafeConfig(cfg, s) && Inv(cfg, s) && p < |s.prods| && s' == ProducerStep(cfg, s, p)
    requires s.prods[p].PTurn?
    ensures Inv(cfg, s')
  {
    var h := s.prods[p].head;
    assert ProducerOk(cfg, s, p);
    forall q | 0 <= q < |s'.prods| ensures ProducerOk(cfg, s', q) {
      if q != p { assert ProducerOk(cfg, s, q); }
    }
    forall c | 0 <= c < |s'.cons| ensures ConsumerOk(cfg, s', c) {
      assert ConsumerOk(cfg, s, c);
    }
    forall k | s'.prodTail <= k < s'.prodHead ensures HasP(s'.prods[s'.pOwner[k]], k) {
      assert HasP(s.prods[s.pOwner[k]], k) && s.pOwner[k] != p;
    }
  }

  lemma ConsumerKeeps(cfg: Config, s: State, c: nat)
    requires SafeConfig(cfg, s) && Inv(cfg, s) && c < |s.cons|
    ensures Inv(cfg, ConsumerStep(cfg, s, c))
  {
    var s' := ConsumerStep(cfg, s, c);
    assert ConsumerOk(cfg, s, c);
    match s.cons[c]
    case CIdle(_) =>
    case CStart => LocalC(cfg, s, s', c);
    case CFirst(_, _) => LocalC(cfg, s, s', c);
    case CBoth(tail, head, _) =>
      if tail - head == 0 || s.consHead != head {
        LocalC(cfg, s, s', c);
      } else {
        ReserveC(cfg, s, s', c);
      }
    case CReserved(head) => LocalC(cfg, s, s', c);
    case CRead(_, _) => if s' != s { LocalC(cfg, s, s', c); }
    case CTurn(_, _) => ReleaseC(cfg, s, s', c);
  }

  lemma LocalC(cfg: Config, s: State, s': State, c: nat)
    requires Inv(cfg, s) && c < |s.cons| == |s'.cons| && s' == PutC(s, c, s'.cons[c])
    requires History(cfg, s') && ConsumerOk(cfg, s', c)
    requires forall k :: HasC(s.cons[c], k) ==> HasC(s'.cons[c], k)
    ensures Inv(cfg, s')
  {
    forall q | 0 <= q < |s'.prods| ensures ProducerOk(cfg, s', q) {
      assert ProducerOk(cfg, s, q);
    }
    forall d | 0 <= d < |s'.cons| ensures ConsumerOk(cfg, s', d) {
      if d != c { assert ConsumerOk(cfg, s, d); }
    }
  }

  lemma ReserveC(cfg: Config, s: State, s': State, c: nat)
    requires SafeConfig(cfg, s) && Inv(cfg, s) && c < |s.cons| && s' == ConsumerStep(cfg, s, c)
    requires s.cons[c].CBoth? && s.consHead == s.cons[c].head && s.cons[c].tail != s.cons[c].head
    ensures Inv(cfg, s')
  {
    assert ConsumerOk(cfg, s, c);
    forall q | 0 <= q < |s'.prods| ensures ProducerOk(cfg, s', q) {
      assert ProducerOk(cfg, s, q);
    }
    forall d | 0 <= d < |s'.cons| ensures ConsumerOk(cfg, s', d) {
      if d != c { assert ConsumerOk(cfg, s, d); }
    }
    forall k | s'.consTail <= k < s'.consHead ensures s'.cOwner[k] < |s'.cons| && HasC(s'.cons[s'.cOwner[k]], k) {
      if k < s.consHead {
        assert s.cOwner[k] != c;
      }
    }
  }

  lemma ReleaseC(cfg: Config, s: State, s': State, c: nat)
    requires SafeConfig(cfg, s) && Inv(cfg, s) && c < |s.cons| && s' == ConsumerStep(cfg, s, c)
    requires s.cons[c].CTurn?
    ensures Inv(cfg, s')
  {
    assert ConsumerOk(cfg, s, c);
    assert s'.deq == s.enq[..s.consTail] + [s.enq[s.consTail]] == s.enq[..s'.consTail];
    forall q | 0 <= q < |s'.prods| ensures ProducerOk(cfg, s', q) {
      assert ProducerOk(cfg, s, q);
    }
    forall d | 0 <= d < |s'.cons| ensures ConsumerOk(cfg, s', d) {
      if d != c { assert ConsumerOk(cfg, s, d); }
    }
    forall k | s'.consTail <= k < s'.consHead ensures HasC(s'.cons[s'.cOwner[k]], k) {
      assert HasC(s.cons[s.cOwner[k]], k) && s.cOwner[k] != c;
    }
  }

  lemma StepKeeps(cfg: Config, s: State, e: Event)
    requires SafeConfig(cfg, s) && Inv(cfg, s)
    ensures Inv(cfg, Step(cfg, s, e)) && SafeConfig(cfg, Step(cfg, s, e))
  {
    match e
    case Invoke(p, item) =>
      if p < |s.prods| && s.prods[p].PIdle? { LocalP(cfg, s, Step(cfg, s, e), p); }
    case Produce(p) => if p < |s.prods| { ProducerKeeps(cfg, s, p); }
    case Request(c) =>
      if c < |s.cons| && s.cons[c].CIdle? { LocalC(cfg, s, Step(cfg, s, e), c); }
    case Consume(c) => if c < |s.cons| { ConsumerKeeps(cfg, s, c); }
  }

  /** Every state of every run satisfies the invariant. */
  lemma {:induction false} RunSafe(cfg: Config, producers: nat, consumers: nat, es: seq<Event>)
    requires cfg.size >= 2 && !cfg.wrap && (cfg.swapped || consumers <= 1)
    ensures var s := Run(cfg, Init(cfg, producers, consumers), es);
      Inv(cfg, s) && SafeConfig(cfg, s)
  {
    if es != [] {
      RunSafe(cfg, producers, consumers, es[..|es| - 1]);
      StepKeeps(cfg, Run(cfg, Init(cfg, producers, consumers), es[..|es| - 1]), es[|es| - 1]);
    }
  }
}
