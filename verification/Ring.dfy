/**
 The lock-free ring of net_ring/net_ring_common.c as a transition system: any number
 of producers and consumers, each with its program counter and locals, one access
 to shared memory a step.  A schedule is a sequence of events.
 */
module Ring {
  import opened Bytes

  /** The address of a queued node; 0 is NULL. */
  type Item = nat

  /**
   `size` slots.  `wrap`: the counters are the 32-bit words of the program, else unbounded.
   `swapped`: the variant in which `dequeue` loads `cons.head` before `prod.tail`.
   */
  datatype Config = Config(size: nat, wrap: bool, swapped: bool)

  // Where a thread stands in `enqueue`.  The fields `full` and `empty` below record, for
  // the statement of properties only, whether the ring was so at the load named there.
  datatype Producer =
    | PIdle(ret: int)                                        // outside, with the result of the last call
    | PStart(item: Item)                                     // about to load prod.head
    | PHead(item: Item, head: int)                           // about to load cons.tail
    | PBoth(item: Item, head: int, tail: int, full: bool)    // about to evaluate the guard and to CAS
    | PReserved(item: Item, head: int)                       // about to write the slot
    | PWritten(item: Item, head: int)                        // spinning on prod.tail
    | PTurn(item: Item, head: int)                           // about to store prod.tail

  datatype Consumer =
    | CIdle(ret: int)
    | CStart                                                 // about to do the first load
    | CFirst(value: int, empty: bool)                        // about to do the second load
    | CBoth(tail: int, head: int, empty: bool)               // about to evaluate the guard and to CAS
    | CReserved(head: int)                                   // about to read the slot
    | CRead(head: int, item: Item)                           // spinning on cons.tail
    | CTurn(head: int, item: Item)                           // about to store cons.tail

  /**
   The shared memory, the threads, and the history of the run: `enq` the items in the
   order of their successful CAS on prod.head, `deq` those handed out, in the order
   of the stores to cons.tail, and who reserved which counter.
   */
  datatype State = State(
    prodHead: int, prodTail: int, consHead: int, consTail: int,
    slots: seq<Item>, prods: seq<Producer>, cons: seq<Consumer>,
    enq: seq<Item>, deq: seq<Item>, pOwner: seq<nat>, cOwner: seq<nat>)

  datatype Event = Invoke(p: nat, item: Item) | Produce(p: nat) | Request(c: nat) | Consume(c: nat)

  /** A counter as it is stored. */
  function Norm(cfg: Config, x: int): int {
    if cfg.wrap then x % TWO32 else x
  }

  ghost predicate Sized(cfg: Config, s: State) {
    cfg.size > 0 && |s.slots| == cfg.size
  }

  function Init(cfg: Config, producers: nat, consumers: nat): State {
    State(0, 0, 0, 0, seq(cfg.size, _ => 0), seq(producers, _ => PIdle(0)), seq(consumers, _ => CIdle(0)), [], [], [],
      [])
  }

  function PutP(s: State, p: nat, pc: Producer): State
    requires p < |s.prods|
  {
    s.(prods := s.prods[p := pc])
  }

  function PutC(s: State, c: nat, pc: Consumer): State
    requires c < |s.cons|
  {
    s.(cons := s.cons[c := pc])
  }

  /** The next step of `enqueue` in thread `p`. */
  function ProducerStep(cfg: Config, s: State, p: nat): (s': State)
    requires Sized(cfg, s) && p < |s.prods|
    ensures |s'.slots| == |s.slots| && |s'.prods| == |s.prods| && |s'.cons| == |s.cons|
  {
    match s.prods[p]
    case PIdle(_) => s
    case PStart(item) => PutP(s, p, PHead(item, s.prodHead))
    case PHead(item, head) =>
      PutP(s, p, PBoth(item, head, s.consTail, Norm(cfg, s.prodHead - s.consTail) == cfg.size - 1))
    case PBoth(item, head, tail, _) =>
      if Norm(cfg, tail - head + (cfg.size - 1)) == 0 then PutP(s, p, PIdle(-1))
      else if s.prodHead != head then PutP(s, p, PStart(item))
      else PutP(s, p, PReserved(item, head)).(prodHead := Norm(cfg, head + 1), enq := s.enq + [item],
        pOwner := s.pOwner + [p])
    case PReserved(item, head) => PutP(s, p, PWritten(item, head)).(slots := s.slots[head % cfg.size := item])
    case PWritten(item, head) => if s.prodTail != head then s else PutP(s, p, PTurn(item, head))
    case PTurn(_, head) => PutP(s, p, PIdle(0)).(prodTail := Norm(cfg, head + 1))
  }

  /** The next step of `dequeue` in thread `c`. */
  function ConsumerStep(cfg: Config, s: State, c: nat): (s': State)
    requires Sized(cfg, s) && c < |s.cons|
    ensures |s'.slots| == |s.slots| && |s'.prods| == |s.prods| && |s'.cons| == |s.cons|
  {
    match s.cons[c]
    case CIdle(_) => s
    case CStart =>
      PutC(s, c, if cfg.swapped then CFirst(s.consHead, false) else CFirst(s.prodTail, s.prodTail == s.consHead))
    case CFirst(v, empty) =>
      PutC(s, c, if cfg.swapped then CBoth(s.prodTail, v, s.prodTail == s.consHead) else CBoth(v, s.consHead, empty))
    case CBoth(tail, head, _) =>
      if Norm(cfg, tail - head) == 0 then PutC(s, c, CIdle(-1))
      else if s.consHead != head then PutC(s, c, CStart)
      else PutC(s, c, CReserved(head)).(consHead := Norm(cfg, head + 1), cOwner := s.cOwner + [c])
    case CReserved(head) => PutC(s, c, CRead(head, s.slots[head % cfg.size]))
    case CRead(head, item) => if s.consTail != head then s else PutC(s, c, CTurn(head, item))
    case CTurn(head, item) => PutC(s, c, CIdle(0)).(consTail := Norm(cfg, head + 1), deq := s.deq + [item])
  }

  /** One event; those that name no thread, or a busy one for a new call, change nothing. */
  function Step(cfg: Config, s: State, e: Event): (s': State)
    requires Sized(cfg, s)
    ensures Sized(cfg, s') && |s'.prods| == |s.prods| && |s'.cons| == |s.cons|
  {
    match e
    case Invoke(p, item) => if p < |s.prods| && s.prods[p].PIdle? then PutP(s, p, PStart(item)) else s
    case Produce(p) => if p < |s.prods| then ProducerStep(cfg, s, p) else s
    case Request(c) => if c < |s.cons| && s.cons[c].CIdle? then PutC(s, c, CStart) else s
    case Consume(c) => if c < |s.cons| then ConsumerStep(cfg, s, c) else s
  }

  function Run(cfg: Config, s: State, es: seq<Event>): (s': State)
    requires Sized(cfg, s)
    ensures Sized(cfg, s') && |s'.prods| == |s.prods| && |s'.cons| == |s.cons|
  {
    if es == [] then s else Step(cfg, Run(cfg, s, es[..|es| - 1]), es[|es| - 1])
  }
}
