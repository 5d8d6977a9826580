/**
 The ring object of net_ring/net_ring_common.c with its 32-bit counters, as one thread
 sees it while no other call is under way; calls under way at once are the matter of `Ring`.
 */
module NetRing {
  import opened Bytes
  import opened Ring
  import opened RingSafety
  import opened RingTheorems
  import opened RingWrap

  /** What a queue with room for `size - 1` items holds after one more was offered to it. */
  function Offered(q: seq<Item>, size: nat, item: Item): seq<Item> {
    if |q| + 1 == size then q else q + [item]
  }

  class NetRing {
    const size: nat
    const ring: array<Item>
    var prodHead: uint32
    var prodTail: uint32
    var consHead: uint32
    var consTail: uint32
    ghost const words: nat       // how often the slots fit into 2^32
    ghost var taken: nat         // items taken out so far
    ghost var contents: seq<Item>

    ghost predicate Valid()
      reads this, ring
    {
      && ring.Length == size && size >= 2 && words >= 2 && size * words == TWO32
      && |contents| <= size - 1
      && consHead == consTail == Word(taken) && prodHead == prodTail == Word(taken + |contents|)
      && forall k :: 0 <= k < |contents| ==> ring[(taken + k) % size] == contents[k]
    }

    /** `create` and `init_npool`. */
    constructor (nem: nat)
      requires nem < 0x2000_0000
      ensures Valid() && contents == [] && nem < size && fresh(ring)
    {
      var cfg;
      ghost var q;
      cfg, q := Create(nem);
      size := cfg.size;
      ring := new Item[cfg.size];
      words := q;
      prodHead, prodTail, consHead, consTail := 0, 0, 0, 0;
      taken, contents := 0, [];
      new;
      var i := 0;
      while i < size
        invariant 0 <= i <= size && contents == []
        invariant prodHead == prodTail == consHead == consTail == 0 == taken
        modifies ring
      {
        ring[i] := 0;
        i := i + 1;
      }
    }

    /** `enqueue`: -1 and no change when all `mask` usable slots are taken. */
    method Enqueue(item: Item) returns (ret: int)
      requires Valid()
      modifies this, ring
      ensures Valid()
      ensures ret == (if old(|contents|) == size - 1 then -1 else 0) && contents == Offered(old(contents), size, item)
    {
      hide Word;
      var mask := size - 1;
      ghost var n := |contents|;
      GuardOfWords(size, words, taken, n);
      var head, next, success := 0, 0, false;
      while !success
        invariant success ==> n < mask && head == Word(taken + n) && next == Word(head + 1) && prodHead == next
        invariant !success ==> prodHead == old(prodHead)
        modifies this`prodHead
        decreases if success then 0 else 1
      {
        head := prodHead;
        var tail := consTail;
        var free := Word(tail - head + mask);
        if free <= 0 {
          return -1;
        }
        next := Word(head + 1);
        if prodHead == head {
          prodHead := next;
          success := true;
        }
      }
      SlotOfWord(size, words, taken + n);
      ring[head % size] := item;
      forall k | 0 <= k < n ensures ring[(taken + k) % size] == contents[k] {
        SlotsDiffer(size, taken + k, taken + n);
      }
      WordOfNext(taken + n);
      assert prodTail == head;   // so that the spin loop ends at once
      prodTail := next;
      contents := contents + [item];
      ret := 0;
    }

    /** `dequeue`: -1 when there is nothing to take, else the oldest item. */
    method Dequeue() returns (ret: int, item: Item)
      requires Valid()
      modifies this
      ensures Valid()
      ensures if old(contents) == [] then ret == -1 && contents == []
              else ret == 0 && old(contents) == [item] + contents
    {
      hide Word;
      ghost var n := |contents|;
      item := 0;
      GuardOfWords(size, words, taken, n);
      var head, next, success := 0, 0, false;
      while !success
        invariant success ==> n > 0 && head == Word(taken) && next == Word(head + 1) && consHead == next
        invariant !success ==> consHead == old(consHead)
        modifies this`consHead
        decreases if success then 0 else 1
      {
        var tail := prodTail;
        head := consHead;
        var busy := Word(tail - head);
        if busy <= 0 {
          return -1, 0;
        }
        next := Word(head + 1);
        if consHead == head {
          consHead := next;
          success := true;
        }
      }
      SlotOfWord(size, words, taken);
      item := ring[head % size];
      assert ring[(taken + 0) % size] == contents[0];
      WordOfNext(taken);
      assert consTail == head;   // so that the spin loop ends at once
      consTail := next;
      forall k | 0 <= k < n - 1 ensures ring[(taken + 1 + k) % size] == contents[1..][k] {
        assert ring[(taken + (k + 1)) % size] == contents[k + 1];
      }
      taken, contents := taken + 1, contents[1..];
      ret := 0;
    }
  }

  /** The guards computed on words are the numbers of free and of busy slots. */
  lemma GuardOfWords(size: nat, words: nat, taken: nat, n: nat)
    requires size >= 2 && words >= 2 && size * words == TWO32 && n <= size - 1
    ensures Word(Word(taken) - Word(taken + n) + (size - 1)) == size - 1 - n
    ensures Word(Word(taken + n) - Word(taken)) == n
  {
    SizeFits(Config(size, true, false), words);
    WordOfDifference(taken, taken + n, size - 1);
    WordOfDifference(taken + n, taken, 0);
    SmallWord(size - 1 - n);
    SmallWord(n);
    hide Word;
  }
}
