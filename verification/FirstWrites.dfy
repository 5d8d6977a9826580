/** The map from names to addresses that the cache stands for: the first write for a name wins. */
module FirstWrites {
  import opened Bytes
  import opened Names

  datatype Record = Record(domain: Name, ipv4: uint32)

  function Store(m: map<Name, uint32>, r: Record): map<Name, uint32> {
    if r.domain in m then m else m[r.domain := r.ipv4]
  }

  function StoreAll(m: map<Name, uint32>, rs: seq<Record>): map<Name, uint32> {
    if rs == [] then m else Store(StoreAll(m, rs[..|rs| - 1]), rs[|rs| - 1])
  }

  function Lookup(m: map<Name, uint32>, d: Name): uint32 {
    if d in m then m[d] else 0
  }

  lemma StoreAllNone()
    ensures StoreAll(map[], []) == map[]
  {
  }

  lemma StoreAllNext(rs: seq<Record>, i: nat)
    requires i < |rs|
    ensures StoreAll(map[], rs[..i + 1]) == Store(StoreAll(map[], rs[..i]), Record(rs[i].domain, rs[i].ipv4))
  {
    assert rs[..i + 1][..i] == rs[..i];
  }

  /** After a series of inserts a name has the address of its first record, names without a record have none. */
  lemma {:induction false} FirstWriteWins(rs: seq<Record>, d: Name)
    ensures d in StoreAll(map[], rs) <==> exists i :: 0 <= i < |rs| && rs[i].domain == d
    ensures forall i :: 0 <= i < |rs| && rs[i].domain == d && (forall j :: 0 <= j < i ==> rs[j].domain != d) ==>
              StoreAll(map[], rs)[d] == rs[i].ipv4
  {
    if rs != [] {
      var last := |rs| - 1;
      FirstWriteWins(rs[..last], d);
      var m := StoreAll(map[], rs[..last]);
      if d in m {
        var i :| 0 <= i < last && rs[..last][i].domain == d;
        assert rs[i].domain == d;
      } else {
        forall i | 0 <= i < last ensures rs[i].domain != d {
          assert rs[..last][i].domain == rs[i].domain;
        }
        if rs[last].domain == d { assert 0 <= last < |rs|; }
      }
      forall i | 0 <= i < |rs| && rs[i].domain == d && forall j :: 0 <= j < i ==> rs[j].domain != d
        ensures StoreAll(map[], rs)[d] == rs[i].ipv4
      {
        if i < last {
          assert rs[..last][i] == rs[i];
        }
      }
    }
  }
}
