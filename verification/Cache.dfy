/** The bucket array of net_hashmap/net_hashmap_core.c as a map in which the first write wins. */
module Cache {
  import opened Bytes
  import opened Names
  import opened RbTheory
  import opened RbTree
  import opened HashMap
  import opened FirstWrites

  /** Bucket `h`: a tree of names with that hash, bound to their addresses in `m`. */
  ghost predicate BucketIn(root: RbRoot, h: int, m: map<Name, uint32>)
    reads root, root.nodes
  {
    && Bucket(root)
    && forall n :: n in root.nodes ==> BucketOf(n.domain) == h && n.domain in m && m[n.domain] == n.ipv4
  }

  lemma BucketWidened(root: RbRoot, h: int, m: map<Name, uint32>, r: Record)
    requires BucketIn(root, h, m)
    ensures BucketIn(root, h, Store(m, r))
  {
  }

  lemma EmptyBucket(root: RbRoot, h: int)
    requires root.Valid() && root.tree == Leaf && root.nodes == {}
    ensures BucketIn(root, h, map[])
  {
    assert RB(Leaf, 0);
  }

  class HashTable {
    var buckets: array<RbRoot>
    ghost var repr: set<object>
    ghost var contents: map<Name, uint32>

    ghost predicate Valid()
      reads this, repr
    {
      && this in repr && buckets in repr && buckets.Length == ARRAY_SIZE
      && (forall h :: 0 <= h < ARRAY_SIZE ==> buckets[h] in repr && buckets[h].nodes <= repr)
      && (forall g, h :: 0 <= g < h < ARRAY_SIZE ==> buckets[g] != buckets[h])
      && (forall h :: 0 <= h < ARRAY_SIZE ==> BucketIn(buckets[h], h, contents))
      && (forall d :: d in contents ==> IsName(d) && Holds(buckets[BucketOf(d)], d))
    }

    static method NewRoots() returns (a: array<RbRoot>)
      ensures fresh(a) && a.Length == ARRAY_SIZE
      ensures forall h :: 0 <= h < a.Length ==> fresh(a[h]) && a[h].nodes == {} && a[h].tree == Leaf && a[h].Valid()
      ensures forall g, h :: 0 <= g < h < a.Length ==> a[g] != a[h]
    {
      var root := new RbRoot();
      a := new RbRoot[ARRAY_SIZE](i => root);
      var i := 0;
      while i < ARRAY_SIZE
        invariant 0 <= i <= ARRAY_SIZE
        invariant forall h :: 0 <= h < i ==> fresh(a[h]) && a[h].nodes == {} && a[h].tree == Leaf && a[h].Valid()
        invariant forall g, h :: 0 <= g < h < i ==> a[g] != a[h]
      {
        root := new RbRoot();
        a[i] := root;
        i := i + 1;
      }
    }

    /** `init`. */
    constructor ()
      ensures Valid() && fresh(repr) && contents == map[]
    {
      var roots := NewRoots();
      buckets := roots;
      contents := map[];
      new;
      repr := {this, buckets} + set h | 0 <= h < buckets.Length :: buckets[h];
      forall h | 0 <= h < ARRAY_SIZE ensures BucketIn(buckets[h], h, contents) {
        EmptyBucket(buckets[h], h);
      }
    }

    lemma BucketsApart(h: int, g: int)
      requires Valid() && 0 <= h < ARRAY_SIZE && 0 <= g < ARRAY_SIZE && g != h
      ensures buckets[g] != buckets[h] && buckets[g].nodes !! buckets[h].nodes
    {
      hide HashMap.Bucket;
      assert BucketIn(buckets[g], g, contents) && BucketIn(buckets[h], h, contents);
    }

    /** The insertion under the lock of bucket `h` leaves all other buckets alone. */
    method InsertIn(h: nat, node: RbNode) returns (ret: int)
      requires Valid() && h < ARRAY_SIZE && node !in repr && IsName(node.domain)
      modifies buckets[h], buckets[h].nodes, node
      ensures Bucket(buckets[h])
      ensures if old(Holds(buckets[h], node.domain)) then ret == -1 && buckets[h].nodes == old(buckets[h].nodes)
              else ret == 0 && buckets[h].nodes == old(buckets[h].nodes) + {node}
      ensures forall g :: 0 <= g < ARRAY_SIZE && g != h ==>
                buckets[g].nodes == old(buckets[g].nodes) && BucketIn(buckets[g], g, contents)
    {
      hide HashMap.Bucket;
      forall g | 0 <= g < ARRAY_SIZE && g != h
        ensures buckets[g] != buckets[h] && buckets[g].nodes !! buckets[h].nodes
      {
        BucketsApart(h, g);
      }
      assert BucketIn(buckets[h], h, contents);
      ghost var steps;
      ret, steps := InsideInsert(buckets[h], node);
    }

    /** The same with the bindings brought up to date. */
    method InsertBinding(h: nat, node: RbNode) returns (ret: int)
      requires Valid() && h == BucketOf(node.domain) && node !in repr && IsName(node.domain)
      modifies buckets[h], buckets[h].nodes, node, this`contents
      ensures contents == Store(old(contents), Record(node.domain, node.ipv4))
      ensures ret == if node.domain in old(contents) then -1 else 0
      ensures forall g :: 0 <= g < ARRAY_SIZE ==> BucketIn(buckets[g], g, contents)
      ensures forall g :: 0 <= g < ARRAY_SIZE ==>
                old(buckets[g].nodes) <= buckets[g].nodes <= old(buckets[g].nodes) + {node}
      ensures node.domain !in old(contents) ==> node in buckets[h].nodes
    {
      hide HashMap.Bucket;
      ghost var r := Record(node.domain, node.ipv4);
      assert BucketIn(buckets[h], h, contents);
      assert Holds(buckets[h], node.domain) <==> node.domain in contents;
      ret := InsertIn(h, node);
      contents := Store(contents, r);
      forall g | 0 <= g < ARRAY_SIZE && g != h
        ensures BucketIn(buckets[g], g, contents)
      {
        BucketWidened(buckets[g], g, old(contents), r);
      }
    }

    method InsertNode(h: nat, node: RbNode) returns (ret: int)
      requires Valid() && IsName(node.domain) && h == BucketOf(node.domain) && node !in repr
      modifies repr, node
      ensures Valid() && repr == old(repr) + {node}
      ensures contents == Store(old(contents), Record(node.domain, node.ipv4))
      ensures ret == if node.domain in old(contents) then -1 else 0
    {
      hide HashMap.Bucket, BucketIn;
      ret := InsertBinding(h, node);
      repr := repr + {node};
      forall d | d in contents
        ensures IsName(d) && Holds(buckets[BucketOf(d)], d)
      {
        if d in old(contents) {
          var n :| n in old(buckets[BucketOf(d)].nodes) && n.domain == d;
          assert n in buckets[BucketOf(d)].nodes;
        }
      }
    }

    /** `insert`. */
    method Insert(domain: Name, domainLen: nat, ipv4: uint32) returns (ret: int)
      requires Valid() && IsName(domain) && domainLen == |domain|
      modifies repr
      ensures Valid() && fresh(repr - old(repr))
      ensures contents == Store(old(contents), Record(domain, ipv4))
      ensures ret == if domain in old(contents) then -1 else 0
    {
      hide HashMap.Bucket;
      var node := new RbNode(domain, ipv4);
      var h := InsideHash(domain, domainLen);
      ret := InsertNode(h, node);
    }

    /** `search`. */
    method Search(domain: Name, domainLen: nat) returns (ipv4: uint32)
      requires Valid() && IsName(domain) && domainLen == |domain|
      ensures ipv4 == Lookup(contents, domain)
    {
      var h := InsideHash(domain, domainLen);
      ghost var steps;
      ipv4, steps := InsideSearch(buckets[h], domain);
    }

    /** A series of inserts into an empty cache, as at start-up from the configured records. */
    method InsertAll(rs: seq<Record>)
      requires Valid() && contents == map[] && forall i :: 0 <= i < |rs| ==> IsName(rs[i].domain)
      modifies repr
      ensures Valid() && fresh(repr - old(repr)) && contents == StoreAll(map[], rs)
    {
      hide *;
      var i := 0;
      StoreAllNone();
      assert rs[..0] == [];
      while i < |rs|
        invariant 0 <= i <= |rs| && Valid() && fresh(repr - old(repr))
        invariant contents == StoreAll(map[], rs[..i])
      {
        var ret := Insert(rs[i].domain, |rs[i].domain|, rs[i].ipv4);
        StoreAllNext(rs, i);
        i := i + 1;
      }
      assert rs[..i] == rs;
    }
  }
}
