/** The circular doubly linked list of net_common/net_common_list.h, linking the nodes of net_common_struct.h. */
module Lists {
  import opened Bytes

  /**
   `struct net_common_ring_node` with its embedded `struct list_head`.  A list head that stands
   alone is such an object too, of which only the links are in use.
   */
  class RequestNode {
    var next: RequestNode?
    var prev: RequestNode?

    const request: array<byte>
    const shost: array<byte>
    var datalen: int
    var hostLen: int
    var iden: uint16
    var ipv4: uint32

    /** As after `memset`. */
    constructor ()
      ensures fresh(request) && request.Length == 2048 && (forall i :: 0 <= i < 2048 ==> request[i] == 0)
      ensures fresh(shost) && shost.Length == 512 && (forall i :: 0 <= i < 512 ==> shost[i] == 0)
      ensures request != shost
      ensures next == null && prev == null && datalen == 0 && hostLen == 0 && iden == 0 && ipv4 == 0
    {
      next, prev := null, null;
      request := new byte[2048](_ => 0);
      shost := new byte[512](_ => 0);
      datalen, hostLen, iden, ipv4 := 0, 0, 0, 0;
    }
  }

  /** Position `i` on the way around: the head at both ends, the entries between. */
  ghost function Nth(head: RequestNode, items: seq<RequestNode>, i: nat): RequestNode
    requires i <= |items| + 1
  {
    if 1 <= i <= |items| then items[i - 1] else head
  }

  /** The links of `head` lead around `items` in both directions. */
  ghost predicate Circular(head: RequestNode, items: seq<RequestNode>)
    reads {head}`next, {head}`prev, items`next, items`prev
  {
    && head !in items && (forall i, j :: 0 <= i < j < |items| ==> items[i] != items[j])
    && forall i :: 0 <= i <= |items| ==>
         Nth(head, items, i).next == Nth(head, items, i + 1) && Nth(head, items, i + 1).prev == Nth(head, items, i)
  }

  /** `INIT_LIST_HEAD`. */
  method InitListHead(list: RequestNode)
    modifies list`next, list`prev
    ensures Circular(list, [])
  {
    list.next := list;
    list.prev := list;
  }

  /** `__list_add`. */
  method ListAdd(node: RequestNode, prev: RequestNode, next: RequestNode)
    requires node != prev && node != next
    modifies node`next, node`prev, prev`next, next`prev
    ensures next.prev == node && node.next == next && node.prev == prev && prev.next == node
  {
    next.prev := node;
    node.next := next;
    node.prev := prev;
    prev.next := node;
  }

  /** `list_add_tail`. */
  method ListAddTail(node: RequestNode, head: RequestNode, ghost items: seq<RequestNode>)
    requires Circular(head, items) && node != head && node !in items
    modifies {node, head}`next, {node, head}`prev, items`next, items`prev
    ensures Circular(head, items + [node])
  {
    assert Nth(head, items, |items| + 1).prev == Nth(head, items, |items|);
    ListAdd(node, head.prev, head);
    ghost var longer := items + [node];
    forall i | 0 <= i <= |longer|
      ensures Nth(head, longer, i).next == Nth(head, longer, i + 1)
          && Nth(head, longer, i + 1).prev == Nth(head, longer, i)
    {
      if i < |items| {
        assert old(Nth(head, items, i).next == Nth(head, items, i + 1)
          && Nth(head, items, i + 1).prev == Nth(head, items, i));
      }
    }
  }

  /** `list_del`, of the entry at place `k`. */
  method ListDel(entry: RequestNode, ghost head: RequestNode, ghost items: seq<RequestNode>, ghost k: nat)
    requires Circular(head, items) && k < |items| && items[k] == entry
    modifies {head}`next, {head}`prev, items`next, items`prev
    ensures Circular(head, items[..k] + items[k + 1..])
    ensures entry.next == null && entry.prev == null
  {
    assert Nth(head, items, k + 1) == entry;
    assert entry.prev == Nth(head, items, k) && entry.next == Nth(head, items, k + 2);
    var prev, next := entry.prev, entry.next;
    next.prev := prev;
    prev.next := next;
    entry.next := null;
    entry.prev := null;
    ghost var shorter := items[..k] + items[k + 1..];
    forall i | 0 <= i <= |shorter|
      ensures Nth(head, shorter, i).next == Nth(head, shorter, i + 1)
          && Nth(head, shorter, i + 1).prev == Nth(head, shorter, i)
    {
      var j := if i <= k then i else i + 1;
      assert Nth(head, shorter, i) == Nth(head, items, j);
      assert old(Nth(head, items, j).next == Nth(head, items, j + 1)
        && Nth(head, items, j + 1).prev == Nth(head, items, j));
      if i == k {
        assert old(Nth(head, items, k + 1).next == Nth(head, items, k + 2));
      }
    }
  }
}
