/** The three readers and writers of the message format together: parser, answer writer and answer walk. */
module RoundTrip {
  import opened Bytes
  import opened Names
  import opened Wire
  import opened Lists
  import QueryParser
  import Answer

  /**
   What message `b` becomes with `ip` for an answer behind its `n` octets: QR and RA are set, one answer is announced
   and appended, and every other bit of the header and all of the question are kept.
   */
  ghost predicate Answered(b: seq<byte>, a: seq<byte>, n: nat, ip: uint32) {
    && HEADER <= n && n + 16 <= |a| == |b|
    && a[..2] == b[..2] && a[2] / 128 == 1 && a[2] % 128 == b[2] % 128 && a[3] / 128 == 1 && a[3] % 128 == b[3] % 128
    && a[4..6] == b[4..6] && a[6..8] == [0, 1] && a[8..n] == b[8..n]
    && a[n..n + 8] == [0xC0, 0x0C, 0, 1, 0, 1, 0, 0x80] && a[n + 10..n + 16] == [0, 4] + AddressBytes(ip)
  }

  /**
   A query that ends at its question is parsed, answered with any address, and walked as the forwarder would walk
   the reply: the address comes back, and id, name and question are those of the query.
   */
  method ParseReplyWalk(node: RequestNode, ip: uint32, ghost ls: seq<Label>) returns (accepted: bool, walked: uint32)
    requires node.request.Length == REQUEST_LEN && node.shost.Length == DOMAIN_LEN && node.request != node.shost
    requires Holds(node.shost[..], [])
    requires QueryParser.HeaderAccepted(node.request[..]) && Char(node.request[HEADER]) > 0 ==>
               QueryParser.HasName(node.request[..], HEADER, ls)
                 && node.datalen == HEADER + |QName(ls)| + 4 <= REQUEST_LEN - 16
    modifies node`iden, node`hostLen, node`ipv4, node`datalen, node.shost, node.request
    ensures accepted <==> QueryParser.IsQuery(old(node.request[..]), ls)
    ensures accepted ==> walked == ip
    ensures accepted ==> node.datalen == old(node.datalen) + 16 <= REQUEST_LEN
    ensures accepted ==> GetId(node.request[..]) == GetId(old(node.request[..])) == node.iden
    ensures accepted ==> node.request[HEADER..old(node.datalen)] == old(node.request[HEADER..node.datalen])
    ensures accepted ==> Holds(node.shost[..], Dotted(ls))
    ensures accepted ==> Answered(old(node.request[..]), node.request[..], old(node.datalen), ip)
  {
    walked := 0;
    accepted := QueryParser.ReadQuestion(node, ls);
    if !accepted {
      return;
    }
    ghost var n, b := node.datalen, node.request[..];
    node.ipv4 := ip;
    walked := Answer.WriteThenWalk(node, b);
    Answer.ReplyKeeps(b[..n], ip, b[n + 8], b[n + 9]);
    KeptBehindHeader(node.request[..], b, n, Answer.Reply(b[..n], ip, b[n + 8], b[n + 9]), ip,
      b[n + 8], b[n + 9]);
  }

  /** `write_back`, in octets. */
  method Reply(node: RequestNode)
    requires node.request.Length == REQUEST_LEN && HEADER <= node.datalen <= REQUEST_LEN - 16
    modifies node`datalen, node.request
    ensures node.datalen == old(node.datalen) + 16
    ensures Answered(old(node.request[..]), node.request[..], old(node.datalen), node.ipv4)
  {
    ghost var n, b := node.datalen, node.request[..];
    Answer.WriteBack(node);
    Answer.ReplyKeeps(b[..n], node.ipv4, b[n + 8], b[n + 9]);
    KeptBehindHeader(node.request[..], b, n, Answer.Reply(b[..n], node.ipv4, b[n + 8], b[n + 9]), node.ipv4,
      b[n + 8], b[n + 9]);
  }

  lemma KeptBehindHeader(a: seq<byte>, b: seq<byte>, n: nat, r: seq<byte>, ip: uint32, ttl2: byte, ttl3: byte)
    requires |a| == |b| && HEADER <= n && n + 16 <= |b| && a[..n + 16] == r
    requires |r| == n + 16 && r[..2] == b[..n][..2] && r[8..n] == b[..n][8..] && r[4..6] == b[..n][4..6]
    requires r[2] / 128 == 1 && r[2] % 128 == b[2] % 128 && r[3] / 128 == 1 && r[3] % 128 == b[3] % 128
    requires r[6..8] == [0, 1]
        && r[n..] == [0xC0, 0x0C, 0, 1, 0, 1, 0, 0x80, ttl2, ttl3, 0, 4] + AddressBytes(ip)
    ensures GetId(a) == GetId(b) && a[HEADER..n] == b[HEADER..n] && Answered(b, a, n, ip)
  {
    assert forall k :: 0 <= k < n + 16 ==> a[k] == r[k];
    assert a[..2] == r[..2] && b[..n][..2] == b[..2] && b[..n][4..6] == b[4..6] && b[..n][8..] == b[8..n];
    SameId(a, b);
    assert a[8..n] == r[8..n] && a[4..6] == r[4..6] && a[6..8] == r[6..8];
    assert a[HEADER..n] == a[8..n][4..] && b[HEADER..n] == b[8..n][4..];
    var e := [0xC0, 0x0C, 0, 1, 0, 1, 0, 0x80, ttl2, ttl3, 0, 4] + AddressBytes(ip);
    assert a[n..n + 8] == r[n..][..8] == e[..8] && a[n + 10..n + 16] == r[n..][10..] == e[10..];
  }
}
