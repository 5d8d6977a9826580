/** The request parser of net_work/net_work.c: header checks, host name, and the way the request takes. */
module QueryParser {
  import opened Bytes
  import opened Names
  import opened Wire
  import opened Lists
  import opened FirstWrites
  import opened Cache
  import NetRing
  import Ring

  const TYPE_A := 1

  /** Where the parser sends a request: nowhere, to the upstream server, or back with an address. */
  datatype Route = Rejected | ToForward | ToBundle

  /** One question, no answers and authorities, at most one additional record. */
  predicate HeaderAccepted(b: seq<byte>)
    requires |b| == REQUEST_LEN
  {
    GetNet16(b, 4) == 1 && GetNet16(b, 6) == 0 && GetNet16(b, 8) == 0 && GetNet16(b, 10) <= 1
  }

  /** The octets from `at` on begin with the name of `ls` and two more octets, and the dotted name fits `shost`. */
  ghost predicate HasName(b: seq<byte>, at: nat, ls: seq<Label>) {
    && AreLabels(ls) && |Dotted(ls)| < DOMAIN_LEN
    && at + |QName(ls)| + 2 <= |b| && b[at..at + |QName(ls)|] == QName(ls)
  }

  /** A well-formed header, a name that is not the root, and type A. */
  ghost predicate Accepted(b: seq<byte>, ls: seq<Label>)
    requires |b| == REQUEST_LEN
    requires HeaderAccepted(b) && Char(b[HEADER]) > 0 ==> HasName(b, HEADER, ls)
  {
    HeaderAccepted(b) && Char(b[HEADER]) > 0 && GetNet16(b, HEADER + |QName(ls)|) == TYPE_A
  }

  /** What the parser has to do with request `b`. */
  ghost function RouteOf(b: seq<byte>, ls: seq<Label>, cached: uint32): Route
    requires |b| == REQUEST_LEN
    requires HeaderAccepted(b) && Char(b[HEADER]) > 0 ==> HasName(b, HEADER, ls)
  {
    if !Accepted(b, ls) then Rejected
    else if cached == 0 then ToForward
    else ToBundle
  }

  // ---------- which messages are accepted, octet by octet ----------

  /**
   A query of RFC 1035 section 4.1: two octets of id, two of flags, the counts, a name that is not the root, and type A.
   One question is asked, nothing is answered, and there may be one additional record.
   */
  ghost predicate IsQuery(b: seq<byte>, ls: seq<Label>) {
    && |b| >= 12 && (b[4..12] == [0, 1, 0, 0, 0, 0, 0, 0] || b[4..12] == [0, 1, 0, 0, 0, 0, 0, 1])
    && ls != [] && HasName(b, 12, ls) && b[12 + |QName(ls)|..14 + |QName(ls)|] == [0, 1]
  }

  lemma AcceptedIsQuery(b: seq<byte>, ls: seq<Label>)
    requires |b| == REQUEST_LEN
    requires HeaderAccepted(b) && Char(b[HEADER]) > 0 ==> HasName(b, HEADER, ls)
    ensures Accepted(b, ls) <==> IsQuery(b, ls)
  {
    hide Dotted;
    var c := b[4..12];
    assert c == [b[4], b[5], b[6], b[7], b[8], b[9], b[10], b[11]];
    if HasName(b, HEADER, ls) {
      var n := 12 + |QName(ls)|;
      assert b[n..n + 2] == [b[n], b[n + 1]];
      assert b[12] == b[12..n][0] == QName(ls)[0];
    }
  }

  /**
   Of all messages with a well-formed question exactly these are accepted: one question, no answer, no authority,
   none or one additional record, a name that is not the root, and type A, whatever id, flags and class are.
   */
  lemma AcceptedMessage(id: seq<byte>, flags: seq<byte>, qd: seq<byte>, an: seq<byte>, ns: seq<byte>, ar: seq<byte>,
                        ls: seq<Label>, qtype: seq<byte>, rest: seq<byte>)
    requires |id| == |flags| == |qd| == |an| == |ns| == |ar| == |qtype| == 2
    requires AreLabels(ls) && |Dotted(ls)| < DOMAIN_LEN && 14 + |QName(ls)| + |rest| == REQUEST_LEN
    ensures var b := id + flags + qd + an + ns + ar + QName(ls) + qtype + rest;
      && |b| == REQUEST_LEN && HasName(b, HEADER, ls) && b[..2] == id
      && (Accepted(b, ls) <==>
            && qd == [0, 1] && an == [0, 0] && ns == [0, 0] && (ar == [0, 0] || ar == [0, 1])
            && ls != [] && qtype == [0, 1])
  {
    hide Dotted, QName;
    var b := id + flags + qd + an + ns + ar + QName(ls) + qtype + rest;
    var n := 12 + |QName(ls)|;
    assert b[4..6] == qd && b[6..8] == an && b[8..10] == ns && b[10..12] == ar && b[12..n] == QName(ls);
    assert b[n..n + 2] == qtype && b[..2] == id;
    AcceptedIsQuery(b, ls);
    assert b[4..12] == qd + an + ns + ar;
    CountsTold(qd, an, ns, ar);
  }

  lemma CountsTold(qd: seq<byte>, an: seq<byte>, ns: seq<byte>, ar: seq<byte>)
    requires |qd| == |an| == |ns| == |ar| == 2
    ensures var c := qd + an + ns + ar;
      (c == [0, 1, 0, 0, 0, 0, 0, 0] || c == [0, 1, 0, 0, 0, 0, 0, 1]) <==>
        qd == [0, 1] && an == [0, 0] && ns == [0, 0] && (ar == [0, 0] || ar == [0, 1])
  {
    var c := qd + an + ns + ar;
    assert qd == c[..2] && an == c[2..4] && ns == c[4..6] && ar == c[6..];
  }

  lemma {:induction false} NameTail(ls: seq<Label>, i: nat)
    requires AreLabels(ls) && i < |ls|
    ensures QName(ls[i..]) == [|ls[i]|] + ls[i] + QName(ls[i + 1..])
    ensures Dotted(ls[i..]) == ls[i] + if i + 1 < |ls| then [DOT] + Dotted(ls[i + 1..]) else []
    ensures AreLabels(ls[i..]) && AreLabels(ls[i + 1..])
    ensures QName(ls[i + 1..])[0] == 0 <==> i + 1 == |ls|
  {
    assert ls[i..][1..] == ls[i + 1..] && ls[i..][0] == ls[i];
    assert ls[i] + [DOT] + Dotted(ls[i + 1..]) == ls[i] + ([DOT] + Dotted(ls[i + 1..]));
    if i + 1 < |ls| { assert ls[i + 1..][0] == ls[i + 1]; }
  }

  /** The inner loop of the parser: `tmp` octets of a label. */
  method CopyLabel(request: array<byte>, shost: array<byte>, start: nat, at: nat, tmp: byte, ghost l: Label)
    requires request != shost && |l| == tmp && start + tmp <= request.Length && at + tmp <= shost.Length
    requires request[start..start + tmp] == l
    modifies shost
    ensures shost[..] == old(shost[..at]) + l + old(shost[at + tmp..])
  {
    var j := 0;
    while j < tmp
      invariant 0 <= j <= tmp
      invariant forall i :: 0 <= i < shost.Length ==> shost[i] == if at <= i < at + j then l[i - at] else old(shost[i])
    {
      assert request[start..start + tmp][j] == request[start + j];
      shost[at + j] := request[start + j];
      j := j + 1;
    }
  }

  /** What is left to copy when the labels from `i` on are. */
  ghost predicate CopyPoint(request: seq<byte>, shost: seq<byte>, ls: seq<Label>, i: nat, pos: nat, len: nat)
    requires AreLabels(ls)
  {
    && i <= |ls| && AreLabels(ls[i..]) && pos <= |request| && len <= |shost|
    && QName(ls[i..]) <= request[pos..]
    && Dotted(ls) == shost[..len] + Dotted(ls[i..])
    && forall k :: len <= k < |shost| ==> shost[k] == 0
  }

  lemma LabelAt(request: seq<byte>, shost: seq<byte>, ls: seq<Label>, i: nat, pos: nat, len: nat)
    requires AreLabels(ls) && CopyPoint(request, shost, ls, i, pos, len) && i < |ls| && |Dotted(ls)| < |shost|
    ensures var l := ls[i];
      && pos + 1 + |l| < |request| && request[pos] == |l| && request[pos + 1..pos + 1 + |l|] == l
      && QName(ls[i + 1..]) <= request[pos + 1 + |l|..] && len + |l| < |shost|
      && (request[pos + 1 + |l|] == 0 <==> i + 1 == |ls|)
  {
    NameTail(ls, i);
    hide QName, Dotted;
    var l, rest := ls[i], QName(ls[i + 1..]);
    Behind(request, pos, l, rest);
    assert rest[0] == request[pos + 1 + |l|..][0];
    assert |Dotted(ls[i..])| >= |l|;
  }

  /** A label that begins at `pos`, and what comes behind it. */
  lemma Behind(request: seq<byte>, pos: nat, l: Label, rest: seq<byte>)
    requires |l| < 256 && pos <= |request| && [|l|] + l + rest <= request[pos..] && rest != []
    ensures pos + 1 + |l| < |request| && request[pos] == |l| && request[pos + 1..pos + 1 + |l|] == l
    ensures rest <= request[pos + 1 + |l|..]
  {
    var q := [|l|] + l + rest;
    assert forall k :: 0 <= k < |q| ==> request[pos + k] == request[pos..][k] == q[k];
    assert forall k :: 0 <= k < |l| ==> q[1 + k] == l[k];
    assert forall k :: 0 <= k < |rest| ==> q[1 + |l| + k] == rest[k];
  }

  lemma LabelCopied(request: seq<byte>, shost: seq<byte>, shost': seq<byte>, ls: seq<Label>, i: nat, pos: nat, len: nat)
    requires AreLabels(ls) && CopyPoint(request, shost, ls, i, pos, len) && i < |ls| && |Dotted(ls)| < |shost|
    requires var l := ls[i] + if i + 1 < |ls| then [DOT] else [];
      len + |l| <= |shost| && shost' == shost[..len] + l + shost[len + |l|..]
    ensures CopyPoint(request, shost', ls, i + 1, pos + 1 + |ls[i]|, len + |ls[i]| + if i + 1 < |ls| then 1 else 0)
  {
    LabelAt(request, shost, ls, i, pos, len);
    NameTail(ls, i);
    var l := ls[i] + if i + 1 < |ls| then [DOT] else [];
    assert Dotted(ls[i..]) == l + Dotted(ls[i + 1..]);
    assert shost'[..len + |l|] == shost[..len] + l;
    assert shost[..len] + (l + Dotted(ls[i + 1..])) == (shost[..len] + l) + Dotted(ls[i + 1..]);
  }

  /** The nested label loop: copies the labels, joined by dots, into `shost`. */
  method CopyName(request: array<byte>, shost: array<byte>, ghost ls: seq<Label>) returns (pos: nat, len: nat)
    requires request.Length == REQUEST_LEN && shost.Length == DOMAIN_LEN && request != shost
    requires HasName(request[..], HEADER, ls) && Holds(shost[..], [])
    modifies shost
    ensures pos == HEADER + |QName(ls)| - 1 && len == |Dotted(ls)|
    ensures Holds(shost[..], Dotted(ls))
  {
    hide CopyPoint, QName, Dotted, Wire.Holds;
    ghost var req := request[..];
    pos, len := HEADER, 0;
    ghost var i := 0;
    StartPoint(req, shost[..], ls);
    while request[pos] != 0
      invariant request[..] == req && pos < request.Length
      invariant 0 <= i <= |ls| && AreLabels(ls[i..]) && CopyPoint(req, shost[..], ls, i, pos, len)
      invariant pos + |QName(ls[i..])| == HEADER + |QName(ls)|
      decreases |ls| - i
    {
      NotEnd(req, shost[..], ls, i, pos, len);
      LabelAt(req, shost[..], ls, i, pos, len);
      NameTail(ls, i);
      ghost var s0, len0 := shost[..], len;
      var tmp := request[pos];
      pos := pos + 1;
      CopyLabel(request, shost, pos, len, tmp, ls[i]);
      pos, len := pos + tmp, len + tmp;
      if request[pos] != 0 {
        shost[len] := DOT;
        len := len + 1;
      }
      LabelCopied(req, s0, shost[..], ls, i, pos - 1 - tmp, len0);
      i := i + 1;
    }
    EndPoint(req, shost[..], ls, i, pos, len);
  }

  lemma StartPoint(request: seq<byte>, shost: seq<byte>, ls: seq<Label>)
    requires HasName(request, HEADER, ls) && Holds(shost, [])
    ensures CopyPoint(request, shost, ls, 0, HEADER, 0)
  {
    assert ls[0..] == ls;
    assert request[HEADER..][..|QName(ls)|] == request[HEADER..HEADER + |QName(ls)|];
  }

  lemma NotEnd(request: seq<byte>, shost: seq<byte>, ls: seq<Label>, i: nat, pos: nat, len: nat)
    requires AreLabels(ls) && CopyPoint(request, shost, ls, i, pos, len) && pos < |request| && request[pos] != 0
    ensures i < |ls|
  {
    assert QName(ls[i..])[0] == request[pos..][0];
  }

  lemma EndPoint(request: seq<byte>, shost: seq<byte>, ls: seq<Label>, i: nat, pos: nat, len: nat)
    requires AreLabels(ls) && CopyPoint(request, shost, ls, i, pos, len) && pos < |request| && request[pos] == 0
    requires |Dotted(ls)| < |shost|
    ensures i == |ls| && len == |Dotted(ls)| && Holds(shost, Dotted(ls)) && |QName(ls[i..])| == 1
  {
    assert QName(ls[i..])[0] == request[pos..][0];
    if i < |ls| {
      NameTail(ls, i);
      assert false;
    }
    assert shost[..len] + [] == shost[..len];
  }

  /** The header and question part: whether the request is accepted, and its name. */
  method ReadQuestion(node: RequestNode, ghost ls: seq<Label>) returns (accepted: bool)
    requires node.request.Length == REQUEST_LEN && node.shost.Length == DOMAIN_LEN && node.request != node.shost
    requires Holds(node.shost[..], [])
    requires HeaderAccepted(node.request[..]) && Char(node.request[HEADER]) > 0 ==>
        HasName(node.request[..], HEADER, ls)
    modifies node`iden, node`hostLen, node.shost
    ensures node.request[..] == old(node.request[..])
    ensures (accepted <==> Accepted(node.request[..], ls)) && (accepted <==> IsQuery(node.request[..], ls))
    ensures HeaderAccepted(node.request[..]) ==> node.iden == GetId(node.request[..])
    ensures accepted ==>
              ls != [] && Holds(node.shost[..], Dotted(ls)) && node.hostLen == |Dotted(ls)| == |QName(ls)| - 2
  {
    AcceptedIsQuery(node.request[..], ls);
    hide IsQuery;
    accepted := false;
    ghost var b := node.request[..];
    if Field(node.request, 4) != 1 || Field(node.request, 6) != 0 || Field(node.request, 8) != 0
      || Field(node.request, 10) > 1 {
      return;
    }
    node.iden := (node.request[0] as int) + (node.request[1] as int) * 256;
    if Char(node.request[HEADER]) <= 0 {
      return;
    }
    NonEmptyName(b, ls);
    var pos, len := CopyName(node.request, node.shost, ls);
    pos := pos + 1;
    if TYPE_A != Field(node.request, pos) {
      return;
    }
    node.hostLen := len;
    DottedLength(ls);
    accepted := true;
  }

  lemma NonEmptyName(b: seq<byte>, ls: seq<Label>)
    requires |b| == REQUEST_LEN && HasName(b, HEADER, ls) && b[HEADER] != 0
    ensures ls != []
  {
    assert b[HEADER..HEADER + |QName(ls)|][0] == b[HEADER];
  }

  /** The parser up to the result of the look-up: the address cached under the name. */
  method LookUp(node: RequestNode, cache: HashTable, ghost ls: seq<Label>) returns (accepted: bool, ipaddr: uint32)
    requires node.request.Length == REQUEST_LEN && node.shost.Length == DOMAIN_LEN && node.request != node.shost
    requires Holds(node.shost[..], [])
    requires HeaderAccepted(node.request[..]) && Char(node.request[HEADER]) > 0 ==>
        HasName(node.request[..], HEADER, ls)
    requires cache.Valid() && node !in cache.repr && node.shost !in cache.repr
    modifies node`iden, node`hostLen, node.shost
    ensures cache.Valid() && cache.contents == old(cache.contents) && node.request[..] == old(node.request[..])
    ensures (accepted <==> Accepted(node.request[..], ls)) && (accepted <==> IsQuery(node.request[..], ls))
    ensures HeaderAccepted(node.request[..]) ==> node.iden == GetId(node.request[..])
    ensures accepted ==>
              ls != [] && Holds(node.shost[..], Dotted(ls)) && node.hostLen == |Dotted(ls)| == |QName(ls)| - 2
    ensures accepted ==> ipaddr == Lookup(cache.contents, Dotted(ls))
  {
    hide HeaderAccepted, Accepted, IsQuery;
    ipaddr := 0;
    accepted := ReadQuestion(node, ls);
    if accepted {
      AcceptedName(node.request[..], ls);
      ipaddr := cache.Search(node.shost[..node.hostLen], node.hostLen);
    }
  }

  /**
   `net_work_module_inside_parser`.  The return value is -1 exactly for a rejected request, which goes nowhere; a
   request with its name in the cache gets the cached address and goes to the bundle ring, all others go to the
   forward ring.  A request that finds its ring full is lost.
   */
  method Parse(node: RequestNode, cache: HashTable, forward: NetRing.NetRing, bundle: NetRing.NetRing,
               address: RequestNode -> Ring.Item, ghost ls: seq<Label>)
    returns (ret: int, ghost route: Route)
    requires node.request.Length == REQUEST_LEN && node.shost.Length == DOMAIN_LEN && node.request != node.shost
    requires Holds(node.shost[..], [])
    requires HeaderAccepted(node.request[..]) && Char(node.request[HEADER]) > 0 ==>
        HasName(node.request[..], HEADER, ls)
    requires cache.Valid() && node !in cache.repr && node.shost !in cache.repr
    requires forward.Valid() && bundle.Valid() && forward != bundle && forward.ring != bundle.ring
    requires {forward, forward.ring, bundle, bundle.ring} !! cache.repr
    modifies node`iden, node`hostLen, node`ipv4, node.shost, forward, forward.ring, bundle, bundle.ring
    ensures cache.Valid() && cache.contents == old(cache.contents) && forward.Valid() && bundle.Valid()
    ensures ret == (if route == Rejected then -1 else 0) && (ret == 0 <==> IsQuery(node.request[..], ls))
    ensures var b := node.request[..];
      b == old(node.request[..]) && route == RouteOf(b, ls, Lookup(cache.contents, Dotted(ls)))
    ensures HeaderAccepted(node.request[..]) ==> node.iden == GetId(node.request[..])
    ensures route != Rejected ==>
              ls != [] && Holds(node.shost[..], Dotted(ls)) && node.hostLen == |Dotted(ls)| == |QName(ls)| - 2
    ensures node.ipv4 == if route == ToBundle then Lookup(cache.contents, Dotted(ls)) else old(node.ipv4)
    ensures forward.contents == if route == ToForward
        then NetRing.Offered(old(forward.contents), forward.size, address(node))
                                else old(forward.contents)
    ensures bundle.contents == if route == ToBundle
        then NetRing.Offered(old(bundle.contents), bundle.size, address(node))
                               else old(bundle.contents)
  {
    hide HeaderAccepted, Accepted, IsQuery, Wire.Holds, Dotted, QName, HasName;
    hide HashTable.Valid, NetRing.NetRing.Valid, NetRing.Offered, Lookup;
    ret, route := -1, Rejected;
    var accepted, ipaddr := LookUp(node, cache, ls);
    if !accepted {
      return;
    }
    ret := 0;
    if ipaddr == 0 {
      route := ToForward;
      var full := forward.Enqueue(address(node));
    } else {
      route := ToBundle;
      node.ipv4 := ipaddr;
      var full := bundle.Enqueue(address(node));
    }
  }

  lemma AcceptedHeader(b: seq<byte>, ls: seq<Label>)
    requires |b| == REQUEST_LEN
    requires HeaderAccepted(b) && Char(b[HEADER]) > 0 ==> HasName(b, HEADER, ls)
    requires Accepted(b, ls)
    ensures HeaderAccepted(b)
  {
  }

  lemma AcceptedName(b: seq<byte>, ls: seq<Label>)
    requires |b| == REQUEST_LEN
    requires HeaderAccepted(b) && Char(b[HEADER]) > 0 ==> HasName(b, HEADER, ls)
    requires Accepted(b, ls)
    ensures IsName(Dotted(ls))
  {
    DottedNoZero(ls);
  }
}
