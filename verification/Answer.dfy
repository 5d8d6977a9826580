/**
 The answer writer of net_bundle/net_bundle_core.c and the answer walk of
 net_forward/net_forward.c, which must agree on every offset.
 */
module Answer {
  import opened Bytes
  import opened Names
  import opened Wire
  import opened Lists

  // ---------- the writer ----------

  function SetTopBit(b: byte): (r: byte)
    ensures r / 128 == 1 && r % 128 == b % 128
  {
    if b < 128 then b + 128 else b
  }

  /** The sixteen octets of the answer record; the writer leaves the lower half of the TTL as it finds it. */
  ghost function AnswerRecord(ip: uint32, ttl2: byte, ttl3: byte): (r: Record)
    ensures IsRecord(r)
  {
    Record(Pointer(0xC0, 0x0C), Net16(1) + Net16(1) + Net16(0x80) + [ttl2, ttl3], AddressBytes(ip))
  }

  /** The reply to message `q`: QR and RA set, one answer announced and appended, all else kept. */
  ghost function Reply(q: seq<byte>, ip: uint32, ttl2: byte, ttl3: byte): seq<byte>
    requires |q| >= HEADER
  {
    q[2 := SetTopBit(q[2])][3 := SetTopBit(q[3])][6 := 0][7 := 1] + RecordBytes(AnswerRecord(ip, ttl2, ttl3))
  }

  /** `*(uint16_t *)pos = htons(n)`. */
  method PutNet16(a: array<byte>, pos: nat, n: uint16)
    requires pos + 2 <= a.Length
    modifies a
    ensures a[..] == old(a[..])[pos := n / 256][pos + 1 := n % 256]
  {
    a[pos] := n / 256;
    a[pos + 1] := n % 256;
  }

  /** `*(uint32_t *)pos = ip`. */
  method PutAddress(a: array<byte>, pos: nat, ip: uint32)
    requires pos + 4 <= a.Length
    modifies a
    ensures var b := old(a[..]); a[..] == b[..pos] + AddressBytes(ip) + b[pos + 4..]
  {
    a[pos] := ip % 256;
    a[pos + 1] := ip / 256 % 256;
    a[pos + 2] := ip / 65536 % 256;
    a[pos + 3] := ip / 16777216;
  }

  /** QR, RA and the answer count. */
  method MarkAnswered(a: array<byte>)
    requires a.Length >= HEADER
    modifies a
    ensures a[..] == old(a[..])[2 := SetTopBit(old(a[2]))][3 := SetTopBit(old(a[3]))][6 := 0][7 := 1]
  {
    a[2] := SetTopBit(a[2]);
    a[3] := SetTopBit(a[3]);
    PutNet16(a, 6, 1);
  }

  /** The octets before the TTL and its upper half. */
  method PutFixed(item: RequestNode) returns (pos: nat)
    requires 0 <= item.datalen <= item.request.Length - 16
    modifies item`datalen, item.request
    ensures var n, b := old(item.datalen), old(item.request[..]);
      && pos == n + 10 && item.datalen == n + 10
      && item.request[..] == b[..n] + [0xC0, 0x0C, 0, 1, 0, 1, 0, 0x80] + b[n + 8..]
  {
    var a := item.request;
    pos := item.datalen;
    a[pos], a[pos + 1] := 0xC0, 0x0C;
    pos := pos + 2;
    item.datalen := item.datalen + 2;
    PutNet16(a, pos, 1);
    pos := pos + 2;
    item.datalen := item.datalen + 2;
    PutNet16(a, pos, 1);
    pos := pos + 2;
    item.datalen := item.datalen + 2;
    PutNet16(a, pos, 0x80);
    pos := pos + 4;
    item.datalen := item.datalen + 4;
  }

  /** What `write_back` leaves in the buffer and sends, before it frees the node. */
  method WriteBack(item: RequestNode)
    requires item.request.Length == REQUEST_LEN && HEADER <= item.datalen <= REQUEST_LEN - 16
    modifies item`datalen, item.request
    ensures item.datalen == old(item.datalen) + 16
    ensures var n := old(item.datalen);
      item.request[..item.datalen] == Reply(old(item.request[..n]), item.ipv4, old(item.request[n + 8]),
        old(item.request[n + 9]))
  {
    hide Reply, AddressBytes, SetTopBit;
    ghost var n, b := item.datalen, item.request[..];
    MarkAnswered(item.request);
    ghost var m := item.request[..];
    var pos := PutFixed(item);
    ghost var a1 := item.request[..];
    PutNet16(item.request, pos, 4);
    ghost var a2 := item.request[..];
    pos := pos + 2;
    item.datalen := item.datalen + 2;
    PutAddress(item.request, pos, item.ipv4);
    item.datalen := item.datalen + 4;
    ReplyWritten(b, m, a1, a2, item.request[..], n, item.ipv4);
  }

  /** The steps of the writer add up to the reply. */
  lemma ReplyWritten(b: seq<byte>, m: seq<byte>, a1: seq<byte>, a2: seq<byte>, a3: seq<byte>, n: nat, ip: uint32)
    requires HEADER <= n && n + 16 <= |b|
    requires m == b[2 := SetTopBit(b[2])][3 := SetTopBit(b[3])][6 := 0][7 := 1]
    requires a1 == m[..n] + [0xC0, 0x0C, 0, 1, 0, 1, 0, 0x80] + m[n + 8..]
    requires a2 == a1[n + 10 := 0][n + 11 := 4] && a3 == a2[..n + 12] + AddressBytes(ip) + a2[n + 16..]
    ensures a3[..n + 16] == Reply(b[..n], ip, b[n + 8], b[n + 9])
  {
    var r := AnswerRecord(ip, b[n + 8], b[n + 9]);
    assert RecordBytes(r) == [0xC0, 0x0C, 0, 1, 0, 1, 0, 0x80] + [b[n + 8], b[n + 9]] + [0, 4] + AddressBytes(ip);
    assert m[..n] == b[..n][2 := SetTopBit(b[2])][3 := SetTopBit(b[3])][6 := 0][7 := 1];
    assert a2[..n + 12] == m[..n] + [0xC0, 0x0C, 0, 1, 0, 1, 0, 0x80] + [b[n + 8], b[n + 9]] + [0, 4];
    assert a3[..n + 16] == a2[..n + 12] + AddressBytes(ip);
  }

  /**
   RFC 1035 section 4.1.1, in octets: a reply is marked as one (QR) by a server that recurses (RA), announces one
   answer, and keeps every other bit of the query.  It ends with sixteen octets of answer: a pointer to octet 12, where
   the name in the question stands, type A, class IN, a TTL of 128 times 65536 and more, and four octets of address.
   */
  lemma ReplyKeeps(q: seq<byte>, ip: uint32, ttl2: byte, ttl3: byte)
    requires |q| >= HEADER
    ensures var r := Reply(q, ip, ttl2, ttl3);
      && |r| == |q| + 16 && r[..2] == q[..2] && GetId(r) == GetId(q)
      && r[2] / 128 == 1 && r[2] % 128 == q[2] % 128 && r[3] / 128 == 1 && r[3] % 128 == q[3] % 128
      && r[4..6] == q[4..6] && r[6..8] == [0, 1] && r[8..|q|] == q[8..]
      && r[|q|..] == [0xC0, 0x0C, 0, 1, 0, 1, 0, 0x80, ttl2, ttl3, 0, 4] + AddressBytes(ip)
  {
    hide SetTopBit;
    var r := Reply(q, ip, ttl2, ttl3);
    assert r[..2] == q[..2] && r[4..6] == q[4..6] && r[6..8] == [0, 1] && r[8..|q|] == q[8..];
    assert r[|q|..] == RecordBytes(AnswerRecord(ip, ttl2, ttl3));
  }

  // ---------- the walk ----------

  ghost function OwnerLength(o: Owner): nat {
    |OwnerBytes(o)|
  }

  /** Where the parts of a record stand. */
  lemma RecordLayout(b: seq<byte>, r: Record, tail: seq<byte>)
    requires IsRecord(r) && b == RecordBytes(r) + tail
    ensures var o := OwnerLength(r.owner);
      && |b| == o + 10 + |r.data| + |tail| && GetNet16(b, o + 8) == |r.data|
      && b[o + 10..o + 10 + |r.data|] == r.data && b[o + 10 + |r.data|..] == tail
      && b[..o] == OwnerBytes(r.owner) && (Compressed(b[0]) <==> r.owner.Pointer?)
  {
    var o := OwnerLength(r.owner);
    var ob, n := OwnerBytes(r.owner), Net16(|r.data|);
    assert b[..o] == ob;
    assert b[0] == ob[0];
    assert b[o + 8..o + 10] == n;
    assert b[o + 8] == n[0] && b[o + 9] == n[1];
  }

  /** What a walk ends with: an address, or a read behind the end of the buffer. */
  datatype Reading = Outside | Address(ip: uint32)

  /** One past the first zero octet from `pos` on, and behind the buffer when there is none. */
  function AfterZero(b: seq<byte>, pos: nat): (p: nat)
    ensures pos < p
    decreases |b| - pos
  {
    if pos >= |b| || b[pos] == 0 then pos + 1 else AfterZero(b, pos + 1)
  }

  /** Where the walk expects a data length, whatever octets begin at `pos`. */
  function LengthPlace(b: seq<byte>, pos: nat): (p: nat)
    requires pos < |b|
    ensures pos < p
  {
    if Compressed(b[pos]) then pos + 10 else AfterZero(b, pos) + 8
  }

  /** What the walk makes of any octets, when it begins at `pos` in a message of `len` octets in the buffer `b`. */
  function WalkFrom(b: seq<byte>, len: nat, pos: nat, ip0: uint32): Reading
    requires len <= |b|
    decreases |b| - pos
  {
    if pos >= len then Address(ip0)
    else
      var at := LengthPlace(b, pos);
      if at + 2 > |b| then Outside
      else if GetNet16(b, at) != 4 then WalkFrom(b, len, at + 2 + GetNet16(b, at), ip0)
      else if at + 6 > |b| then Outside
      else Address(GetAddress(b, at + 2))
  }

  /**
   What a request with a host name of `hostLen` octets hears in the message: its walk begins behind its own
   question.
   */
  function Heard(b: seq<byte>, len: nat, hostLen: nat, ip0: uint32): Reading
    requires len <= |b|
  {
    WalkFrom(b, len, HEADER + hostLen + 6, ip0)
  }

  /** `while (*pos++ != 0);` */
  method SkipName(buff: array<byte>, start: nat) returns (pos: nat)
    requires AfterZero(buff[..], start) <= buff.Length
    ensures pos == AfterZero(buff[..], start)
  {
    pos := start;
    while buff[pos] != 0
      invariant AfterZero(buff[..], pos) == AfterZero(buff[..], start)
      decreases buff.Length - pos
    {
      pos := pos + 1;
    }
    pos := pos + 1;
  }

  /**
   Over owner name, type, class and TTL, if it is these that begin at `start`: the data length and where data begin.
   */
  method EnterRecord(buff: array<byte>, start: nat) returns (pos: nat, reslen: nat)
    requires start < buff.Length && LengthPlace(buff[..], start) + 2 <= buff.Length
    ensures pos == LengthPlace(buff[..], start) + 2 && reslen == GetNet16(buff[..], pos - 2)
  {
    pos := start;
    if Compressed(buff[pos]) {
      pos := pos + 10;
    } else {
      pos := SkipName(buff, pos);
      pos := pos + 8;
    }
    reslen := Field(buff, pos);
    pos := pos + 2;
  }

  /** The `next:` loop of `parse_response`, on any octets among which it stays in the buffer. */
  method Walk(buff: array<byte>, bufflen: nat, start: nat, ip0: uint32) returns (ip: uint32)
    requires bufflen <= buff.Length && WalkFrom(buff[..], bufflen, start, ip0) != Outside
    ensures Address(ip) == WalkFrom(buff[..], bufflen, start, ip0)
  {
    hide LengthPlace;
    var pos := start;
    while pos < bufflen
      invariant WalkFrom(buff[..], bufflen, pos, ip0) == WalkFrom(buff[..], bufflen, start, ip0)
      decreases buff.Length - pos
    {
      var reslen;
      pos, reslen := EnterRecord(buff, pos);
      if reslen == 4 {
        ip := AddressAt(buff, pos);
        return;
      }
      pos := pos + reslen;
    }
    ip := ip0;
  }

  /** `*(uint32_t *)pos`. */
  method AddressAt(buff: array<byte>, pos: nat) returns (ip: uint32)
    requires pos + 4 <= buff.Length
    ensures ip == GetAddress(buff[..], pos)
  {
    ip := (buff[pos] as int) + (buff[pos + 1] as int) * 256 + (buff[pos + 2] as int) * 65536
      + (buff[pos + 3] as int) * 16777216;
  }

  // ---------- the walk over records ----------

  lemma {:induction false} ZeroAfter(b: seq<byte>, pos: nat, octets: seq<byte>)
    requires NoZero(octets) && pos + |octets| < |b| && b[pos..pos + |octets| + 1] == octets + [0]
    ensures AfterZero(b, pos) == pos + |octets| + 1
    decreases |octets|
  {
    var c := octets + [0];
    assert b[pos] == b[pos..pos + |octets| + 1][0] == c[0];
    if octets != [] {
      assert b[pos + 1..pos + |octets| + 1] == c[1..] == octets[1..] + [0];
      ZeroAfter(b, pos + 1, octets[1..]);
    }
  }

  /** Where data length and data of a record stand that is found from `start` on. */
  lemma RecordAt(a: seq<byte>, start: nat, stop: nat, r: Record, tail: seq<byte>)
    requires start <= stop <= |a| && IsRecord(r) && a[start..stop] == RecordBytes(r) + tail
    ensures var o := start + OwnerLength(r.owner);
      && o + 10 + |r.data| <= stop && GetNet16(a, o + 8) == |r.data|
      && a[o + 10..o + 10 + |r.data|] == r.data && a[o + 10 + |r.data|..stop] == tail
  {
    var b, o := a[start..stop], OwnerLength(r.owner);
    RecordLayout(b, r, tail);
    hide RecordBytes, IsRecord, OwnerBytes, GetNet16;
    SliceField(a, start, stop, b, o + 8, start + o + 8);
    SubSlice(a, start, stop, b, o + 10, |r.data|, start + o + 10);
  }

  /** Its owner name. */
  lemma OwnerAt(a: seq<byte>, start: nat, stop: nat, r: Record, tail: seq<byte>)
    requires start < stop <= |a| && IsRecord(r) && a[start..stop] == RecordBytes(r) + tail
    ensures Compressed(a[start]) <==> r.owner.Pointer?
    ensures match r.owner
      case Pointer(_, _) => OwnerLength(r.owner) == 2
      case Plain(octets) =>
        && NoZero(octets) && OwnerLength(r.owner) == |octets| + 1 && start + |octets| < stop
        && a[start..start + |octets| + 1] == octets + [0]
  {
    var b, o := a[start..stop], OwnerLength(r.owner);
    RecordLayout(b, r, tail);
    OwnerForm(r);
    hide RecordBytes, IsRecord, OwnerBytes, NoZero, GetNet16;
    assert a[start..start + o] == b[..o];
  }

  lemma OwnerForm(r: Record)
    requires IsRecord(r)
    ensures match r.owner
      case Pointer(_, _) => OwnerLength(r.owner) == 2
      case Plain(octets) =>
        NoZero(octets) && OwnerLength(r.owner) == |octets| + 1 && OwnerBytes(r.owner) == octets + [0]
  {
  }

  /** Octets of the slice `b` from its place `i` on are those of `a` from `at` on. */
  lemma SliceField(a: seq<byte>, start: nat, stop: nat, b: seq<byte>, i: nat, at: nat)
    requires start <= stop <= |a| && b == a[start..stop] && i + 2 <= |b| && at == start + i
    ensures at + 2 <= |a| && GetNet16(a, at) == GetNet16(b, i)
  {
    assert b[i] == a[at] && b[i + 1] == a[at + 1];
  }

  lemma SubSlice(a: seq<byte>, start: nat, stop: nat, b: seq<byte>, i: nat, n: nat, at: nat)
    requires start <= stop <= |a| && b == a[start..stop] && i + n <= |b| && at == start + i
    ensures at + n <= stop && a[at..at + n] == b[i..i + n] && a[at + n..stop] == b[i + n..]
  {
    assert forall k :: 0 <= k < |b| ==> b[k] == a[start + k];
    assert a[at..at + n] == b[i..i + n];
  }

  /** Among well-formed records the walk steps from one to the next, and its place is the end of the last one. */
  lemma OverRecord(b: seq<byte>, start: nat, stop: nat, r: Record, tail: seq<byte>)
    requires start < stop <= |b| && IsRecord(r) && b[start..stop] == RecordBytes(r) + tail
    ensures var at := LengthPlace(b, start);
      && at + 2 + |r.data| <= stop && GetNet16(b, at) == |r.data|
      && b[at + 2..at + 2 + |r.data|] == r.data && b[at + 2 + |r.data|..stop] == tail
  {
    assert LengthPlace(b, start) == start + OwnerLength(r.owner) + 8 by {
      OwnerAt(b, start, stop, r, tail);
      hide RecordBytes, IsRecord, OwnerLength;
      if r.owner.Plain? {
        ZeroAfter(b, start, r.owner.octets);
      }
    }
    hide RecordBytes, IsRecord, OwnerLength, GetNet16, LengthPlace;
    RecordAt(b, start, stop, r, tail);
  }

  /** The walk from one place on. */
  lemma WalkOn(b: seq<byte>, len: nat, pos: nat, ip0: uint32)
    requires pos < len <= |b|
    ensures var at := LengthPlace(b, pos);
      WalkFrom(b, len, pos, ip0) ==
        if at + 2 > |b| then Outside
        else if GetNet16(b, at) != 4 then WalkFrom(b, len, at + 2 + GetNet16(b, at), ip0)
        else if at + 6 > |b| then Outside
        else Address(GetAddress(b, at + 2))
  {
  }

  /** On any sequence of well-formed records the walk finds the data of the first one with four octets of data. */
  lemma {:induction false} WalkOverRecords(b: seq<byte>, len: nat, start: nat, ip0: uint32, rs: seq<Record>)
    requires start <= len <= |b| && AreRecords(rs) && b[start..len] == RecordsBytes(rs)
    ensures WalkFrom(b, len, start, ip0) == Address(FirstAddress(rs, ip0))
    decreases |rs|
  {
    if rs != [] {
      var r, tail := rs[0], RecordsBytes(rs[1..]);
      assert |RecordBytes(r)| >= 10 && AreRecords(rs[1..]);
      OverRecord(b, start, len, r, tail);
      WalkOn(b, len, start, ip0);
      hide WalkFrom, RecordBytes, RecordsBytes, LengthPlace, GetNet16, GetAddress, AreRecords, IsRecord;
      var at := LengthPlace(b, start);
      if |r.data| == 4 {
        SameAddress(b, at + 2, r.data);
      } else {
        WalkOverRecords(b, len, at + 2 + |r.data|, ip0, rs[1..]);
      }
    }
  }

  /**
   RFC 1035 section 4.1.3, in octets.  The owner name is a pointer, whose first octet has its two high bits set whatever
   place it points to, or labels up to a zero octet; then type, class, TTL and a data length in network order.
   Four octets of data are taken for the address, all other data are stepped over.
   */
  lemma WalkInOctets(b: seq<byte>, len: nat, start: nat, ip0: uint32, owner: seq<byte>, fixed: seq<byte>, dh: byte,
                     dl: byte, data: seq<byte>, tail: seq<byte>)
    requires start <= len <= |b| && b[start..len] == owner + fixed + [dh, dl] + data + tail
    requires |fixed| == 8 && |data| == 256 * dh as int + dl as int
    requires (|owner| == 2 && owner[0] >= 192)
      || (owner != [] && owner[0] < 192 && owner[|owner| - 1] == 0 && 0 !in owner[..|owner| - 1])
    ensures WalkFrom(b, len, start, ip0) ==
      if |data| == 4 then Address(GetAddress(data, 0)) else WalkFrom(b, len, len - |tail|, ip0)
    ensures |data| == 4 ==> AddressBytes(GetAddress(data, 0)) == data
  {
    var o := if owner[0] >= 192 then Pointer(owner[0], owner[1]) else Plain(owner[..|owner| - 1]);
    var r := Record(o, fixed, data);
    assert OwnerBytes(o) == owner && Net16(|data|) == [dh, dl];
    assert RecordBytes(r) + tail == owner + fixed + [dh, dl] + data + tail;
    OverRecord(b, start, len, r, tail);
    WalkOn(b, len, start, ip0);
    hide WalkFrom, RecordBytes, LengthPlace, GetNet16, GetAddress, IsRecord;
    if |data| == 4 {
      SameAddress(b, LengthPlace(b, start) + 2, data);
      AddressOctets(data, 0);
      assert data[0..4] == data;
    }
  }

  lemma SameAddress(b: seq<byte>, at: nat, data: seq<byte>)
    requires |data| == 4 && at + 4 <= |b| && b[at..at + 4] == data
    ensures GetAddress(b, at) == GetAddress(data, 0)
  {
    assert data[0] == b[at] && data[1] == b[at + 1] && data[2] == b[at + 2] && data[3] == b[at + 3];
  }

  /**
   A walk that begins one octet beside the only record of a message, which stands behind a question of class IN,
   misses its address.
   */
  lemma BesideRecord(b: seq<byte>, start: nat, ttl: seq<byte>, ip: uint32, ip0: uint32)
    requires 1 <= start && start + 16 <= |b| && |ttl| == 4 && b[start - 1] == 1
    requires b[start..start + 16] == [0xC0, 0x0C, 0, 1, 0, 1] + ttl + [0, 4] + AddressBytes(ip)
    ensures WalkFrom(b, start + 16, start, ip0) == Address(ip)
    ensures WalkFrom(b, start + 16, start - 1, ip0) == Address(ip0)
    ensures WalkFrom(b, start + 16, start + 1, ip0) == Address(ip0)
  {
    var a := b[start..start + 16];
    assert forall k :: 0 <= k < 16 ==> b[start + k] == a[k];
    assert b[start] == 0xC0 && b[start + 1] == 0x0C && b[start + 2] == 0 && b[start + 10] == 0 && b[start + 11] == 4;
    assert AfterZero(b, start + 1) == start + 3;
    assert AfterZero(b, start - 1) == start + 3 by {
      assert AfterZero(b, start) == start + 3;
    }
    assert b[start + 12..start + 16] == AddressBytes(ip);
    SameAddress(b, start + 12, AddressBytes(ip));
    AddressRoundTrip(ip);
  }

  // ---------- the round trip ----------

  /** The reply to a query that ends at its question is read back from behind the question. */
  lemma ReplyReadBack(q: seq<byte>, hostLen: nat, ip: uint32, ttl2: byte, ttl3: byte)
    requires |q| == HEADER + hostLen + 6
    ensures var r := [AnswerRecord(ip, ttl2, ttl3)];
      Reply(q, ip, ttl2, ttl3)[HEADER + hostLen + 6..] == RecordsBytes(r) && FirstAddress(r, 0) == ip
  {
    var rec := AnswerRecord(ip, ttl2, ttl3);
    assert [rec][1..] == [];
    assert RecordsBytes([rec]) == RecordBytes(rec) + [];
    AddressRoundTrip(ip);
  }

  /** Writing an answer and walking it gives the address back, whatever the name and the address. */
  method WriteThenWalk(item: RequestNode, ghost b: seq<byte>) returns (ip: uint32)
    requires item.request.Length == REQUEST_LEN && b == item.request[..]
    requires item.hostLen >= 0 && item.datalen == HEADER + item.hostLen + 6 <= REQUEST_LEN - 16
    modifies item`datalen, item.request
    ensures ip == item.ipv4 && item.datalen == old(item.datalen) + 16
    ensures var n := old(item.datalen); item.request[..n + 16] == Reply(b[..n], ip, b[n + 8], b[n + 9])
  {
    ghost var n := item.datalen;
    WriteBack(item);
    ReplyReadBack(b[..n], item.hostLen, item.ipv4, b[n + 8], b[n + 9]);
    assert item.request[..item.datalen][n..] == item.request[n..item.datalen];
    WalkOverRecords(item.request[..], item.datalen, n, 0, [AnswerRecord(item.ipv4, b[n + 8], b[n + 9])]);
    ip := Walk(item.request, item.datalen, HEADER + item.hostLen + 6, 0);
  }
}
