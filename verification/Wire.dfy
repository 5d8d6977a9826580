/** Messages of RFC 1035 as octets: header fields, names (section 3.1) and resource records (section 4.1.3). */
module Wire {
  import opened Bytes
  import opened Names

  const HEADER := 12
  const REQUEST_LEN := 2048
  const DOT: byte := 46

  // ---------- numbers ----------

  /** A 16-bit number in network order. */
  function Net16(n: uint16): seq<byte> {
    [n / 256, n % 256]
  }

  function GetNet16(b: seq<byte>, i: nat): uint16
    requires i + 2 <= |b|
  {
    (b[i] as int) * 256 + b[i + 1] as int
  }

  /** `ntohs` of the two octets at `i`. */
  function Field(a: array<byte>, i: nat): (n: uint16)
    requires i + 2 <= a.Length
    reads a
    ensures n == GetNet16(a[..], i)
  {
    (a[i] as int) * 256 + a[i + 1] as int
  }

  /** An address as the machine stores it, which is little-endian; it is never converted. */
  function AddressBytes(ip: uint32): seq<byte> {
    [ip % 256, ip / 256 % 256, ip / 65536 % 256, ip / 16777216]
  }

  function GetAddress(b: seq<byte>, i: nat): uint32
    requires i + 4 <= |b|
  {
    (b[i] as int) + (b[i + 1] as int) * 256 + (b[i + 2] as int) * 65536 + (b[i + 3] as int) * 16777216
  }

  /** The query id is compared and copied as stored. */
  function GetId(b: seq<byte>): uint16
    requires |b| >= 2
  {
    (b[0] as int) + (b[1] as int) * 256
  }

  /** Ids are equal exactly when both of their octets are. */
  lemma SameId(a: seq<byte>, b: seq<byte>)
    requires |a| >= 2 && |b| >= 2
    ensures GetId(a) == GetId(b) <==> a[..2] == b[..2]
  {
    assert a[..2] == [a[0], a[1]] && b[..2] == [b[0], b[1]];
  }

  /** The four octets of an address go out as they came in. */
  lemma AddressOctets(b: seq<byte>, i: nat)
    requires i + 4 <= |b|
    ensures AddressBytes(GetAddress(b, i)) == b[i..i + 4]
  {
    var ip := GetAddress(b, i);
    var w: int, x: int, y: int, z: int := b[i], b[i + 1], b[i + 2], b[i + 3];
    var r: int := y + 256 * z;
    var q: int := x + 256 * r;
    assert ip == w + 256 * q && ip / 256 == q && q / 256 == r && r / 256 == z;
    assert ip / 65536 == r && ip / 16777216 == z;
    assert b[i..i + 4] == [b[i], b[i + 1], b[i + 2], b[i + 3]];
  }

  lemma AddressRoundTrip(ip: uint32)
    ensures GetAddress(AddressBytes(ip), 0) == ip
  {
    var q := ip / 256;
    var r := ip / 65536;
    assert q / 256 == r && r / 256 == ip / 16777216;
  }

  /** A string in a zeroed buffer. */
  ghost predicate Holds(buffer: seq<byte>, s: Name) {
    |s| < |buffer| && buffer[..|s|] == s && forall i :: |s| <= i < |buffer| ==> buffer[i] == 0
  }

  // ---------- names ----------

  type Label = seq<byte>

  ghost predicate IsLabel(l: Label) {
    1 <= |l| <= 63 && NoZero(l)
  }

  ghost predicate AreLabels(ls: seq<Label>) {
    forall i :: 0 <= i < |ls| ==> IsLabel(ls[i])
  }

  /** Each label behind its length, and a zero octet at the end. */
  ghost function QName(ls: seq<Label>): seq<byte>
    requires AreLabels(ls)
  {
    if ls == [] then [0] else [|ls[0]|] + ls[0] + QName(ls[1..])
  }

  /** The labels joined by dots, which are octets 46. */
  ghost function Dotted(ls: seq<Label>): seq<byte> {
    if ls == [] then []
    else if |ls| == 1 then ls[0]
    else ls[0] + [46] + Dotted(ls[1..])
  }

  /** The dotted name is two octets shorter than the name on the wire. */
  lemma {:induction false} DottedLength(ls: seq<Label>)
    requires AreLabels(ls)
    ensures |QName(ls)| == if ls == [] then 1 else |Dotted(ls)| + 2
  {
    if ls != [] {
      DottedLength(ls[1..]);
    }
  }

  lemma {:induction false} DottedNoZero(ls: seq<Label>)
    requires AreLabels(ls)
    ensures NoZero(Dotted(ls))
  {
    if |ls| > 1 {
      DottedNoZero(ls[1..]);
    }
  }

  /** The labels of a dotted name; `l` is what the current one has so far. */
  ghost function Split(s: seq<byte>, l: Label): seq<Label> {
    if s == [] then [l]
    else if s[0] == 46 then [l] + Split(s[1..], [])
    else Split(s[1..], l + [s[0]])
  }

  lemma {:induction false} SplitLabel(l: Label, rest: seq<byte>, sofar: Label)
    requires DOT !in l
    ensures Split(l + rest, sofar) == Split(rest, sofar + l)
  {
    if l == [] {
      assert l + rest == rest && sofar + l == sofar;
    } else {
      assert (l + rest)[0] == l[0] && (l + rest)[1..] == l[1..] + rest;
      SplitLabel(l[1..], rest, sofar + [l[0]]);
      assert sofar + [l[0]] + l[1..] == sofar + l;
    }
  }

  /** Without dots inside labels the dotted name tells the labels. */
  lemma {:induction false} SplitDotted(ls: seq<Label>)
    requires ls != [] && forall i :: 0 <= i < |ls| ==> DOT !in ls[i]
    ensures Split(Dotted(ls), []) == ls
  {
    if |ls| == 1 {
      assert ls[0] + [] == ls[0] && [] + ls[0] == ls[0];
      SplitLabel(ls[0], [], []);
      assert ls == [ls[0]];
    } else {
      var rest := Dotted(ls[1..]);
      assert ls[0] + [DOT] + rest == ls[0] + ([DOT] + rest);
      SplitLabel(ls[0], [DOT] + rest, []);
      assert [] + ls[0] == ls[0];
      assert ([DOT] + rest)[1..] == rest;
      SplitDotted(ls[1..]);
      assert ls == [ls[0]] + ls[1..];
    }
  }

  // ---------- resource records ----------

  /** The owner name of a record: a bare compression pointer, or plain octets up to the terminating zero. */
  datatype Owner = Pointer(hi: byte, lo: byte) | Plain(octets: seq<byte>)

  /** `fixed` holds type, class and TTL. */
  datatype Record = Record(owner: Owner, fixed: seq<byte>, data: seq<byte>)

  predicate Compressed(b: byte) {
    b >= 0xC0
  }

  /** RFC 1035 section 4.1.4: the first octet of a pointer, and of no label, has its two high bits set. */
  ghost predicate IsOwner(o: Owner) {
    match o
    case Pointer(hi, _) => hi / 64 == 3
    case Plain(octets) => NoZero(octets) && (octets != [] ==> octets[0] / 64 != 3)
  }

  ghost predicate IsRecord(r: Record) {
    IsOwner(r.owner) && |r.fixed| == 8 && |r.data| < TWO16
  }

  ghost function OwnerBytes(o: Owner): seq<byte> {
    match o
    case Pointer(hi, lo) => [hi, lo]
    case Plain(octets) => octets + [0]
  }

  ghost function RecordBytes(r: Record): seq<byte>
    requires IsRecord(r)
  {
    OwnerBytes(r.owner) + r.fixed + Net16(|r.data|) + r.data
  }

  ghost predicate AreRecords(rs: seq<Record>) {
    forall i :: 0 <= i < |rs| ==> IsRecord(rs[i])
  }

  ghost function RecordsBytes(rs: seq<Record>): seq<byte>
    requires AreRecords(rs)
  {
    if rs == [] then [] else RecordBytes(rs[0]) + RecordsBytes(rs[1..])
  }

  /** The data of the first record with four octets of data, else `ip`. */
  ghost function FirstAddress(rs: seq<Record>, ip: uint32): uint32 {
    if rs == [] then ip
    else if |rs[0].data| == 4 then GetAddress(rs[0].data, 0)
    else FirstAddress(rs[1..], ip)
  }

  lemma {:induction false} FirstAddressIsFirst(rs: seq<Record>, ip: uint32)
    ensures (forall i :: 0 <= i < |rs| ==> |rs[i].data| != 4) ==> FirstAddress(rs, ip) == ip
    ensures forall i :: 0 <= i < |rs| && |rs[i].data| == 4 && (forall j :: 0 <= j < i ==> |rs[j].data| != 4) ==>
              FirstAddress(rs, ip) == GetAddress(rs[i].data, 0)
  {
    if rs != [] {
      FirstAddressIsFirst(rs[1..], ip);
      forall i | 0 <= i < |rs| && |rs[i].data| == 4 && forall j :: 0 <= j < i ==> |rs[j].data| != 4
        ensures FirstAddress(rs, ip) == GetAddress(rs[i].data, 0)
      {
        if i > 0 {
          assert rs[1..][i - 1] == rs[i];
          assert forall j :: 0 <= j < i - 1 ==> rs[1..][j] == rs[j + 1];
        }
      }
    }
  }
}
