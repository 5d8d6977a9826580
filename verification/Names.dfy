/** Host names as C strings: the comparison and the hash of net_hashmap/net_hashmap_core.c. */
module Names {
  import opened Bytes

  const DOMAIN_LEN := 512
  const ARRAY_SIZE := 1024

  /** The octets before the terminating zero. */
  type Name = seq<byte>

  ghost predicate NoZero(s: Name) {
    forall i :: 0 <= i < |s| ==> s[i] != 0
  }

  /** A name that fits the `domain` field of a hash node. */
  ghost predicate IsName(s: Name) {
    |s| < DOMAIN_LEN && NoZero(s)
  }

  datatype CString = Null | Text(s: Name)

  /** The value of a C `char`, which is signed. */
  function Char(b: byte): (c: int)
    ensures -128 <= c < 128 && (b - c) % 256 == 0
  {
    if b < 128 then b else b - 256
  }

  /** What reading one `char` of the string gives, the terminator included. */
  function CharAt(s: Name, i: nat): int
    requires i <= |s|
  {
    if i < |s| then Char(s[i]) else 0
  }

  // ---------- order ----------

  /** Dictionary order by signed characters. */
  ghost function Lex(a: Name, b: Name): int {
    if a == [] then (if b == [] then 0 else -1)
    else if b == [] then 1
    else if Char(a[0]) > Char(b[0]) then 1
    else if Char(a[0]) < Char(b[0]) then -1
    else Lex(a[1..], b[1..])
  }

  ghost function CommonPrefix(a: Name, b: Name): nat {
    if a == [] || b == [] || a[0] != b[0] then 0 else 1 + CommonPrefix(a[1..], b[1..])
  }

  lemma {:induction false} LexZero(a: Name, b: Name)
    ensures Lex(a, b) == 0 <==> a == b
  {
    if a != [] && b != [] {
      LexZero(a[1..], b[1..]);
      assert a == [a[0]] + a[1..] && b == [b[0]] + b[1..];
    }
  }

  lemma {:induction false} LexReversed(a: Name, b: Name)
    ensures Lex(a, b) == -Lex(b, a)
  {
    if a != [] && b != [] {
      LexReversed(a[1..], b[1..]);
    }
  }

  lemma {:induction false} LexTransitive(a: Name, b: Name, c: Name)
    requires Lex(a, b) > 0 && Lex(b, c) > 0
    ensures Lex(a, c) > 0
  {
    if a != [] && b != [] && c != [] && a[0] == b[0] == c[0] {
      LexTransitive(a[1..], b[1..], c[1..]);
    }
  }

  lemma {:induction false} CommonPrefixBound(a: Name, b: Name)
    ensures CommonPrefix(a, b) <= |a| && CommonPrefix(a, b) <= |b|
    ensures CommonPrefix(a, a) == |a|
  {
    if a != [] {
      CommonPrefixBound(a[1..], if b == [] then [] else b[1..]);
    }
  }

  lemma {:induction false} DropCommon(a: Name, b: Name, i: nat)
    requires i <= |a| && i <= |b| && a[..i] == b[..i]
    ensures Lex(a, b) == Lex(a[i..], b[i..])
    ensures CommonPrefix(a, b) == i + CommonPrefix(a[i..], b[i..])
  {
    if i > 0 {
      assert a[0] == a[..i][0] == b[..i][0] == b[0];
      assert a[1..][..i - 1] == a[..i][1..] && b[1..][..i - 1] == b[..i][1..];
      DropCommon(a[1..], b[1..], i - 1);
      assert a[1..][i - 1..] == a[i..] && b[1..][i - 1..] == b[i..];
    }
  }

  /**
   `inside_strcmp`.  It is the dictionary order as long as the strings part within
   their first 513 characters; else the count-down of `to` makes it return -1.
   */
  method StrCmp(str1: CString, str2: CString) returns (r: int)
    requires (str1.Text? ==> NoZero(str1.s)) && (str2.Text? ==> NoZero(str2.s))
    ensures str1.Null? ==> r == -1
    ensures str1.Text? && str2.Null? ==> r == 1
    ensures str1.Text? && str2.Text? ==>
              r == if CommonPrefix(str1.s, str2.s) <= DOMAIN_LEN then Lex(str1.s, str2.s) else -1
  {
    if str1.Null? {
      return -1;
    }
    if str2.Null? {
      return 1;
    }
    var s1, s2 := str1.s, str2.s;
    var i, to := 0, DOMAIN_LEN;
    assert s1[..0] == s2[..0];
    while CharAt(s1, i) != 0 && CharAt(s2, i) != 0
      invariant i <= |s1| && i <= |s2| && s1[..i] == s2[..i]
      invariant to == DOMAIN_LEN - i && to >= 0
      decreases |s1| - i
    {
      DropCommon(s1, s2, i);
      if CharAt(s1, i) > CharAt(s2, i) {
        return 1;
      }
      if CharAt(s1, i) < CharAt(s2, i) {
        return -1;
      }
      i := i + 1;
      assert s1[..i] == s1[..i - 1] + [s1[i - 1]] && s2[..i] == s2[..i - 1] + [s2[i - 1]];
      to := to - 1;
      if to + 1 == 0 {
        DropCommon(s1, s2, i);
        return -1;
      }
    }
    DropCommon(s1, s2, i);
    assert i == |s1| || i == |s2|;
    if CharAt(s1, i) == 0 && CharAt(s2, i) == 0 {
      return 0;
    }
    if CharAt(s1, i) == 0 {
      return -1;
    }
    return 1;
  }

  // ---------- hash ----------

  ghost function HashOf(s: Name): uint32 {
    if s == [] then 5381
    else (HashOf(s[..|s| - 1]) * 33 + Char(s[|s| - 1])) % TWO32
  }

  ghost function BucketOf(s: Name): (h: nat)
    ensures h < ARRAY_SIZE
  {
    HashOf(s) % ARRAY_SIZE
  }

  lemma WrappedSum(a: int, b: int)
    ensures (a % TWO32 + b) % TWO32 == (a + b) % TWO32
  {
    assert a == TWO32 * (a / TWO32) + a % TWO32;
    AddWords(a % TWO32 + b, a / TWO32);
  }

  /** `inside_hash`: shifts and sums of 32-bit words. */
  method InsideHash(str: Name, len: nat) returns (h: nat)
    requires len == |str|
    ensures h == BucketOf(str)
  {
    var p, hash: uint32 := 0, 5381;
    var left := len;
    assert str[..0] == [];
    while left > 0
      invariant left + p == len && hash == HashOf(str[..p])
    {
      left := left - 1;
      assert str[..p + 1][..p] == str[..p];
      WrappedSum(hash * 32, hash + Char(str[p]));
      hash := (hash * 32 % TWO32 + hash + Char(str[p])) % TWO32;
      p := p + 1;
    }
    assert str[..p] == str;
    h := hash % ARRAY_SIZE;
  }
}
