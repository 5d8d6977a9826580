/** Fixed-width numbers of the C code: octets, 16- and 32-bit words. */
module Bytes {
  const TWO16: int := 0x1_0000
  const TWO32: int := 0x1_0000_0000

  type byte = x: int | 0 <= x < 256
  type uint16 = x: int | 0 <= x < TWO16
  type uint32 = x: int | 0 <= x < TWO32

  // ---------- powers of two ----------

  ghost function Pow2(n: nat): nat {
    if n == 0 then 1 else 2 * Pow2(n - 1)
  }

  lemma {:induction false} Pow2Add(m: nat, n: nat)
    ensures Pow2(m + n) == Pow2(m) * Pow2(n)
  {
    if m > 0 {
      Pow2Add(m - 1, n);
      assert Pow2(m + n) == 2 * Pow2(m - 1 + n);
    }
  }

  lemma {:induction false} Pow2Monotone(m: nat, n: nat)
    requires m <= n
    ensures 0 < Pow2(m) <= Pow2(n)
  {
    if n > 0 {
      if m < n { Pow2Monotone(m, n - 1); } else { Pow2Monotone(m - 1, n - 1); }
    }
  }

  // ---------- wrap-around ----------

  lemma {:induction false} AddWords(x: int, k: int)
    ensures (x + TWO32 * k) % TWO32 == x % TWO32
    decreases if k < 0 then -k else k
  {
    if k > 0 {
      AddWords(x, k - 1);
      assert x + TWO32 * k == (x + TWO32 * (k - 1)) + TWO32;
    } else if k < 0 {
      AddWords(x, k + 1);
      assert x + TWO32 * k == (x + TWO32 * (k + 1)) - TWO32;
    }
  }
}
