/** Unsigned machine words as natural numbers.

  The bitwise operators of the source (`|`, `&`, `^`, `!`, `<<`, `>>` on `u8` and `u64`) are defined
  by recursion on binary digits, and each is characterised by what it does to bit `i` of its operands.
 */
module Bits {

  type Byte = x: nat | x < 0x100
  type U32 = x: nat | x < 0x1_0000_0000
  type U64 = x: nat | x < 0x1_0000_0000_0000_0000

  const U32_SIZE: nat := 0x1_0000_0000
  const U64_SIZE: nat := 0x1_0000_0000_0000_0000

  function Pow2(n: nat): (p: nat)
    ensures p >= 1
  {
    if n == 0 then 1 else 2 * Pow2(n - 1)
  }

  lemma Pow2Constants()
    ensures Pow2(8) == 0x100
    ensures Pow2(64) == U64_SIZE
  {
    assert Pow2(8) == 0x100;
    assert Pow2(16) == 0x1_0000;
    assert Pow2(24) == 0x100_0000;
    assert Pow2(32) == U32_SIZE;
    assert Pow2(40) == 0x100_0000_0000;
    assert Pow2(48) == 0x1_0000_0000_0000;
    assert Pow2(56) == 0x100_0000_0000_0000;
    assert Pow2(64) == U64_SIZE;
  }

  lemma {:induction false} Pow2Monotone(m: nat, n: nat)
    requires m <= n
    ensures Pow2(m) <= Pow2(n)
  {
    if m < n {
      Pow2Monotone(m, n - 1);
    }
  }

  /** Bit `i` of `w`, least significant first. */
  predicate Bit(w: nat, i: nat)
    decreases i
  {
    if i == 0 then w % 2 == 1 else Bit(w / 2, i - 1)
  }

  function Or(a: nat, b: nat): (r: nat)
    decreases a + b
  {
    if a == 0 && b == 0 then 0
    else 2 * Or(a / 2, b / 2) + (if a % 2 == 1 || b % 2 == 1 then 1 else 0)
  }

  function And(a: nat, b: nat): (r: nat)
    decreases a + b
  {
    if a == 0 && b == 0 then 0
    else 2 * And(a / 2, b / 2) + (if a % 2 == 1 && b % 2 == 1 then 1 else 0)
  }

  function Xor(a: nat, b: nat): (r: nat)
    decreases a + b
  {
    if a == 0 && b == 0 then 0
    else 2 * Xor(a / 2, b / 2) + (if a % 2 != b % 2 then 1 else 0)
  }

  /** `w << k` on `u64`: the bits shifted past bit 63 are lost. */
  function Shl64(w: U64, k: nat): (r: U64)
    decreases k
  {
    if k == 0 then w else Shl64((2 * w) % U64_SIZE, k - 1)
  }

  /** `w >> k`. */
  function Shr(w: U64, k: nat): (r: U64)
    decreases k
  {
    if k == 0 then w else Shr(w / 2, k - 1)
  }

  lemma {:induction false} BitOfZero(i: nat)
    ensures !Bit(0, i)
  {
    if i > 0 {
      BitOfZero(i - 1);
    }
  }

  lemma {:induction false} OrBit(a: nat, b: nat, i: nat)
    ensures Bit(Or(a, b), i) <==> Bit(a, i) || Bit(b, i)
    decreases i
  {
    hide Or;
    if a == 0 && b == 0 {
      OrZero();
      BitOfZero(i);
    } else {
      OrHalves(a, b);
      if i > 0 {
        OrBit(a / 2, b / 2, i - 1);
      }
    }
  }

  lemma OrZero()
    ensures Or(0, 0) == 0
  {
  }

  lemma OrHalves(a: nat, b: nat)
    ensures Or(a, b) / 2 == Or(a / 2, b / 2) && Or(a, b) % 2 == if a % 2 == 1 || b % 2 == 1 then 1 else 0
  {
  }

  lemma {:induction false} AndBit(a: nat, b: nat, i: nat)
    ensures Bit(And(a, b), i) <==> Bit(a, i) && Bit(b, i)
    decreases i
  {
    if a == 0 && b == 0 {
      BitOfZero(i);
    } else if i > 0 {
      assert And(a, b) / 2 == And(a / 2, b / 2);
      AndBit(a / 2, b / 2, i - 1);
    }
  }

  lemma {:induction false} XorBit(a: nat, b: nat, i: nat)
    ensures Bit(Xor(a, b), i) <==> Bit(a, i) != Bit(b, i)
    decreases i
  {
    if a == 0 && b == 0 {
      BitOfZero(i);
    } else if i > 0 {
      assert Xor(a, b) / 2 == Xor(a / 2, b / 2);
      XorBit(a / 2, b / 2, i - 1);
    }
  }

  /** The operators stay inside the width of their operands. */
  lemma {:induction false} OrBound(a: nat, b: nat, n: nat)
    requires a < Pow2(n) && b < Pow2(n)
    ensures Or(a, b) < Pow2(n)
  {
    if n > 0 && !(a == 0 && b == 0) {
      OrBound(a / 2, b / 2, n - 1);
    }
  }

  lemma {:induction false} AndBound(a: nat, b: nat, n: nat)
    requires a < Pow2(n) && b < Pow2(n)
    ensures And(a, b) < Pow2(n)
  {
    if n > 0 && !(a == 0 && b == 0) {
      AndBound(a / 2, b / 2, n - 1);
    }
  }

  lemma {:induction false} XorBound(a: nat, b: nat, n: nat)
    requires a < Pow2(n) && b < Pow2(n)
    ensures Xor(a, b) < Pow2(n)
  {
    if n > 0 && !(a == 0 && b == 0) {
      XorBound(a / 2, b / 2, n - 1);
    }
  }

  function XorByte(a: Byte, b: Byte): (c: Byte)
  {
    Pow2Constants();
    XorBound(a, b, 8);
    Xor(a, b)
  }

  /** Words are equal when their bits are. */
  lemma {:induction false} BitExtensional(a: nat, b: nat, n: nat)
    requires a < Pow2(n) && b < Pow2(n)
    requires forall i: nat :: i < n ==> Bit(a, i) == Bit(b, i)
    ensures a == b
  {
    if n > 0 {
      assert Bit(a, 0) == Bit(b, 0);
      forall i: nat | i < n - 1 ensures Bit(a / 2, i) == Bit(b / 2, i) {
        assert Bit(a, i + 1) == Bit(b, i + 1);
      }
      BitExtensional(a / 2, b / 2, n - 1);
    }
  }

  lemma {:induction false} HighBitsZero(a: nat, n: nat, i: nat)
    requires a < Pow2(n) && n <= i
    ensures !Bit(a, i)
    decreases n
  {
    if n == 0 {
      BitOfZero(i);
    } else {
      HighBitsZero(a / 2, n - 1, i - 1);
    }
  }

  lemma {:induction false} BitOfPow2(n: nat, i: nat)
    ensures Bit(Pow2(n), i) <==> i == n
  {
    if n == 0 {
      if i > 0 {
        BitOfZero(i - 1);
      }
    } else if i > 0 {
      assert Pow2(n) / 2 == Pow2(n - 1);
      BitOfPow2(n - 1, i - 1);
    }
  }

  /** `w & (1 << i) != 0` tests bit `i`. */
  lemma {:induction false} MaskTestsBit(w: nat, i: nat)
    ensures And(w, Pow2(i)) != 0 <==> Bit(w, i)
  {
    if i == 0 {
      AndZero(w / 2);
    } else {
      assert Pow2(i) / 2 == Pow2(i - 1);
      MaskTestsBit(w / 2, i - 1);
    }
  }

  lemma {:induction false} AndZero(a: nat)
    ensures And(a, 0) == 0
  {
    if a > 0 {
      AndZero(a / 2);
    }
  }

  /** Truncation to `n` bits keeps the low `n` bits. */
  lemma {:induction false} ModKeepsLowBits(w: nat, n: nat, i: nat)
    requires i < n
    ensures Bit(w % Pow2(n), i) == Bit(w, i)
    decreases n
  {
    ModDouble(w, Pow2(n - 1));
    assert Pow2(n) == 2 * Pow2(n - 1);
    var r := (w / 2) % Pow2(n - 1);
    assert (2 * r + w % 2) / 2 == r && (2 * r + w % 2) % 2 == w % 2;
    if i > 0 {
      ModKeepsLowBits(w / 2, n - 1, i - 1);
    }
  }

  lemma ModDouble(w: nat, p: nat)
    requires p > 0
    ensures w % (2 * p) == 2 * ((w / 2) % p) + w % 2
  {
    var q, r := (w / 2) / p, (w / 2) % p;
    Halves(q, p);
    ModUnique(w, 2 * p, q, 2 * r + w % 2);
  }

  lemma Halves(q: nat, p: nat)
    ensures 2 * (q * p) == q * (2 * p)
  {
  }

  lemma ModUnique(a: nat, d: nat, q: nat, r: nat)
    requires d > 0 && r < d && a == q * d + r
    ensures a % d == r && a / d == q
  {
    SmallMultiple(q - a / d, d, a % d - r);
  }

  lemma SmallMultiple(k: int, d: int, m: int)
    requires k * d == m && -d < m < d
    ensures k == 0
  {
  }

  /** `<<` moves every bit up by `k`. */
  lemma {:induction false} Shl64Bit(w: U64, k: nat, i: nat)
    requires i < 64
    ensures Bit(Shl64(w, k), i) <==> i >= k && Bit(w, i - k)
    decreases k
  {
    if k > 0 {
      var v := (2 * w) % U64_SIZE;
      Shl64Bit(v, k - 1, i);
      if i >= k - 1 {
        Pow2Constants();
        ModKeepsLowBits(2 * w, 64, i - (k - 1));
        assert (2 * w) / 2 == w && (2 * w) % 2 == 0;
      }
    }
  }

  /** `>>` moves every bit down by `k`. */
  lemma {:induction false} ShrBit(w: U64, k: nat, i: nat)
    ensures Bit(Shr(w, k), i) <==> Bit(w, i + k)
    decreases k
  {
    if k > 0 {
      ShrBit(w / 2, k - 1, i);
    }
  }

  lemma OneBitIsByte(bit: nat)
    requires bit < 8
    ensures Pow2(bit) <= 0x80
  {
    Pow2Monotone(bit, 7);
    assert Pow2(7) == 0x80;
  }

  lemma {:induction false} XorTwice(a: nat, b: nat)
    ensures Xor(Xor(a, b), b) == a
    decreases a + b
  {
    if a > 0 || b > 0 {
      XorTwice(a / 2, b / 2);
      assert Xor(a, b) / 2 == Xor(a / 2, b / 2);
    }
  }
}
