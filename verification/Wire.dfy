/** Fixed-width integers on the wire: `to_be_bytes`, `from_be_bytes` and `to_le_bytes`. */
module Wire {
  import opened Bits

  type Bytes = seq<Byte>

  function Pow256(n: nat): (p: nat)
    ensures p >= 1
  {
    if n == 0 then 1 else 256 * Pow256(n - 1)
  }

  lemma Pow256Constants()
    ensures Pow256(1) == 0x100
    ensures Pow256(2) == 0x1_0000
    ensures Pow256(4) == U32_SIZE
    ensures Pow256(8) == U64_SIZE
  {
    assert Pow256(2) == 0x1_0000;
    assert Pow256(4) == U32_SIZE;
    assert Pow256(6) == 0x1_0000_0000_0000;
    assert Pow256(8) == U64_SIZE;
  }

  function ToBE(x: nat, n: nat): (s: Bytes)
    ensures |s| == n
    decreases n
  {
    if n == 0 then [] else ToBE(x / 256, n - 1) + [x % 256]
  }

  function FromBE(s: Bytes): (x: nat)
  {
    if s == [] then 0 else 256 * FromBE(s[..|s| - 1]) + s[|s| - 1]
  }

  /** Base-256 digit `i`, least significant first. */
  function Digit(x: nat, i: nat): (d: Byte)
  {
    (x / Pow256(i)) % 256
  }

  function ToLE(x: nat, n: nat): (s: Bytes)
    ensures |s| == n
  {
    seq(n, i requires 0 <= i => Digit(x, i))
  }

  lemma {:induction false} FromToBE(x: nat, n: nat)
    requires x < Pow256(n)
    ensures FromBE(ToBE(x, n)) == x
    decreases n
  {
    if n > 0 {
      FromToBE(x / 256, n - 1);
      assert ToBE(x, n)[..n - 1] == ToBE(x / 256, n - 1);
    }
  }

  lemma {:induction false} ToFromBE(s: Bytes)
    ensures FromBE(s) < Pow256(|s|)
    ensures ToBE(FromBE(s), |s|) == s
  {
    if s != [] {
      ToFromBE(s[..|s| - 1]);
      assert s == s[..|s| - 1] + [s[|s| - 1]];
    }
  }

  lemma ToLEInjective(x: nat, y: nat, n: nat)
    requires x < Pow256(n) && y < Pow256(n)
    requires ToLE(x, n) == ToLE(y, n)
    ensures x == y
  {
    forall i: nat | i < n ensures Digit(x, i) == Digit(y, i) {
      assert ToLE(x, n)[i] == ToLE(y, n)[i];
    }
    DigitsDetermine(x, y, n);
  }

  lemma {:induction false} DigitsDetermine(x: nat, y: nat, n: nat)
    requires x < Pow256(n) && y < Pow256(n)
    requires forall i: nat :: i < n ==> Digit(x, i) == Digit(y, i)
    ensures x == y
    decreases n
  {
    if n > 0 {
      assert Digit(x, 0) == x % 256 && Digit(y, 0) == y % 256;
      forall i: nat | i < n - 1 ensures Digit(x / 256, i) == Digit(y / 256, i) {
        DigitShift(x, i);
        DigitShift(y, i);
        assert Digit(x, i + 1) == Digit(y, i + 1);
      }
      DigitsDetermine(x / 256, y / 256, n - 1);
    }
  }

  lemma DigitShift(x: nat, i: nat)
    ensures Digit(x, i + 1) == Digit(x / 256, i)
  {
    var p := Pow256(i);
    var q, r := (x / 256) / p, (x / 256) % p;
    assert x / 256 == q * p + r;
    assert x == q * (256 * p) + (256 * r + x % 256) by {
      assert 256 * (q * p) == q * (256 * p);
    }
    ModUnique(x, 256 * p, q, 256 * r + x % 256);
  }
}
