/** Peer identifiers and XOR geometry: `crates/ceky-crypto/src/identity.rs` and the target generators of
    `crates/ceky-dht/src/bootstrap.rs`. */
module PeerIds {
  import opened Bits
  import opened Wire
  import opened Wrappers

  const ID_LEN: nat := 32
  const NUM_BUCKETS: nat := 256

  type PeerId = s: Bytes | |s| == ID_LEN witness seq(ID_LEN, _ => 0)

  function XorDistance(a: PeerId, b: PeerId): (d: PeerId)
  {
    seq(ID_LEN, i requires 0 <= i < ID_LEN => XorByte(a[i], b[i]))
  }

  /** `xor_distance` fills a local array byte by byte. */
  method ComputeXorDistance(a: PeerId, b: PeerId) returns (d: PeerId)
    ensures d == XorDistance(a, b)
  {
    hide XorByte;
    var result := new Byte[ID_LEN](_ => 0);
    for i := 0 to ID_LEN
      invariant forall m :: 0 <= m < i ==> result[m] == XorByte(a[m], b[m])
    {
      result[i] := XorByte(a[i], b[i]);
    }
    d := result[..];
  }

  /** `u8::leading_zeros`. */
  function LeadingZeros(x: Byte): (n: nat)
    ensures n <= 8 && (n == 8 <==> x == 0)
  {
    if x >= 0x80 then 0 else if x >= 0x40 then 1 else if x >= 0x20 then 2 else if x >= 0x10 then 3
    else if x >= 0x08 then 4 else if x >= 0x04 then 5 else if x >= 0x02 then 6 else if x == 1 then 7 else 8
  }

  /** The highest set bit of a non-zero byte brackets it between two powers of two. */
  lemma HighBitBounds(x: Byte)
    requires x > 0
    ensures Pow2(7 - LeadingZeros(x)) <= x < Pow2(8 - LeadingZeros(x))
  {
    assert Pow2(0) == 1 && Pow2(1) == 2 && Pow2(2) == 4 && Pow2(3) == 8;
    assert Pow2(4) == 16 && Pow2(5) == 32 && Pow2(6) == 64 && Pow2(7) == 128;
    Pow2Constants();
  }

  /** Index of the first byte in which two ids differ, 32 if there is none. */
  function FirstDiff(a: PeerId, b: PeerId, from: nat): (i: nat)
    requires from <= ID_LEN
    ensures from <= i <= ID_LEN
    ensures a[from..i] == b[from..i]
    ensures i < ID_LEN ==> a[i] != b[i]
    decreases ID_LEN - from
  {
    if from == ID_LEN || a[from] != b[from] then from
    else
      var i := FirstDiff(a, b, from + 1);
      assert a[from..i] == [a[from]] + a[from + 1..i];
      assert b[from..i] == [b[from]] + b[from + 1..i];
      i
  }

  /** `bucket_index`: byte number times eight plus the number of the highest set bit in that byte. */
  function BucketIndex(local: PeerId, other: PeerId): (r: Option<nat>)
    ensures r.None? <==> local == other
    ensures r.Some? ==> r.value < NUM_BUCKETS
  {
    var i := FirstDiff(local, other, 0);
    if i == ID_LEN then
      assert local == local[0..i] && other == other[0..i];
      None
    else
      XorZeroIff(local[i], other[i]);
      var x := XorByte(local[i], other[i]);
      Some(i * 8 + (7 - LeadingZeros(x)))
  }

  /** The loop with early return. */
  method FindBucketIndex(local: PeerId, other: PeerId) returns (r: Option<nat>)
    ensures r == BucketIndex(local, other)
  {
    hide XorByte, Xor;
    var distance := ComputeXorDistance(local, other);
    for i := 0 to ID_LEN
      invariant FirstDiff(local, other, 0) == FirstDiff(local, other, i)
    {
      XorZeroIff(local[i], other[i]);
      if distance[i] != 0 {
        return Some(i * 8 + (7 - LeadingZeros(distance[i])));
      }
    }
    return None;
  }

  lemma XorZeroIff(a: Byte, b: Byte)
    ensures XorByte(a, b) == 0 <==> a == b
  {
    XorNatZeroIff(a, b);
  }

  lemma {:induction false} XorNatZeroIff(a: nat, b: nat)
    ensures Xor(a, b) == 0 <==> a == b
    decreases a + b
  {
    if !(a == 0 && b == 0) {
      XorNatZeroIff(a / 2, b / 2);
    }
  }

  // ---------- Geometry ----------

  /** Bit `h` is the highest in which two bytes differ. */
  ghost predicate LeadingBit(a: Byte, b: Byte, h: nat)
  {
    h < 8 && Bit(a, h) != Bit(b, h) && forall j :: h < j < 8 ==> Bit(a, j) == Bit(b, j)
  }

  /** The leading differing bit of two ids: they agree in all bytes before byte `i / 8`, and in that byte bit
      `i % 8`, least significant first, is the highest that differs. */
  ghost predicate LeadingDiff(a: PeerId, b: PeerId, i: nat)
  {
    i < NUM_BUCKETS && a[..i / 8] == b[..i / 8] && LeadingBit(a[i / 8], b[i / 8], i % 8)
  }

  /** The bucket number names the leading differing bit, one to one: bucket `i` holds exactly the ids that first
      differ from the local id at bit `i % 8` of byte `i / 8`. */
  lemma BucketIsLeadingDiff(local: PeerId, other: PeerId, i: nat)
    ensures BucketIndex(local, other) == Some(i) <==> LeadingDiff(local, other, i)
  {
    hide XorByte, LeadingBit, LeadingZeros;
    var b := FirstDiff(local, other, 0);
    if BucketIndex(local, other) == Some(i) {
      assert local[..b] == local[0..b] && other[..b] == other[0..b];
      XorZeroIff(local[b], other[b]);
      LeadingTop(local[b], other[b]);
      assert i / 8 == b && i % 8 == 7 - LeadingZeros(XorByte(local[b], other[b]));
    }
    if LeadingDiff(local, other, i) {
      LeadingDiffers(local[i / 8], other[i / 8], i % 8);
      FirstDiffIs(local, other, i / 8);
      LeadingTop(local[b], other[b]);
      LeadingUnique(local[b], other[b], i % 8, 7 - LeadingZeros(XorByte(local[b], other[b])));
    }
  }

  lemma LeadingDiffers(a: Byte, b: Byte, h: nat)
    requires LeadingBit(a, b, h)
    ensures a != b && h < 8
  {
  }

  lemma LeadingUnique(a: Byte, b: Byte, h: nat, k: nat)
    requires LeadingBit(a, b, h) && LeadingBit(a, b, k)
    ensures h == k
  {
    hide Bit;
  }

  lemma FirstDiffIs(a: PeerId, b: PeerId, i: nat)
    requires i < ID_LEN && a[..i] == b[..i] && a[i] != b[i]
    ensures FirstDiff(a, b, 0) == i
  {
    hide FirstDiff;
    var d := FirstDiff(a, b, 0);
    assert forall k :: 0 <= k < i ==> a[..i][k] == b[..i][k];
    assert forall k :: 0 <= k < d ==> a[0..d][k] == b[0..d][k];
  }

  /** The highest set bit of a XOR is the highest bit in which the operands differ. */
  lemma LeadingTop(a: Byte, b: Byte)
    requires a != b
    ensures LeadingZeros(XorByte(a, b)) < 8 && LeadingBit(a, b, 7 - LeadingZeros(XorByte(a, b)))
  {
    hide Bit, LeadingZeros, Xor;
    XorZeroIff(a, b);
    var x := XorByte(a, b);
    var top := 7 - LeadingZeros(x);
    HighBitBounds(x);
    TopBit(x, top);
    XorBit(a, b, top);
    forall j | top < j < 8 ensures Bit(a, j) == Bit(b, j) {
      HighBitsZero(x, top + 1, j);
      XorBit(a, b, j);
    }
  }

  lemma {:induction false} TopBit(x: nat, h: nat)
    requires Pow2(h) <= x < Pow2(h + 1)
    ensures Bit(x, h)
    decreases h
  {
    if h > 0 {
      TopBit(x / 2, h - 1);
    }
  }

  // ---------- Distance ----------

  /** Array comparison as the source's `sort_by` uses it. */
  predicate LexLess(a: Bytes, b: Bytes)
    requires |a| == |b|
  {
    a != [] && (a[0] < b[0] || (a[0] == b[0] && LexLess(a[1..], b[1..])))
  }

  /** The distance read as a number. */
  function Distance(a: PeerId, b: PeerId): (d: nat)
  {
    FromBE(XorDistance(a, b))
  }

  lemma {:induction false} LexLessSnoc(a: Bytes, b: Bytes, x: Byte, y: Byte)
    requires |a| == |b|
    ensures LexLess(a + [x], b + [y]) <==> LexLess(a, b) || (a == b && x < y)
  {
    if a == [] {
      assert a + [x] == [x] && b + [y] == [y];
    } else {
      LexLessSnoc(a[1..], b[1..], x, y);
      assert (a + [x])[1..] == a[1..] + [x] && (b + [y])[1..] == b[1..] + [y];
      assert a == b <==> a[0] == b[0] && a[1..] == b[1..] by {
        assert a == [a[0]] + a[1..] && b == [b[0]] + b[1..];
      }
    }
  }

  /** Comparing distances byte by byte is comparing them as numbers. */
  lemma {:induction false} LexIsNumeric(a: Bytes, b: Bytes)
    requires |a| == |b|
    ensures LexLess(a, b) <==> FromBE(a) < FromBE(b)
  {
    if a != [] {
      var n := |a| - 1;
      LexIsNumeric(a[..n], b[..n]);
      LexLessSnoc(a[..n], b[..n], a[n], b[n]);
      assert a == a[..n] + [a[n]] && b == b[..n] + [b[n]];
      ToFromBE(a[..n]);
      ToFromBE(b[..n]);
    }
  }

  lemma {:induction false} LexLessAt(a: Bytes, b: Bytes, k: nat)
    requires |a| == |b| && k < |a| && a[..k] == b[..k] && a[k] < b[k]
    ensures LexLess(a, b)
  {
    if k > 0 {
      assert a[..k][0] == b[..k][0];
      assert a[1..][..k - 1] == a[..k][1..] && b[1..][..k - 1] == b[..k][1..];
      LexLessAt(a[1..], b[1..], k - 1);
    }
  }

  lemma {:induction false} XorCancel(x: nat, y: nat, l: nat)
    ensures Xor(Xor(x, l), Xor(y, l)) == Xor(x, y)
    decreases x + y + l
  {
    if x == 0 && y == 0 && l == 0 {
    } else {
      XorCancel(x / 2, y / 2, l / 2);
      XorHalves(x, l);
      XorHalves(y, l);
      XorHalves(x, y);
      XorHalves(Xor(x, l), Xor(y, l));
    }
  }

  lemma XorHalves(a: nat, b: nat)
    ensures Xor(a, b) / 2 == Xor(a / 2, b / 2) && Xor(a, b) % 2 == (if a % 2 != b % 2 then 1 else 0)
  {
  }

  /** Distances to one target tell ids apart. */
  lemma DistanceInjective(x: PeerId, y: PeerId, t: PeerId)
    requires Distance(x, t) == Distance(y, t)
    ensures x == y
  {
    hide XorByte;
    ToFromBE(XorDistance(x, t));
    ToFromBE(XorDistance(y, t));
    assert XorDistance(x, t) == XorDistance(y, t);
    forall i | 0 <= i < ID_LEN ensures x[i] == y[i] {
      assert XorDistance(x, t)[i] == XorDistance(y, t)[i];
      XorSame(x[i], y[i], t[i]);
    }
  }

  lemma XorSame(x: Byte, y: Byte, t: Byte)
    requires XorByte(x, t) == XorByte(y, t)
    ensures x == y
  {
    XorCancel(x, y, t);
    XorZeroIff(XorByte(x, t), XorByte(y, t));
    XorZeroIff(x, y);
  }

  /** Two numbers with the same highest bit differ by less than it. */
  lemma {:induction false} SameTopBit(x: nat, y: nat, h: nat)
    requires Pow2(h) <= x < Pow2(h + 1) && Pow2(h) <= y < Pow2(h + 1)
    ensures Xor(x, y) < Pow2(h)
    decreases h
  {
    if h > 0 {
      SameTopBit(x / 2, y / 2, h - 1);
      XorHalves(x, y);
    } else {
      assert x == 1 && y == 1;
      XorNatZeroIff(x, y);
    }
  }

  /** Two ids in one bucket are closer to each other than to the local id. */
  lemma SameBucketIsCloser(local: PeerId, x: PeerId, y: PeerId)
    requires BucketIndex(local, x).Some? && BucketIndex(local, x) == BucketIndex(local, y)
    ensures LexLess(XorDistance(x, y), XorDistance(x, local))
    ensures Distance(x, y) < Distance(x, local)
  {
    hide XorByte, LeadingZeros, FirstDiff;
    var b := FirstDiff(local, x, 0);
    assert b == FirstDiff(local, y, 0) by {
      SameBucketSameByte(local, x, y);
    }
    SameBucketByte(local[b], x[b], y[b]);
    var near, far := XorDistance(x, y), XorDistance(x, local);
    forall k | 0 <= k < b ensures near[k] == far[k] {
      assert local[0..b][k] == x[0..b][k] && local[0..b][k] == y[0..b][k];
    }
    LexLessAt(near, far, b);
    LexIsNumeric(near, far);
  }

  lemma SameBucketSameByte(local: PeerId, x: PeerId, y: PeerId)
    requires BucketIndex(local, x).Some? && BucketIndex(local, x) == BucketIndex(local, y)
    ensures var b := FirstDiff(local, x, 0);
            && b < ID_LEN && FirstDiff(local, y, 0) == b
            && local[b] != x[b] && local[b] != y[b]
            && LeadingZeros(XorByte(local[b], x[b])) == LeadingZeros(XorByte(local[b], y[b]))
  {
    hide XorByte, LeadingZeros;
    var b, c := FirstDiff(local, x, 0), FirstDiff(local, y, 0);
    XorZeroIff(local[b], x[b]);
    XorZeroIff(local[c], y[c]);
  }

  lemma SameBucketByte(l: Byte, x: Byte, y: Byte)
    requires l != x && l != y && LeadingZeros(XorByte(l, x)) == LeadingZeros(XorByte(l, y))
    ensures XorByte(x, y) < XorByte(x, l)
  {
    hide LeadingZeros;
    XorZeroIff(l, x);
    XorZeroIff(l, y);
    XorCommutes(l, x);
    XorCommutes(l, y);
    HighBitBounds(XorByte(l, x));
    HighBitBounds(XorByte(l, y));
    SameTopBit(XorByte(x, l), XorByte(y, l), 7 - LeadingZeros(XorByte(l, x)));
    XorCancel(x, y, l);
  }

  lemma {:induction false} XorCommutes(a: nat, b: nat)
    ensures Xor(a, b) == Xor(b, a)
    decreases a + b
  {
    if !(a == 0 && b == 0) {
      XorCommutes(a / 2, b / 2);
    }
  }

  // ---------- Lookup targets ----------

  /** The local id with one bit flipped. */
  function Flipped(local: PeerId, bucket: nat): (t: PeerId)
    requires bucket < NUM_BUCKETS
  {
    OneBitIsByte(bucket % 8);
    local[bucket / 8 := XorByte(local[bucket / 8], Pow2(bucket % 8))]
  }

  /** Any id that agrees with the flipped local id up to and including the flipped byte is in that bucket,
      whatever its lower bytes are. */
  lemma TargetInBucket(local: PeerId, target: PeerId, bucket: nat)
    requires bucket < NUM_BUCKETS && target[..bucket / 8 + 1] == Flipped(local, bucket)[..bucket / 8 + 1]
    ensures BucketIndex(local, target) == Some(bucket)
  {
    hide XorByte, Bit, BucketIndex;
    var b := bucket / 8;
    OneBitIsByte(bucket % 8);
    assert target[b] == target[..b + 1][b] == XorByte(local[b], Pow2(bucket % 8));
    forall k | 0 <= k < b ensures local[k] == target[k] {
      assert target[..b + 1][k] == Flipped(local, bucket)[..b + 1][k];
    }
    assert local[..b] == target[..b];
    FlipLeads(local[b], bucket % 8);
    BucketIsLeadingDiff(local, target, bucket);
  }

  lemma FlipLeads(x: Byte, h: nat)
    requires h < 8 && Pow2(h) < 0x100
    ensures LeadingBit(x, XorByte(x, Pow2(h)), h)
  {
    hide Bit, Xor;
    forall j: nat | j < 8 ensures Bit(XorByte(x, Pow2(h)), j) <==> (Bit(x, j) != (j == h)) {
      XorBit(x, Pow2(h), j);
      BitOfPow2(h, j);
    }
  }

  /** `generate_bucket_fill_targets`: every target lies in the bucket it was made for. */
  method GenerateBucketFillTargets(local: PeerId, lookups: nat) returns (targets: seq<PeerId>)
    ensures |targets| == lookups
    ensures forall i :: 0 <= i < lookups ==> BucketIndex(local, targets[i]) == Some((i * NUM_BUCKETS) / lookups)
  {
    hide BucketIndex, XorByte;
    targets := [];
    for i := 0 to lookups
      invariant |targets| == i
      invariant forall k :: 0 <= k < i ==> BucketIndex(local, targets[k]) == Some((k * NUM_BUCKETS) / lookups)
    {
      var bucket := (i * NUM_BUCKETS) / lookups;
      BucketInRange(i, lookups);
      var flipped := Flipped(local, bucket);
      var bytes := new Byte[ID_LEN](k requires 0 <= k < ID_LEN => flipped[k]);
      var seed := ((i % 0x100) * 0x9E + 0x37) % 0x100;
      for k := bucket / 8 + 1 to ID_LEN
        invariant forall m :: 0 <= m < bucket / 8 + 1 ==> bytes[m] == flipped[m]
      {
        bytes[k] := XorByte(bytes[k], seed);
      }
      var target: PeerId := bytes[..];
      assert target[..bucket / 8 + 1] == flipped[..bucket / 8 + 1];
      TargetInBucket(local, target, bucket);
      targets := targets + [target];
    }
  }

  lemma BucketInRange(i: nat, n: nat)
    requires i < n
    ensures (i * NUM_BUCKETS) / n < NUM_BUCKETS
  {
    TimesAtLeast((i * NUM_BUCKETS) / n, n);
  }

  lemma TimesAtLeast(q: nat, n: nat)
    ensures q >= NUM_BUCKETS ==> q * n >= NUM_BUCKETS * n
  {
    assert q * n == (q - NUM_BUCKETS) * n + NUM_BUCKETS * n;
  }

  /** `stale_bucket_targets`: one target per stale bucket, in that bucket. */
  function StaleBucketTargets(local: PeerId, stale: seq<nat>): (targets: seq<PeerId>)
    requires forall i :: 0 <= i < |stale| ==> stale[i] < NUM_BUCKETS
  {
    seq(|stale|, i requires 0 <= i < |stale| => Flipped(local, stale[i]))
  }

  lemma StaleTargetsInBuckets(local: PeerId, stale: seq<nat>)
    requires forall i :: 0 <= i < |stale| ==> stale[i] < NUM_BUCKETS
    ensures forall i :: 0 <= i < |stale| ==> BucketIndex(local, StaleBucketTargets(local, stale)[i]) == Some(stale[i])
  {
    hide BucketIndex, Flipped;
    forall i | 0 <= i < |stale| ensures BucketIndex(local, StaleBucketTargets(local, stale)[i]) == Some(stale[i]) {
      TargetInBucket(local, Flipped(local, stale[i]), stale[i]);
    }
  }
}
