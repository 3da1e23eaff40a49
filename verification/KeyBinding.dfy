/** What the keys and the handshake hash of `Noise` stand for.

  The hash function is any function with 32-byte results. Each theorem turns two different histories with the same
  key, or with the same handshake hash, into a collision of that function: a key stands for the direction and the
  three Diffie-Hellman values of one handshake, and the handshake hash for its messages.
 */
module KeyBinding {
  import opened Bits
  import opened Wire
  import opened Wrappers
  import opened Crypto
  import opened Noise

  type HashFn = Bytes -> Bytes

  datatype Collision = Collision(x: Bytes, y: Bytes)

  ghost predicate Collides(hash: HashFn, c: Collision)
  {
    c.x != c.y && hash(c.x) == hash(c.y)
  }

  ghost predicate Sized(hash: HashFn)
  {
    forall x :: |hash(x)| == KEY_SIZE
  }

  // ---------- HMAC ----------

  lemma {:induction false} XorFirst(c: nat, a: nat, b: nat)
    requires Xor(c, a) == Xor(c, b)
    ensures a == b
    decreases c + a + b
  {
    if c != 0 || a != 0 || b != 0 {
      assert Xor(c, a) / 2 == Xor(c / 2, a / 2) && Xor(c, b) / 2 == Xor(c / 2, b / 2);
      assert Xor(c, a) % 2 == Xor(c, b) % 2;
      XorFirst(c / 2, a / 2, b / 2);
    }
  }

  lemma PadBinds(hash: HashFn, k1: Bytes, k2: Bytes, byte: Byte)
    requires |k1| == |k2| <= BLOCK && k1 != k2
    ensures Pad(BlockKey(hash, k1), byte) != Pad(BlockKey(hash, k2), byte)
  {
    hide XorByte;
    var i :| 0 <= i < |k1| && k1[i] != k2[i];
    assert BlockKey(hash, k1)[i] == k1[i] && BlockKey(hash, k2)[i] == k2[i];
    if Pad(BlockKey(hash, k1), byte)[i] == Pad(BlockKey(hash, k2), byte)[i] {
      assert XorByte(byte, k1[i]) == XorByte(byte, k2[i]);
      PadByte(byte, k1[i], k2[i]);
    }
  }

  lemma PadByte(byte: Byte, a: Byte, b: Byte)
    requires XorByte(byte, a) == XorByte(byte, b)
    ensures a == b
  {
    XorFirst(byte, a, b);
  }

  /** An HMAC under a 32-byte key stands for its key and its data. */
  lemma HmacBinds(hash: HashFn, k1: Bytes, d1: Bytes, k2: Bytes, d2: Bytes) returns (c: Collision)
    requires Sized(hash) && |k1| == |k2| == KEY_SIZE && (k1 != k2 || d1 != d2)
    requires Hmac(hash, k1, d1) == Hmac(hash, k2, d2)
    ensures Collides(hash, c)
  {
    hide Pad, BlockKey;
    var p1, p2 := Pad(BlockKey(hash, k1), 0x5C), Pad(BlockKey(hash, k2), 0x5C);
    var in1, in2 := Pad(BlockKey(hash, k1), 0x36) + d1, Pad(BlockKey(hash, k2), 0x36) + d2;
    c := Collision(p1 + hash(in1), p2 + hash(in2));
    assert c.x[..BLOCK] == p1 && c.y[..BLOCK] == p2 && c.x[BLOCK..] == hash(in1) && c.y[BLOCK..] == hash(in2);
    if k1 != k2 {
      PadBinds(hash, k1, k2, 0x5C);
    } else if hash(in1) == hash(in2) {
      assert in1[BLOCK..] == d1 && in2[BLOCK..] == d2;
      c := Collision(in1, in2);
    }
  }

  // ---------- HKDF ----------

  function Extract(hash: HashFn, salt: Bytes, input: Bytes): (prk: Bytes)
  {
    Hmac(hash, salt, input)
  }

  /** `T(i)` of section 2.3 of RFC 5869. */
  function T(hash: HashFn, prk: Bytes, info: Bytes, i: nat): (t: Bytes)
    requires i < 0x100
  {
    if i == 0 then [] else Hmac(hash, prk, T(hash, prk, info, i - 1) + info + [i])
  }

  /** `T(1) | ... | T(n)`. */
  function Blocks(hash: HashFn, prk: Bytes, info: Bytes, n: nat): (s: Bytes)
    requires n < 0x100
  {
    if n == 0 then [] else Blocks(hash, prk, info, n - 1) + T(hash, prk, info, n)
  }

  /** The first `length` bytes of the blocks, `n` being the number of blocks that takes. */
  function Expand(hash: HashFn, prk: Bytes, info: Bytes, length: nat): (okm: Bytes)
    requires (length + KEY_SIZE - 1) / KEY_SIZE < 0x100
    requires length <= |Blocks(hash, prk, info, (length + KEY_SIZE - 1) / KEY_SIZE)|
  {
    Blocks(hash, prk, info, (length + KEY_SIZE - 1) / KEY_SIZE)[..length]
  }

  /** `hkdf` is HKDF as RFC 5869 has it, with empty info and 64 bytes of output, cut in two. */
  lemma HkdfIsRfc5869(hash: HashFn, salt: Bytes, input: Bytes)
    requires Sized(hash)
    ensures var d, prk := Hkdf(hash, salt, input), Extract(hash, salt, input);
            && |Blocks(hash, prk, [], 2)| == 64
            && d.ck == Expand(hash, prk, [], 64)[..32] && d.key == Expand(hash, prk, [], 64)[32..]
  {
    hide Hmac;
    var prk := Extract(hash, salt, input);
    HmacSize(hash, prk, [1]);
    assert T(hash, prk, [], 0) + [] + [1] == [1];
    assert T(hash, prk, [], 1) + [] + [2] == T(hash, prk, [], 1) + [2];
    HmacSize(hash, prk, T(hash, prk, [], 1) + [2]);
    assert Blocks(hash, prk, [], 1) == [] + T(hash, prk, [], 1);
    assert Blocks(hash, prk, [], 2) == T(hash, prk, [], 1) + T(hash, prk, [], 2);
  }

  lemma HmacSize(hash: HashFn, key: Bytes, data: Bytes)
    requires Sized(hash)
    ensures |Hmac(hash, key, data)| == KEY_SIZE
  {
  }

  /** One of the two outputs. */
  function Half(d: Derived, first: bool): (key: Bytes)
  {
    if first then d.ck else d.key
  }

  /** An output of the derivation stands for its salt, its input and its place. */
  lemma HkdfBinds(hash: HashFn, s1: Bytes, i1: Bytes, first1: bool, s2: Bytes, i2: Bytes, first2: bool)
    returns (c: Collision)
    requires Sized(hash) && |s1| == |s2| == KEY_SIZE && (s1 != s2 || i1 != i2 || first1 != first2)
    requires Half(Hkdf(hash, s1, i1), first1) == Half(Hkdf(hash, s2, i2), first2)
    ensures Collides(hash, c)
  {
    hide Hmac, Collides;
    var p1, p2 := Hmac(hash, s1, i1), Hmac(hash, s2, i2);
    HmacSize(hash, s1, i1);
    HmacSize(hash, s2, i2);
    var t1, t2 := Hmac(hash, p1, [1]), Hmac(hash, p2, [1]);
    HmacSize(hash, p1, [1]);
    HmacSize(hash, p2, [1]);
    var d1, d2 := if first1 then [1] else t1 + [2], if first2 then [1] else t2 + [2];
    if p1 != p2 || d1 != d2 {
      c := HmacBinds(hash, p1, d1, p2, d2);
    } else {
      assert |d1| == |d2|;
      c := HmacBinds(hash, s1, i1, s2, i2);
    }
  }

  // ---------- Chaining key and handshake hash ----------

  /** The chaining key after the inputs have been mixed in, one after another. */
  function Chain(hash: HashFn, start: Bytes, inputs: seq<Bytes>): (ck: Bytes)
  {
    if inputs == [] then start
    else Hkdf(hash, Chain(hash, start, inputs[..|inputs| - 1]), inputs[|inputs| - 1]).ck
  }

  /** The handshake hash after the messages have been mixed in. */
  function Transcript(hash: HashFn, start: Bytes, parts: seq<Bytes>): (h: Bytes)
  {
    if parts == [] then start else hash(Transcript(hash, start, parts[..|parts| - 1]) + parts[|parts| - 1])
  }

  lemma ChainSize(hash: HashFn, start: Bytes, inputs: seq<Bytes>)
    requires Sized(hash) && |start| == KEY_SIZE
    ensures |Chain(hash, start, inputs)| == KEY_SIZE
  {
  }

  lemma TranscriptSize(hash: HashFn, start: Bytes, parts: seq<Bytes>)
    requires Sized(hash) && |start| == KEY_SIZE
    ensures |Transcript(hash, start, parts)| == KEY_SIZE
  {
  }

  lemma LastDiffers<A>(a: seq<A>, b: seq<A>)
    requires |a| == |b| > 0 && a != b
    ensures a[..|a| - 1] != b[..|b| - 1] || a[|a| - 1] != b[|b| - 1]
  {
    assert a == a[..|a| - 1] + [a[|a| - 1]] && b == b[..|b| - 1] + [b[|b| - 1]];
  }

  lemma {:induction false} ChainBinds(hash: HashFn, start: Bytes, a: seq<Bytes>, b: seq<Bytes>) returns (c: Collision)
    requires Sized(hash) && |start| == KEY_SIZE && |a| == |b| && a != b
    requires Chain(hash, start, a) == Chain(hash, start, b)
    ensures Collides(hash, c)
    decreases |a|
  {
    hide Hkdf, Collides;
    var n := |a| - 1;
    LastDiffers(a, b);
    var before, before' := Chain(hash, start, a[..n]), Chain(hash, start, b[..n]);
    ChainSize(hash, start, a[..n]);
    ChainSize(hash, start, b[..n]);
    if before == before' && a[n] == b[n] {
      c := ChainBinds(hash, start, a[..n], b[..n]);
    } else {
      c := HkdfBinds(hash, before, a[n], true, before', b[n], true);
    }
  }

  lemma {:induction false} TranscriptBinds(hash: HashFn, start: Bytes, a: seq<Bytes>, b: seq<Bytes>)
    returns (c: Collision)
    requires Sized(hash) && |start| == KEY_SIZE && |a| == |b| && a != b
    requires Transcript(hash, start, a) == Transcript(hash, start, b)
    ensures Collides(hash, c)
    decreases |a|
  {
    var n := |a| - 1;
    LastDiffers(a, b);
    var before, before' := Transcript(hash, start, a[..n]), Transcript(hash, start, b[..n]);
    TranscriptSize(hash, start, a[..n]);
    TranscriptSize(hash, start, b[..n]);
    c := Collision(before + a[n], before' + b[n]);
    assert c.x[..KEY_SIZE] == before && c.y[..KEY_SIZE] == before';
    assert c.x[KEY_SIZE..] == a[n] && c.y[KEY_SIZE..] == b[n];
    if c.x == c.y {
      c := TranscriptBinds(hash, start, a[..n], b[..n]);
    }
  }

  // ---------- What each message mixes, seals and opens ----------

  /** The hash and the chaining key are those of these messages and these key inputs. */
  ghost predicate Stands(suite: Suite, hs: Handshake, parts: seq<Bytes>, inputs: seq<Bytes>)
  {
    var start := suite.hash(ProtocolName());
    hs.h == Transcript(suite.hash, start, parts) && hs.ck == Chain(suite.hash, start, inputs)
  }

  /** The cipher key that comes with the last input. */
  function CipherKey(suite: Suite, inputs: seq<Bytes>): (key: Bytes)
    requires inputs != []
  {
    var n := |inputs| - 1;
    Hkdf(suite.hash, Chain(suite.hash, suite.hash(ProtocolName()), inputs[..n]), inputs[n]).key
  }

  /** A box under the cipher key of the inputs, bound to the messages so far. */
  function Sealed(suite: Suite, parts: seq<Bytes>, inputs: seq<Bytes>, text: Bytes): (box: Bytes)
    requires inputs != []
  {
    var h := Transcript(suite.hash, suite.hash(ProtocolName()), parts);
    suite.aead.seal(CipherKey(suite, inputs), BuildNonce(0), h, text)
  }

  function Opened(suite: Suite, parts: seq<Bytes>, inputs: seq<Bytes>, box: Bytes): (text: Option<Bytes>)
    requires inputs != []
  {
    var h := Transcript(suite.hash, suite.hash(ProtocolName()), parts);
    suite.aead.open(CipherKey(suite, inputs), BuildNonce(0), h, box)
  }

  lemma MixHashStands(suite: Suite, hs: Handshake, parts: seq<Bytes>, inputs: seq<Bytes>, data: Bytes)
    requires Stands(suite, hs, parts, inputs)
    ensures Stands(suite, MixHash(suite, hs, data), parts + [data], inputs)
  {
    assert (parts + [data])[..|parts|] == parts;
  }

  lemma MixKeyStands(suite: Suite, hs: Handshake, parts: seq<Bytes>, inputs: seq<Bytes>, input: Bytes)
    requires Stands(suite, hs, parts, inputs)
    ensures Stands(suite, MixKey(suite, hs, input).0, parts, inputs + [input])
    ensures MixKey(suite, hs, input).1 == CipherKey(suite, inputs + [input])
  {
    assert (inputs + [input])[..|inputs|] == inputs;
  }

  /** Message 2 is the ephemeral key, the static key sealed under `ee` and an empty box sealed under `ee` and `es`,
      each bound to everything before it. */
  lemma Write2Stands(suite: Suite, hs: Handshake, parts: seq<Bytes>, inputs: seq<Bytes>, secret: Bytes,
                     ephemeral: Bytes, remoteE: Bytes)
    requires Stands(suite, hs, parts, inputs)
    ensures var w := Write2(suite, hs, secret, ephemeral, remoteE);
            var e, ee, es := suite.public(ephemeral), suite.dh(ephemeral, remoteE), suite.dh(secret, remoteE);
            var boxS := Sealed(suite, parts + [e], inputs + [ee], suite.public(secret));
            var boxP := Sealed(suite, parts + [e] + [boxS], inputs + [ee] + [es], []);
            && w.result == Success(e + boxS + boxP) && w.hs.phase == SentMsg2(remoteE, ephemeral)
            && Stands(suite, w.hs, parts + [e] + [boxS] + [boxP], inputs + [ee] + [es])
  {
    var e, ee, es := suite.public(ephemeral), suite.dh(ephemeral, remoteE), suite.dh(secret, remoteE);
    var boxS := Sealed(suite, parts + [e], inputs + [ee], suite.public(secret));
    var boxP := Sealed(suite, parts + [e] + [boxS], inputs + [ee] + [es], []);
    MixHashStands(suite, hs, parts, inputs, e);
    var hs1 := MixHash(suite, hs, e);
    MixKeyStands(suite, hs1, parts + [e], inputs, ee);
    var hs2 := MixKey(suite, hs1, ee).0;
    MixHashStands(suite, hs2, parts + [e], inputs + [ee], boxS);
    var hs3 := MixHash(suite, hs2, boxS);
    MixKeyStands(suite, hs3, parts + [e] + [boxS], inputs + [ee], es);
    var hs4 := MixKey(suite, hs3, es).0;
    MixHashStands(suite, hs4, parts + [e] + [boxS], inputs + [ee] + [es], boxP);
    hide MixHash, MixKey, CipherKey, Transcript;
  }

  lemma Read2Stands(suite: Suite, hs: Handshake, parts: seq<Bytes>, inputs: seq<Bytes>, msg: Bytes)
    requires Stands(suite, hs, parts, inputs) && Read2(suite, hs, msg).result.Success?
    ensures |msg| >= 96 && hs.phase.SentMsg1?
    ensures var r, ephemeral := Read2(suite, hs, msg), hs.phase.ephemeral;
            var e, boxS, boxP, s := msg[..32], msg[32..80], msg[80..], r.result.value.remoteStatic;
            var ee, es := suite.dh(ephemeral, e), suite.dh(ephemeral, s);
            && r.result.value.remoteEphemeral == e
            && Opened(suite, parts + [e], inputs + [ee], boxS) == Some(s)
            && Opened(suite, parts + [e] + [boxS], inputs + [ee] + [es], boxP).Some?
            && Stands(suite, r.hs, parts + [e] + [boxS] + [boxP], inputs + [ee] + [es])
  {
    var r, ephemeral := Read2(suite, hs, msg), hs.phase.ephemeral;
    var e, boxS, boxP, s := msg[..32], msg[32..80], msg[80..], r.result.value.remoteStatic;
    var ee, es := suite.dh(ephemeral, e), suite.dh(ephemeral, s);
    MixHashStands(suite, hs, parts, inputs, e);
    var hs1 := MixHash(suite, hs, e);
    MixKeyStands(suite, hs1, parts + [e], inputs, ee);
    var hs2 := MixKey(suite, hs1, ee).0;
    MixHashStands(suite, hs2, parts + [e], inputs + [ee], boxS);
    var hs3 := MixHash(suite, hs2, boxS);
    MixKeyStands(suite, hs3, parts + [e] + [boxS], inputs + [ee], es);
    var hs4 := MixKey(suite, hs3, es).0;
    MixHashStands(suite, hs4, parts + [e] + [boxS], inputs + [ee] + [es], boxP);
    hide MixHash, MixKey, CipherKey, Transcript;
  }

  /** Message 3 is the static key sealed under a key of its own, derived from an empty input. */
  lemma Write3Stands(suite: Suite, hs: Handshake, parts: seq<Bytes>, inputs: seq<Bytes>, secret: Bytes, peer: Learned)
    requires Stands(suite, hs, parts, inputs)
    ensures var w, se := Write3(suite, hs, secret, peer), suite.dh(secret, peer.remoteEphemeral);
            var box := Sealed(suite, parts, inputs + [[]], suite.public(secret));
            && w.result == Success(box) && w.hs.phase.Complete? && w.hs.phase.keys.remoteStatic == peer.remoteStatic
            && Stands(suite, w.hs, parts + [box], inputs + [[]] + [se])
            && w.hs.phase.keys.sendKey == Hkdf(suite.hash, w.hs.ck, []).ck
            && w.hs.phase.keys.recvKey == Hkdf(suite.hash, w.hs.ck, []).key
  {
    var se := suite.dh(secret, peer.remoteEphemeral);
    var box := Sealed(suite, parts, inputs + [[]], suite.public(secret));
    MixKeyStands(suite, hs, parts, inputs, []);
    var hs1 := MixKey(suite, hs, []).0;
    MixHashStands(suite, hs1, parts, inputs + [[]], box);
    MixKeyStands(suite, MixHash(suite, hs1, box), parts + [box], inputs + [[]], se);
    hide Hkdf, CipherKey, Transcript;
  }

  lemma Read3Stands(suite: Suite, hs: Handshake, parts: seq<Bytes>, inputs: seq<Bytes>, msg: Bytes)
    requires Stands(suite, hs, parts, inputs) && Read3(suite, hs, msg).result.Success?
    ensures hs.phase.SentMsg2? && Read3(suite, hs, msg).hs.phase.Complete?
    ensures var r := Read3(suite, hs, msg).hs;
            var se := suite.dh(hs.phase.ephemeral, r.phase.keys.remoteStatic);
            && Opened(suite, parts, inputs + [[]], msg) == Some(r.phase.keys.remoteStatic)
            && Stands(suite, r, parts + [msg], inputs + [[]] + [se])
            && r.phase.keys.sendKey == Hkdf(suite.hash, r.ck, []).key
            && r.phase.keys.recvKey == Hkdf(suite.hash, r.ck, []).ck
  {
    var se := suite.dh(hs.phase.ephemeral, Read3(suite, hs, msg).hs.phase.keys.remoteStatic);
    MixKeyStands(suite, hs, parts, inputs, []);
    var hs1 := MixKey(suite, hs, []).0;
    MixHashStands(suite, hs1, parts, inputs + [[]], msg);
    MixKeyStands(suite, MixHash(suite, hs1, msg), parts + [msg], inputs + [[]], se);
    hide Hkdf, CipherKey, Transcript;
  }

  // ---------- Whole handshakes ----------

  /** One side of a handshake: its two secrets and the messages it is given. */
  datatype Side =
    | Initiator(secret: Bytes, ephemeral: Bytes, msg2: Bytes)
    | Responder(secret: Bytes, ephemeral: Bytes, msg1: Bytes, msg3: Bytes)

  /** What the responder answers to message 1. */
  function Reply(suite: Suite, side: Side): (r: Stepped<Bytes>)
    requires side.Responder?
  {
    Process1(suite, Initial(suite), side.secret, side.ephemeral, side.msg1)
  }

  /** The last step of a side that uses a new handshake object. */
  function LastStep(suite: Suite, side: Side): (hs: Handshake)
  {
    match side
    case Initiator(secret, ephemeral, msg2) =>
      Process2(suite, Write1(suite, true, Initial(suite), ephemeral).hs, secret, msg2).hs
    case Responder(_, _, _, msg3) => Read3(suite, Reply(suite, side).hs, msg3).hs
  }

  predicate Done(suite: Suite, side: Side)
  {
    LastStep(suite, side).phase.Complete?
  }

  /** The key inputs of a finished side: `ee`, `es`, nothing, `se`. */
  function Inputs(suite: Suite, side: Side): (inputs: seq<Bytes>)
    requires Done(suite, side)
    ensures |inputs| == 4
  {
    var s := LastStep(suite, side).phase.keys.remoteStatic;
    match side
    case Initiator(secret, ephemeral, msg2) =>
      var e := if |msg2| < 32 then msg2 else msg2[..32];
      [suite.dh(ephemeral, e), suite.dh(ephemeral, s), [], suite.dh(secret, e)]
    case Responder(secret, ephemeral, msg1, _) =>
      [suite.dh(ephemeral, msg1), suite.dh(secret, msg1), [], suite.dh(ephemeral, s)]
  }

  /** The key for one direction: from the initiator to the responder, or back. */
  function KeyFor(suite: Suite, side: Side, forth: bool): (key: Bytes)
    requires Done(suite, side)
  {
    var keys := LastStep(suite, side).phase.keys;
    if side.Initiator? == forth then keys.sendKey else keys.recvKey
  }

  /** The messages a finished side has seen, in order. */
  ghost predicate Saw(suite: Suite, side: Side, m1: Bytes, m2: Bytes, m3: Bytes)
    requires Done(suite, side)
  {
    match side
    case Initiator(secret, ephemeral, msg2) =>
      && m1 == suite.public(ephemeral) && m2 == msg2
      && Process2(suite, Write1(suite, true, Initial(suite), ephemeral).hs, secret, msg2).result == Success(m3)
    case Responder(_, _, msg1, msg3) => m1 == msg1 && Reply(suite, side).result == Success(m2) && m3 == msg3
  }

  /** The pieces in which the messages enter the handshake hash. */
  function Parts(m1: Bytes, m2: Bytes, m3: Bytes): (parts: seq<Bytes>)
    requires |m2| >= 80
    ensures |parts| == 5
  {
    [m1, m2[..32], m2[32..80], m2[80..], m3]
  }

  lemma InitialStands(suite: Suite)
    ensures Stands(suite, Initial(suite), [], [])
  {
  }

  lemma InitiatorStands(suite: Suite, side: Side) returns (m1: Bytes, m2: Bytes, m3: Bytes)
    requires side.Initiator? && Done(suite, side)
    ensures Saw(suite, side, m1, m2, m3) && |m2| >= 96
    ensures Stands(suite, LastStep(suite, side), Parts(m1, m2, m3), Inputs(suite, side))
    ensures forall forth :: KeyFor(suite, side, forth)
                         == Half(Hkdf(suite.hash, LastStep(suite, side).ck, []), forth)
  {
    hide Hkdf, Stands, Read2, Write3;
    m1, m2 := suite.public(side.ephemeral), side.msg2;
    var hs := Write1(suite, true, Initial(suite), side.ephemeral).hs;
    assert Stands(suite, hs, [m1], []) by {
      InitialStands(suite);
      MixHashStands(suite, Initial(suite), [], [], m1);
      assert [] + [m1] == [m1];
      SamePhase(suite, MixHash(suite, Initial(suite), m1), [m1], [], SentMsg1(side.ephemeral));
    }
    FailedRead2(suite, hs, m2);
    var read := Read2(suite, hs, m2);
    Read2Stands(suite, hs, [m1], [], m2);
    var parts := [m1] + [m2[..32]] + [m2[32..80]] + [m2[80..]];
    var ee := suite.dh(side.ephemeral, m2[..32]);
    var es := suite.dh(side.ephemeral, read.result.value.remoteStatic);
    Write3Stands(suite, read.hs, parts, [] + [ee] + [es], side.secret, read.result.value);
    m3 := Process2(suite, hs, side.secret, m2).result.value;
    assert parts + [m3] == Parts(m1, m2, m3);
    assert [] + [ee] + [es] + [[]] + [Inputs(suite, side)[3]] == Inputs(suite, side);
  }

  lemma SamePhase(suite: Suite, hs: Handshake, parts: seq<Bytes>, inputs: seq<Bytes>, phase: Phase)
    requires Stands(suite, hs, parts, inputs)
    ensures Stands(suite, hs.(phase := phase), parts, inputs)
  {
  }

  /** A step that fails leaves the phase as it was. */
  lemma FailedRead2(suite: Suite, hs: Handshake, msg: Bytes)
    ensures Read2(suite, hs, msg).hs.phase == hs.phase
  {
  }

  lemma FailedRead3(suite: Suite, hs: Handshake, msg: Bytes)
    requires !hs.phase.Complete?
    ensures Read3(suite, hs, msg).hs.phase.Complete? ==> Read3(suite, hs, msg).result.Success?
  {
  }

  lemma ResponderStands(suite: Suite, side: Side) returns (m1: Bytes, m2: Bytes, m3: Bytes)
    requires suite.Lawful() && side.Responder? && Done(suite, side)
    ensures Saw(suite, side, m1, m2, m3) && |m2| >= 96
    ensures Stands(suite, LastStep(suite, side), Parts(m1, m2, m3), Inputs(suite, side))
    ensures forall forth :: KeyFor(suite, side, forth)
                         == Half(Hkdf(suite.hash, LastStep(suite, side).ck, []), forth)
  {
    hide Hkdf, Stands, Read3, Write2;
    m1, m3 := side.msg1, side.msg3;
    assert !Read1(suite, Initial(suite), m1).result.Success? ==>
             LastStep(suite, side) == Read3(suite, Initial(suite), m3).hs;
    FailedRead3(suite, Initial(suite), m3);
    NotReady(suite, Initial(suite), m3);
    assert |m1| == KEY_SIZE;
    var hs := MixHash(suite, Initial(suite), m1);
    InitialStands(suite);
    MixHashStands(suite, Initial(suite), [], [], m1);
    assert [] + [m1] == [m1];
    Write2Stands(suite, hs, [m1], [], side.secret, side.ephemeral, m1);
    var w := Write2(suite, hs, side.secret, side.ephemeral, m1);
    m2 := w.result.value;
    var e, ee, es := suite.public(side.ephemeral), suite.dh(side.ephemeral, m1), suite.dh(side.secret, m1);
    var boxS := Sealed(suite, [m1] + [e], [] + [ee], suite.public(side.secret));
    var boxP := Sealed(suite, [m1] + [e] + [boxS], [] + [ee] + [es], []);
    ReplyCut(suite, e, boxS, boxP, m2);
    FailedRead3(suite, w.hs, m3);
    Read3Stands(suite, w.hs, [m1] + [e] + [boxS] + [boxP], [] + [ee] + [es], m3);
    assert [m1] + [e] + [boxS] + [boxP] + [m3] == Parts(m1, m2, m3);
    assert [] + [ee] + [es] + [[]] + [Inputs(suite, side)[3]] == Inputs(suite, side);
  }

  lemma NotReady(suite: Suite, hs: Handshake, msg: Bytes)
    requires hs.phase.New?
    ensures Read3(suite, hs, msg).result.Failure?
  {
  }

  lemma ReplyCut(suite: Suite, e: Bytes, boxS: Bytes, boxP: Bytes, m2: Bytes)
    requires |e| == 32 && |boxS| == 48 && |boxP| == 16 && m2 == e + boxS + boxP
    ensures |m2| == 96 && m2[..32] == e && m2[32..80] == boxS && m2[80..] == boxP
  {
  }

  lemma SideStands(suite: Suite, side: Side) returns (m1: Bytes, m2: Bytes, m3: Bytes)
    requires suite.Lawful() && Done(suite, side)
    ensures Saw(suite, side, m1, m2, m3) && |m2| >= 96
    ensures Stands(suite, LastStep(suite, side), Parts(m1, m2, m3), Inputs(suite, side))
    ensures forall forth :: KeyFor(suite, side, forth)
                         == Half(Hkdf(suite.hash, LastStep(suite, side).ck, []), forth)
  {
    hide Hkdf, Stands, LastStep;
    if side.Initiator? {
      m1, m2, m3 := InitiatorStands(suite, side);
    } else {
      m1, m2, m3 := ResponderStands(suite, side);
    }
  }

  /** A session key belongs to one direction and to one triple of Diffie-Hellman values: two finished sides of any
      roles that hold the same key hold it for the same direction and have the same `ee`, `es` and `se`, unless the
      hash function collides. */
  lemma SessionKeyBinds(suite: Suite, a: Side, forthA: bool, b: Side, forthB: bool) returns (c: Collision)
    requires suite.Lawful() && Done(suite, a) && Done(suite, b)
    requires KeyFor(suite, a, forthA) == KeyFor(suite, b, forthB)
    requires forthA != forthB || Inputs(suite, a) != Inputs(suite, b)
    ensures Collides(suite.hash, c)
  {
    hide Hkdf, Chain, Transcript, LastStep, KeyFor, Inputs, Collides, Saw, Half;
    var a1, a2, a3 := SideStands(suite, a);
    var b1, b2, b3 := SideStands(suite, b);
    var start := suite.hash(ProtocolName());
    var ca, cb := Chain(suite.hash, start, Inputs(suite, a)), Chain(suite.hash, start, Inputs(suite, b));
    ChainSize(suite.hash, start, Inputs(suite, a));
    ChainSize(suite.hash, start, Inputs(suite, b));
    if forthA != forthB || ca != cb {
      c := HkdfBinds(suite.hash, ca, [], forthA, cb, [], forthB);
    } else {
      c := ChainBinds(suite.hash, start, Inputs(suite, a), Inputs(suite, b));
    }
  }

  /** The handshake hash stands for the three messages: two finished sides with the same hash have seen the same
      messages, unless the hash function collides. */
  lemma HandshakeHashBinds(suite: Suite, a: Side, b: Side, ma: (Bytes, Bytes, Bytes), mb: (Bytes, Bytes, Bytes))
    returns (c: Collision)
    requires suite.Lawful() && Done(suite, a) && Done(suite, b)
    requires Saw(suite, a, ma.0, ma.1, ma.2) && Saw(suite, b, mb.0, mb.1, mb.2) && ma != mb
    requires LastStep(suite, a).h == LastStep(suite, b).h
    ensures Collides(suite.hash, c)
  {
    hide Hkdf, Chain, Transcript, LastStep, KeyFor, Inputs, Collides, Process2, Reply;
    var a1, a2, a3 := SideStands(suite, a);
    var b1, b2, b3 := SideStands(suite, b);
    assert ma == (a1, a2, a3) && mb == (b1, b2, b3);
    if Parts(a1, a2, a3) == Parts(b1, b2, b3) {
      SameParts(a1, a2, a3, b1, b2, b3);
    }
    var start := suite.hash(ProtocolName());
    c := TranscriptBinds(suite.hash, start, Parts(a1, a2, a3), Parts(b1, b2, b3));
  }

  lemma SameParts(a1: Bytes, a2: Bytes, a3: Bytes, b1: Bytes, b2: Bytes, b3: Bytes)
    requires |a2| >= 80 && |b2| >= 80 && Parts(a1, a2, a3) == Parts(b1, b2, b3)
    ensures (a1, a2, a3) == (b1, b2, b3)
  {
    var p, q := Parts(a1, a2, a3), Parts(b1, b2, b3);
    assert p[0] == q[0] && p[1] == q[1] && p[2] == q[2] && p[3] == q[3] && p[4] == q[4];
    assert a2 == p[1] + p[2] + p[3] && b2 == q[1] + q[2] + q[3];
  }
}
