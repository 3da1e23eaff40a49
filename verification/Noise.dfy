/** The three-message handshake: `crates/ceky-crypto/src/noise.rs`.

  Key agreement, AEAD and hash are those of a `Suite`. Each message is split into its reading half and its
  writing half, so that the two sides can be compared after every message. `NoiseHandshake` is the object
  whose methods update `h`, `ck` and the phase in place.
 */
module Noise {
  import opened Bits
  import opened Wire
  import opened Wrappers
  import opened Crypto

  datatype Suite = Suite(aead: Aead, hash: Bytes -> Bytes, public: Bytes -> Bytes, dh: (Bytes, Bytes) -> Bytes)
  {
    /** Diffie-Hellman commutes; hashes and public keys are 32 bytes. */
    ghost predicate Lawful()
    {
      && aead.Lawful()
      && (forall x :: |hash(x)| == KEY_SIZE)
      && (forall k :: |public(k)| == KEY_SIZE)
      && (forall a, b :: dh(a, public(b)) == dh(b, public(a)))
    }
  }

  // ---------- Key derivation ----------

  const BLOCK: nat := 64

  /** A key brought to the block size: short keys are padded with zeros, long keys are hashed first. */
  function BlockKey(hash: Bytes -> Bytes, key: Bytes): (k: Bytes)
    ensures |k| == BLOCK
  {
    var material := if |key| <= BLOCK then key else hash(key);
    seq(BLOCK, i requires 0 <= i < BLOCK => if i < |material| then material[i] else 0)
  }

  lemma BlockKeyIs(hash: Bytes -> Bytes, key: Bytes, material: Bytes, block: Bytes)
    requires material == (if |key| <= BLOCK then key else hash(key)) && |block| == BLOCK
    requires forall m :: 0 <= m < BLOCK ==> block[m] == if m < |material| then material[m] else 0
    ensures block == BlockKey(hash, key)
  {
  }

  function Pad(k: Bytes, byte: Byte): (p: Bytes)
    ensures |p| == |k|
  {
    seq(|k|, i requires 0 <= i < |k| => XorByte(byte, k[i]))
  }

  /** HMAC as in section 2 of RFC 2104: H((K ^ opad) | H((K ^ ipad) | m)). */
  function Hmac(hash: Bytes -> Bytes, key: Bytes, data: Bytes): (out: Bytes)
  {
    var k := BlockKey(hash, key);
    hash(Pad(k, 0x5C) + hash(Pad(k, 0x36) + data))
  }

  /** `hmac_sha256`, which builds both pads in one loop over local arrays. */
  method HmacSha256(hash: Bytes -> Bytes, key: Bytes, data: Bytes) returns (out: Bytes)
    requires |hash(key)| == KEY_SIZE
    ensures out == Hmac(hash, key, data)
  {
    hide XorByte, BlockKey;
    var material := key;
    if |key| > BLOCK {
      material := hash(key);
    }
    var block := new Byte[BLOCK](_ => 0);
    for i := 0 to |material|
      invariant forall m :: 0 <= m < BLOCK ==> block[m] == if m < i then material[m] else 0
    {
      block[i] := material[i];
    }
    BlockKeyIs(hash, key, material, block[..]);
    var ipad := new Byte[BLOCK](_ => 0x36);
    var opad := new Byte[BLOCK](_ => 0x5C);
    for i := 0 to BLOCK
      invariant block[..] == BlockKey(hash, key)
      invariant forall m :: 0 <= m < i ==> ipad[m] == XorByte(0x36, block[m]) && opad[m] == XorByte(0x5C, block[m])
      invariant forall m :: i <= m < BLOCK ==> ipad[m] == 0x36 && opad[m] == 0x5C
    {
      ipad[i] := XorByte(ipad[i], block[i]);
      opad[i] := XorByte(opad[i], block[i]);
    }
    assert ipad[..] == Pad(block[..], 0x36);
    assert opad[..] == Pad(block[..], 0x5C);
    out := hash(opad[..] + hash(ipad[..] + data));
  }

  datatype Derived = Derived(ck: Bytes, key: Bytes)

  /** HKDF with empty info, two outputs: sections 2.2 and 2.3 of RFC 5869. */
  function Hkdf(hash: Bytes -> Bytes, salt: Bytes, input: Bytes): (r: Derived)
  {
    var prk := Hmac(hash, salt, input);
    var first := Hmac(hash, prk, [1]);
    Derived(first, Hmac(hash, prk, first + [2]))
  }

  // ---------- Handshake state ----------

  datatype Phase =
    | New
    | SentMsg1(ephemeral: Bytes)
    | SentMsg2(remoteEphemeral: Bytes, ephemeral: Bytes)
    | Complete(keys: SessionKeys)

  datatype SessionKeys = SessionKeys(sendKey: Bytes, recvKey: Bytes, remoteStatic: Bytes)

  /** `h`, `ck` and the phase. */
  datatype Handshake = Handshake(h: Bytes, ck: Bytes, phase: Phase)

  datatype NoiseError = InvalidHandshakeState | HandshakeFailed | DecryptionFailed | LengthPanic

  /** A step returns the state it leaves behind, also when it fails. */
  datatype Stepped<+T> = Stepped(hs: Handshake, result: Result<T, NoiseError>)

  function ProtocolName(): (s: Bytes)
  {
    // "Noise_XX_25519_ChaChaPoly_SHA256"
    [0x4E, 0x6F, 0x69, 0x73, 0x65, 0x5F, 0x58, 0x58, 0x5F, 0x32, 0x35, 0x35, 0x31, 0x39, 0x5F, 0x43,
     0x68, 0x61, 0x43, 0x68, 0x61, 0x50, 0x6F, 0x6C, 0x79, 0x5F, 0x53, 0x48, 0x41, 0x32, 0x35, 0x36]
  }

  function Initial(suite: Suite): (hs: Handshake)
  {
    var h := suite.hash(ProtocolName());
    Handshake(h, h, New)
  }

  function MixHash(suite: Suite, hs: Handshake, data: Bytes): (r: Handshake)
  {
    hs.(h := suite.hash(hs.h + data))
  }

  /** HKDF on the chaining key: the new state and the derived cipher key. */
  function MixKey(suite: Suite, hs: Handshake, input: Bytes): (r: (Handshake, Bytes))
  {
    var d := Hkdf(suite.hash, hs.ck, input);
    (hs.(ck := d.ck), d.key)
  }

  function SealWith(suite: Suite, key: Bytes, ad: Bytes, text: Bytes): (box: Bytes)
  {
    suite.aead.seal(key, BuildNonce(0), ad, text)
  }

  function OpenWith(suite: Suite, key: Bytes, ad: Bytes, box: Bytes): (text: Option<Bytes>)
  {
    suite.aead.open(key, BuildNonce(0), ad, box)
  }

  // ---------- Message 1: e ----------

  function Write1(suite: Suite, isInitiator: bool, hs: Handshake, ephemeral: Bytes): (r: Stepped<Bytes>)
  {
    if isInitiator && !hs.phase.New? then Stepped(hs, Failure(InvalidHandshakeState))
    else
      var e := suite.public(ephemeral);
      Stepped(MixHash(suite, hs, e).(phase := SentMsg1(ephemeral)), Success(e))
  }

  function Read1(suite: Suite, hs: Handshake, msg: Bytes): (r: Stepped<Bytes>)
  {
    if |msg| != KEY_SIZE then Stepped(hs, Failure(HandshakeFailed))
    else Stepped(MixHash(suite, hs, msg), Success(msg))
  }

  // ---------- Message 2: e, ee, s, es ----------

  function Write2(suite: Suite, hs: Handshake, secret: Bytes, ephemeral: Bytes, remoteE: Bytes): (r: Stepped<Bytes>)
  {
    var e := suite.public(ephemeral);
    var hs1 := MixHash(suite, hs, e);
    var (hs2, k1) := MixKey(suite, hs1, suite.dh(ephemeral, remoteE));
    var boxS := SealWith(suite, k1, hs2.h, suite.public(secret));
    var hs3 := MixHash(suite, hs2, boxS);
    var (hs4, k2) := MixKey(suite, hs3, suite.dh(secret, remoteE));
    var boxP := SealWith(suite, k2, hs4.h, []);
    var hs5 := MixHash(suite, hs4, boxP);
    Stepped(hs5.(phase := SentMsg2(remoteE, ephemeral)), Success(e + boxS + boxP))
  }

  /** What the initiator learns from message 2. */
  datatype Learned = Learned(remoteEphemeral: Bytes, remoteStatic: Bytes)

  function Read2(suite: Suite, hs: Handshake, msg: Bytes): (r: Stepped<Learned>)
  {
    if !hs.phase.SentMsg1? then Stepped(hs, Failure(InvalidHandshakeState))
    else if |msg| < 32 + 48 + 16 then Stepped(hs, Failure(HandshakeFailed))
    else
      var ephemeral, remoteE := hs.phase.ephemeral, msg[..32];
      var boxS, boxP := msg[32..80], msg[80..];
      var hs1 := MixHash(suite, hs, remoteE);
      var (hs2, k1) := MixKey(suite, hs1, suite.dh(ephemeral, remoteE));
      var s := OpenWith(suite, k1, hs2.h, boxS);
      if s.None? then Stepped(hs2, Failure(DecryptionFailed))
      else if |s.value| != KEY_SIZE then Stepped(MixHash(suite, hs2, boxS), Failure(LengthPanic))
      else
        var hs3 := MixHash(suite, hs2, boxS);
        var (hs4, k2) := MixKey(suite, hs3, suite.dh(ephemeral, s.value));
        var p := OpenWith(suite, k2, hs4.h, boxP);
        if p.None? then Stepped(hs4, Failure(DecryptionFailed))
        else Stepped(MixHash(suite, hs4, boxP), Success(Learned(remoteE, s.value)))
  }

  // ---------- Message 3: s, se ----------

  function Write3(suite: Suite, hs: Handshake, secret: Bytes, peer: Learned): (r: Stepped<Bytes>)
  {
    var (hs1, k3) := MixKey(suite, hs, []);
    var box := SealWith(suite, k3, hs1.h, suite.public(secret));
    var hs2 := MixHash(suite, hs1, box);
    var (hs3, _) := MixKey(suite, hs2, suite.dh(secret, peer.remoteEphemeral));
    var d := Hkdf(suite.hash, hs3.ck, []);
    Stepped(hs3.(phase := Complete(SessionKeys(d.ck, d.key, peer.remoteStatic))), Success(box))
  }

  function Read3(suite: Suite, hs: Handshake, msg: Bytes): (r: Stepped<()>)
  {
    if !hs.phase.SentMsg2? then Stepped(hs, Failure(InvalidHandshakeState))
    else
      var (hs1, k3) := MixKey(suite, hs, []);
      var s := OpenWith(suite, k3, hs1.h, msg);
      if s.None? then Stepped(hs1, Failure(DecryptionFailed))
      else if |s.value| != KEY_SIZE then Stepped(MixHash(suite, hs1, msg), Failure(LengthPanic))
      else
        var hs2 := MixHash(suite, hs1, msg);
        var (hs3, _) := MixKey(suite, hs2, suite.dh(hs.phase.ephemeral, s.value));
        var d := Hkdf(suite.hash, hs3.ck, []);
        Stepped(hs3.(phase := Complete(SessionKeys(d.key, d.ck, s.value))), Success(()))
  }

  /** `process_message1_create_message2`. */
  function Process1(suite: Suite, hs: Handshake, secret: Bytes, ephemeral: Bytes, msg: Bytes): (r: Stepped<Bytes>)
  {
    var read := Read1(suite, hs, msg);
    if read.result.Failure? then Stepped(read.hs, Failure(read.result.error))
    else Write2(suite, read.hs, secret, ephemeral, read.result.value)
  }

  /** `process_message2_create_message3`. */
  function Process2(suite: Suite, hs: Handshake, secret: Bytes, msg: Bytes): (r: Stepped<Bytes>)
  {
    var read := Read2(suite, hs, msg);
    if read.result.Failure? then Stepped(read.hs, Failure(read.result.error))
    else Write3(suite, read.hs, secret, read.result.value)
  }

  /** The object of the source: its methods change the state in place. */
  class NoiseHandshake {
    const suite: Suite
    const secret: Bytes
    const isInitiator: bool
    var hs: Handshake

    constructor (suite: Suite, secret: Bytes, isInitiator: bool)
      ensures this.suite == suite && this.secret == secret && this.isInitiator == isInitiator
      ensures hs == Initial(suite)
    {
      this.suite, this.secret, this.isInitiator := suite, secret, isInitiator;
      hs := Initial(suite);
    }

    method CreateMessage1(ephemeral: Bytes) returns (r: Result<Bytes, NoiseError>)
      modifies this
      ensures Stepped(hs, r) == Write1(suite, isInitiator, old(hs), ephemeral)
    {
      if isInitiator && !hs.phase.New? {
        return Failure(InvalidHandshakeState);
      }
      var e := suite.public(ephemeral);
      hs := MixHash(suite, hs, e);
      hs := hs.(phase := SentMsg1(ephemeral));
      return Success(e);
    }

    method ProcessMessage1(msg: Bytes, ephemeral: Bytes) returns (r: Result<Bytes, NoiseError>)
      modifies this
      ensures Stepped(hs, r) == Process1(suite, old(hs), secret, ephemeral, msg)
    {
      if |msg| != KEY_SIZE {
        return Failure(HandshakeFailed);
      }
      hs := MixHash(suite, hs, msg);
      var e := suite.public(ephemeral);
      hs := MixHash(suite, hs, e);
      var d := Hkdf(suite.hash, hs.ck, suite.dh(ephemeral, msg));
      hs := hs.(ck := d.ck);
      var boxS := SealWith(suite, d.key, hs.h, suite.public(secret));
      hs := MixHash(suite, hs, boxS);
      d := Hkdf(suite.hash, hs.ck, suite.dh(secret, msg));
      hs := hs.(ck := d.ck);
      var boxP := SealWith(suite, d.key, hs.h, []);
      hs := MixHash(suite, hs, boxP);
      hs := hs.(phase := SentMsg2(msg, ephemeral));
      return Success(e + boxS + boxP);
    }

    method ProcessMessage2(msg: Bytes) returns (r: Result<Bytes, NoiseError>)
      modifies this
      ensures Stepped(hs, r) == Process2(suite, old(hs), secret, msg)
    {
      hide Hkdf, SealWith, OpenWith;
      if !hs.phase.SentMsg1? {
        return Failure(InvalidHandshakeState);
      }
      var ephemeral := hs.phase.ephemeral;
      if |msg| < 32 + 48 + 16 {
        return Failure(HandshakeFailed);
      }
      var remoteE := msg[..32];
      hs := MixHash(suite, hs, remoteE);
      var d := Hkdf(suite.hash, hs.ck, suite.dh(ephemeral, remoteE));
      hs := hs.(ck := d.ck);
      var remoteS := OpenWith(suite, d.key, hs.h, msg[32..80]);
      if remoteS.None? {
        return Failure(DecryptionFailed);
      }
      hs := MixHash(suite, hs, msg[32..80]);
      if |remoteS.value| != KEY_SIZE {
        return Failure(LengthPanic);
      }
      d := Hkdf(suite.hash, hs.ck, suite.dh(ephemeral, remoteS.value));
      hs := hs.(ck := d.ck);
      var payload := OpenWith(suite, d.key, hs.h, msg[80..]);
      if payload.None? {
        return Failure(DecryptionFailed);
      }
      hs := MixHash(suite, hs, msg[80..]);
      d := Hkdf(suite.hash, hs.ck, []);
      hs := hs.(ck := d.ck);
      var box := SealWith(suite, d.key, hs.h, suite.public(secret));
      hs := MixHash(suite, hs, box);
      d := Hkdf(suite.hash, hs.ck, suite.dh(secret, remoteE));
      hs := hs.(ck := d.ck);
      d := Hkdf(suite.hash, hs.ck, []);
      hs := hs.(phase := Complete(SessionKeys(d.ck, d.key, remoteS.value)));
      return Success(box);
    }

    method ProcessMessage3(msg: Bytes) returns (r: Result<(), NoiseError>)
      modifies this
      ensures Stepped(hs, r) == Read3(suite, old(hs), msg)
    {
      if !hs.phase.SentMsg2? {
        return Failure(InvalidHandshakeState);
      }
      var ephemeral := hs.phase.ephemeral;
      var d := Hkdf(suite.hash, hs.ck, []);
      hs := hs.(ck := d.ck);
      var s := OpenWith(suite, d.key, hs.h, msg);
      if s.None? {
        return Failure(DecryptionFailed);
      }
      hs := MixHash(suite, hs, msg);
      if |s.value| != KEY_SIZE {
        return Failure(LengthPanic);
      }
      d := Hkdf(suite.hash, hs.ck, suite.dh(ephemeral, s.value));
      hs := hs.(ck := d.ck);
      d := Hkdf(suite.hash, hs.ck, []);
      hs := hs.(phase := Complete(SessionKeys(d.key, d.ck, s.value)));
      return Success(());
    }
  }

  // ---------- Agreement ----------

  /** The two sides agree on the handshake hash and the chaining key. */
  ghost predicate Agree(a: Handshake, b: Handshake)
  {
    a.h == b.h && a.ck == b.ck
  }

  lemma Message1Agrees(suite: Suite, a: Handshake, b: Handshake, eA: Bytes)
    requires suite.Lawful() && Agree(a, b) && a.phase.New?
    ensures var w := Write1(suite, true, a, eA);
            && w.result == Success(suite.public(eA)) && w.hs.phase == SentMsg1(eA)
            && var r := Read1(suite, b, w.result.value);
               r.result == Success(suite.public(eA)) && Agree(w.hs, r.hs)
  {
  }

  lemma Message2Agrees(suite: Suite, a: Handshake, b: Handshake, eA: Bytes, eB: Bytes, sB: Bytes)
    requires suite.Lawful() && Agree(a, b) && a.phase == SentMsg1(eA)
    ensures var w := Write2(suite, b, sB, eB, suite.public(eA));
            && w.result.Success? && w.hs.phase == SentMsg2(suite.public(eA), eB)
            && var r := Read2(suite, a, w.result.value);
               r.result == Success(Learned(suite.public(eB), suite.public(sB))) && Agree(r.hs, w.hs)
  {
    hide Hkdf;
    var w := Write2(suite, b, sB, eB, suite.public(eA));
    var e := suite.public(eB);
    var msg := w.result.value;
    assert |msg| == 32 + 48 + 16;
    assert msg[..32] == e;
    assert suite.dh(eA, suite.public(eB)) == suite.dh(eB, suite.public(eA));
    assert suite.dh(eA, suite.public(sB)) == suite.dh(sB, suite.public(eA));
  }

  lemma Message3Agrees(suite: Suite, a: Handshake, b: Handshake, sA: Bytes, eB: Bytes, remoteE: Bytes, sB: Bytes)
    requires suite.Lawful() && Agree(a, b) && b.phase == SentMsg2(remoteE, eB)
    ensures var w := Write3(suite, a, sA, Learned(suite.public(eB), suite.public(sB)));
            && w.result.Success? && w.hs.phase.Complete?
            && var r := Read3(suite, b, w.result.value);
               && r.result == Success(()) && r.hs.phase.Complete? && Agree(w.hs, r.hs)
               && w.hs.phase.keys.sendKey == r.hs.phase.keys.recvKey
               && w.hs.phase.keys.recvKey == r.hs.phase.keys.sendKey
               && w.hs.phase.keys.remoteStatic == suite.public(sB)
               && r.hs.phase.keys.remoteStatic == suite.public(sA)
  {
    hide Hkdf;
    assert suite.dh(sA, suite.public(eB)) == suite.dh(eB, suite.public(sA));
  }
}
