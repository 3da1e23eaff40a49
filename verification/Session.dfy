/** Secure sessions: `crates/ceky-crypto/src/session.rs`.

  `SecureSession` is the object with its atomic counter and its locked window. `Link` is one direction
  of a session pair as a transition system, in which any number of encrypt and decrypt calls run
  concurrently and the network may reorder, repeat, drop or invent packets.
 */
module Session {
  import opened Bits
  import opened Wire
  import opened Wrappers
  import opened Crypto
  import opened Replay

  const MAX_NONCE: nat := 0xFFFF_FFFF_FFFF

  datatype SessionError = NonceOverflow | ReplayDetected(nonce: U64) | DecryptionFailed

  datatype Packet = Packet(nonce: U64, ad: Bytes, box: Bytes)

  /** `fetch_add(1)` wraps. */
  function Bump(counter: U64): (next: U64)
  {
    (counter + 1) % U64_SIZE
  }

  /** What an encrypt call that drew `nonce` returns. */
  function SealUnder(aead: Aead, key: Bytes, nonce: U64, ad: Bytes, text: Bytes): (r: Result<Packet, SessionError>)
  {
    if nonce > MAX_NONCE then Failure(NonceOverflow)
    else Success(Packet(nonce, ad, aead.seal(key, BuildNonce(nonce), ad, text)))
  }

  /** What a decrypt call that passed the window returns. */
  function OpenPacket(aead: Aead, key: Bytes, p: Packet): (r: Result<Bytes, SessionError>)
  {
    match aead.open(key, BuildNonce(p.nonce), p.ad, p.box)
    case Some(text) => Success(text)
    case None => Failure(DecryptionFailed)
  }

  class SecureSession {
    const aead: Aead
    const sendKey: Bytes
    const recvKey: Bytes
    const window: ReplayWindow
    var sendNonce: U64
    var recvNonceMax: U64

    ghost predicate Valid()
      reads this, window, window.bitmap
    {
      window.Valid()
    }

    constructor FromKeys(aead: Aead, sendKey: Bytes, recvKey: Bytes)
      ensures Valid() && fresh(window) && fresh(window.bitmap)
      ensures this.aead == aead && this.sendKey == sendKey && this.recvKey == recvKey
      ensures sendNonce == 0 && recvNonceMax == 0 && window.history == []
    {
      this.aead, this.sendKey, this.recvKey := aead, sendKey, recvKey;
      sendNonce, recvNonceMax := 0, 0;
      window := new ReplayWindow();
    }

    /** `encrypt_with_ad`; `encrypt` is the case of empty associated data. */
    method Encrypt(text: Bytes, ad: Bytes) returns (r: Result<Packet, SessionError>)
      modifies this`sendNonce
      ensures sendNonce == Bump(old(sendNonce))
      ensures r == SealUnder(aead, sendKey, old(sendNonce), ad, text)
    {
      var nonce := sendNonce;
      sendNonce := Bump(sendNonce);
      if nonce > MAX_NONCE {
        return Failure(NonceOverflow);
      }
      return Success(Packet(nonce, ad, aead.seal(sendKey, BuildNonce(nonce), ad, text)));
    }

    /** `decrypt_with_ad`: the window is consulted and marked before the tag is checked. */
    method Decrypt(p: Packet) returns (r: Result<Bytes, SessionError>)
      requires Valid()
      modifies this`recvNonceMax, window, window.bitmap
      ensures Valid() && window.history == old(window.history) + [p.nonce]
      ensures window.bitmap == old(window.bitmap) || fresh(window.bitmap)
      ensures r == if Fresh(old(window.history), p.nonce) then OpenPacket(aead, recvKey, p)
                   else Failure(ReplayDetected(p.nonce))
      ensures recvNonceMax == if r.Success? && p.nonce > old(recvNonceMax) then p.nonce else old(recvNonceMax)
    {
      var isNew := window.CheckAndMark(p.nonce);
      if !isNew {
        return Failure(ReplayDetected(p.nonce));
      }
      r := OpenPacket(aead, recvKey, p);
      if r.Success? && p.nonce > recvNonceMax {
        recvNonceMax := p.nonce;
      }
    }
  }

  /** Two sessions with mirrored keys, a batch of messages, and any delivery order with repetitions:
      a delivery decrypts to its own plaintext exactly when it is the first of that message and no
      earlier delivery was 256 or more messages ahead of it. */
  method ExchangeInOrder(aead: Aead, key: Bytes, back: Bytes, texts: seq<Bytes>, order: seq<nat>)
    returns (results: seq<Result<Bytes, SessionError>>)
    requires aead.Lawful()
    requires |texts| <= MAX_NONCE + 1
    requires forall i :: 0 <= i < |order| ==> order[i] < |texts|
    ensures |results| == |order|
    ensures forall j :: 0 <= j < |order| ==>
              results[j] == if InTime(order, j) then Success(texts[order[j]]) else Failure(ReplayDetected(order[j]))
  {
    var packets := SealAll(aead, key, back, texts);
    results := OpenInOrder(aead, back, key, packets, order);
  }

  method OpenInOrder(aead: Aead, sendKey: Bytes, recvKey: Bytes, packets: seq<Packet>, order: seq<nat>)
    returns (results: seq<Result<Bytes, SessionError>>)
    requires |packets| <= MAX_NONCE + 1
    requires forall i :: 0 <= i < |packets| ==> packets[i].nonce == i
    requires forall i :: 0 <= i < |order| ==> order[i] < |packets|
    ensures |results| == |order|
    ensures forall j :: 0 <= j < |order| ==>
              results[j] == Expected(aead, recvKey, packets, order, j)
  {
    var receiver := new SecureSession.FromKeys(aead, sendKey, recvKey);
    results := [];
    for j := 0 to |order|
      invariant receiver.Valid() && fresh(receiver) && fresh(receiver.window) && fresh(receiver.window.bitmap)
      invariant receiver.window.history == order[..j]
      invariant |results| == j
      invariant forall k :: 0 <= k < j ==> results[k] == Expected(aead, recvKey, packets, order, k)
    {
      FreshIndices(order, j);
      var r := receiver.Decrypt(packets[order[j]]);
      results := results + [r];
    }
  }

  /** First delivery of its message, and fewer than 256 behind every earlier delivery. */
  ghost predicate InTime(order: seq<nat>, j: nat)
    requires j < |order|
  {
    forall i :: 0 <= i < j ==> order[i] != order[j] && order[i] < order[j] + WINDOW_SIZE
  }

  /** The answer to delivery `j`: its plaintext in time, a replay error otherwise. */
  ghost function Expected(aead: Aead, key: Bytes, packets: seq<Packet>, order: seq<nat>, j: nat):
    (r: Result<Bytes, SessionError>)
    requires |packets| <= MAX_NONCE + 1 && j < |order| && order[j] < |packets|
  {
    if InTime(order, j) then OpenPacket(aead, key, packets[order[j]]) else Failure(ReplayDetected(order[j]))
  }

  lemma FreshIndices(order: seq<nat>, j: nat)
    requires j < |order|
    ensures Fresh(order[..j], order[j]) <==> InTime(order, j)
    ensures order[..j + 1] == order[..j] + [order[j]]
  {
    FreshIff(order[..j], order[j]);
    forall i | 0 <= i < j ensures order[i] in order[..j] {
      assert order[..j][i] == order[i];
    }
  }

  /** Message `i` of a fresh session travels under nonce `i`. */
  method SealAll(aead: Aead, key: Bytes, back: Bytes, texts: seq<Bytes>) returns (packets: seq<Packet>)
    requires |texts| <= MAX_NONCE + 1
    ensures |packets| == |texts|
    ensures forall i :: 0 <= i < |texts| ==> packets[i] == Packet(i, [], aead.seal(key, BuildNonce(i), [], texts[i]))
  {
    var sender := new SecureSession.FromKeys(aead, key, back);
    packets := [];
    for i := 0 to |texts|
      invariant sender.sendNonce == i && |packets| == i
      invariant forall k :: 0 <= k < i ==> packets[k] == Packet(k, [], aead.seal(key, BuildNonce(k), [], texts[k]))
    {
      var r := sender.Encrypt(texts[i], []);
      packets := packets + [r.value];
    }
  }

  // ---------- Concurrent calls ----------

  type CallId = nat

  /** The message an encrypt call carries. */
  datatype Message = Message(ad: Bytes, text: Bytes)

  datatype Delivery = Delivery(packet: Packet, text: Bytes)

  datatype Link = Link(
    counter: U64,
    /** Messages by the encrypt call that carried them, in the order of the `fetch_add`s. */
    calls: seq<Message>,
    /** Encrypt calls between their `fetch_add` and their return: the nonce each one drew. */
    sealing: map<CallId, (U64, Message)>,
    wire: set<Packet>,
    /** Nonces presented to the receiver's window. */
    history: seq<nat>,
    /** Decrypt calls between the window check and their return. */
    opening: map<CallId, Packet>,
    delivered: seq<Delivery>)

  datatype Step =
    | EncryptDraw(id: CallId, message: Message)
    | EncryptReturn(id: CallId)
    | DecryptCheck(id: CallId, packet: Packet)
    | DecryptReturn(id: CallId)

  datatype Keys = Keys(aead: Aead, sendKey: Bytes, recvKey: Bytes)

  const START: Link := Link(0, [], map[], {}, [], map[], [])

  /** One atomic action. An action that is not possible in the state changes nothing. */
  function Apply(keys: Keys, s: Link, step: Step): (s': Link)
  {
    match step
    case EncryptDraw(id, message) =>
      if id in s.sealing then s
      else
        var t := s.(counter := Bump(s.counter), calls := s.calls + [message]);
        if s.counter > MAX_NONCE then t else t.(sealing := t.sealing[id := (s.counter, message)])
    case EncryptReturn(id) =>
      if id !in s.sealing then s
      else
        var (nonce, m) := s.sealing[id];
        var t := s.(sealing := s.sealing - {id});
        var r := SealUnder(keys.aead, keys.sendKey, nonce, m.ad, m.text);
        if r.Success? then t.(wire := t.wire + {r.value}) else t
    case DecryptCheck(id, p) =>
      if id in s.opening then s
      else
        var t := s.(history := s.history + [p.nonce]);
        if Fresh(s.history, p.nonce) then t.(opening := t.opening[id := p]) else t
    case DecryptReturn(id) =>
      if id !in s.opening then s
      else
        var p := s.opening[id];
        var t := s.(opening := s.opening - {id});
        var r := OpenPacket(keys.aead, keys.recvKey, p);
        if r.Success? then t.(delivered := t.delivered + [Delivery(p, r.value)]) else t
  }

  function Run(keys: Keys, steps: seq<Step>): (s: Link)
  {
    if steps == [] then START else Apply(keys, Run(keys, steps[..|steps| - 1]), steps[|steps| - 1])
  }

  /** The packet of encrypt call `n`. */
  ghost function PacketOf(keys: Keys, calls: seq<Message>, n: nat): (p: Packet)
    requires n < |calls| && n <= MAX_NONCE
  {
    Packet(n, calls[n].ad, keys.aead.seal(keys.sendKey, BuildNonce(n), calls[n].ad, calls[n].text))
  }

  /** Every call in progress holds its own nonce, which is the number of the call. */
  ghost predicate SealingOk(s: Link)
  {
    && (forall id :: id in s.sealing ==>
          s.sealing[id].0 <= MAX_NONCE && s.sealing[id].0 < |s.calls| && s.sealing[id].1 == s.calls[s.sealing[id].0])
    && (forall id, id' :: id in s.sealing && id' in s.sealing && id != id' ==> s.sealing[id].0 != s.sealing[id'].0)
  }

  /** Every packet on the wire is the sealed message of the call its nonce numbers. */
  ghost predicate WireOk(keys: Keys, calls: seq<Message>, wire: set<Packet>)
  {
    forall p :: p in wire ==> p.nonce <= MAX_NONCE && p.nonce < |calls| && p == PacketOf(keys, calls, p.nonce)
  }

  /** Sending side: call number and nonce coincide. */
  ghost predicate SendInv(keys: Keys, s: Link)
  {
    && |s.calls| < U64_SIZE && s.counter == |s.calls|
    && SealingOk(s)
    && WireOk(keys, s.calls, s.wire)
    && (forall id, p :: id in s.sealing && p in s.wire ==> s.sealing[id].0 != p.nonce)
  }

  /** Receiving side: a nonce that passed the window is held by one call or one delivery, never two. */
  ghost predicate RecvInv(keys: Keys, s: Link)
  {
    && (forall id :: id in s.opening ==> s.opening[id].nonce in Accepted(s.history))
    && (forall i :: 0 <= i < |s.delivered| ==> s.delivered[i].packet.nonce in Accepted(s.history))
    && (forall id, id' :: id in s.opening && id' in s.opening && id != id' ==>
          s.opening[id].nonce != s.opening[id'].nonce)
    && (forall i, j :: 0 <= i < j < |s.delivered| ==> s.delivered[i].packet.nonce != s.delivered[j].packet.nonce)
    && (forall id, i :: id in s.opening && 0 <= i < |s.delivered| ==>
          s.opening[id].nonce != s.delivered[i].packet.nonce)
    && (forall i :: 0 <= i < |s.delivered| ==>
          OpenPacket(keys.aead, keys.recvKey, s.delivered[i].packet) == Success(s.delivered[i].text))
  }

  lemma SendStep(keys: Keys, s: Link, step: Step)
    requires SendInv(keys, s)
    requires |Apply(keys, s, step).calls| < U64_SIZE
    ensures SendInv(keys, Apply(keys, s, step))
  {
    match step
    case EncryptDraw(id, message) => DrawStep(keys, s, id, message);
    case EncryptReturn(id) => SealStep(keys, s, id);
    case DecryptCheck(_, _) =>
    case DecryptReturn(_) =>
  }

  lemma DrawStep(keys: Keys, s: Link, id: CallId, message: Message)
    requires SendInv(keys, s) && |Apply(keys, s, EncryptDraw(id, message)).calls| < U64_SIZE
    ensures SendInv(keys, Apply(keys, s, EncryptDraw(id, message)))
  {
    if id !in s.sealing {
      WireOkExtends(keys, s.calls, message, s.wire);
      DrawSealing(keys, s, id, message);
    }
  }

  lemma WireOkExtends(keys: Keys, calls: seq<Message>, message: Message, wire: set<Packet>)
    requires WireOk(keys, calls, wire)
    ensures WireOk(keys, calls + [message], wire)
  {
    forall p | p in wire ensures p.nonce <= |calls| && p == PacketOf(keys, calls + [message], p.nonce) {
      assert p == PacketOf(keys, calls, p.nonce);
    }
  }

  lemma DrawSealing(keys: Keys, s: Link, id: CallId, message: Message)
    requires SealingOk(s) && s.counter == |s.calls| && id !in s.sealing
    ensures SealingOk(Apply(keys, s, EncryptDraw(id, message)))
  {
  }

  lemma SealStep(keys: Keys, s: Link, id: CallId)
    requires SendInv(keys, s)
    ensures SendInv(keys, Apply(keys, s, EncryptReturn(id)))
  {
    if id in s.sealing {
      var t := Apply(keys, s, EncryptReturn(id));
      var p := PacketOf(keys, s.calls, s.sealing[id].0);
      assert t.wire == s.wire + {p};
      assert WireOk(keys, t.calls, t.wire);
    }
  }

  lemma RecvStep(keys: Keys, s: Link, step: Step)
    requires RecvInv(keys, s)
    ensures RecvInv(keys, Apply(keys, s, step))
  {
    match step
    case EncryptDraw(_, _) =>
    case EncryptReturn(_) =>
    case DecryptCheck(id, p) => CheckStep(keys, s, id, p);
    case DecryptReturn(id) => OpenStep(keys, s, id);
  }

  lemma CheckStep(keys: Keys, s: Link, id: CallId, p: Packet)
    requires RecvInv(keys, s)
    ensures RecvInv(keys, Apply(keys, s, DecryptCheck(id, p)))
  {
    HistoryStep(s.history, p.nonce);
  }

  lemma OpenStep(keys: Keys, s: Link, id: CallId)
    requires RecvInv(keys, s)
    ensures RecvInv(keys, Apply(keys, s, DecryptReturn(id)))
  {
  }

  lemma {:induction false} RunInvariant(keys: Keys, steps: seq<Step>)
    requires |Run(keys, steps).calls| < U64_SIZE
    ensures SendInv(keys, Run(keys, steps)) && RecvInv(keys, Run(keys, steps))
  {
    if steps != [] {
      var before, last := steps[..|steps| - 1], steps[|steps| - 1];
      RunInvariant(keys, before);
      SendStep(keys, Run(keys, before), last);
      RecvStep(keys, Run(keys, before), last);
    }
  }

  /** Safety of every interleaving with fewer than 2^64 encrypt calls: nonces on the wire are at most
      2^48 - 1, no two packets share a nonce or its 12-byte form, no nonce is delivered twice, and a
      delivered packet that was on the wire carries exactly the text its encrypt call was given. */
  lemma LinkSafety(keys: Keys, steps: seq<Step>)
    requires keys.aead.Lawful() && keys.sendKey == keys.recvKey
    requires |Run(keys, steps).calls| < U64_SIZE
    ensures var s := Run(keys, steps);
            && (forall p :: p in s.wire ==> p.nonce <= MAX_NONCE && p.nonce < |s.calls|)
            && (forall p, q :: p in s.wire && q in s.wire && BuildNonce(p.nonce) == BuildNonce(q.nonce) ==> p == q)
            && (forall i, j :: 0 <= i < j < |s.delivered| ==>
                  s.delivered[i].packet.nonce != s.delivered[j].packet.nonce)
            && (forall i :: 0 <= i < |s.delivered| && s.delivered[i].packet in s.wire ==>
                  s.delivered[i].text == s.calls[s.delivered[i].packet.nonce].text)
  {
    RunInvariant(keys, steps);
    var s := Run(keys, steps);
    forall p, q | p in s.wire && q in s.wire && BuildNonce(p.nonce) == BuildNonce(q.nonce) ensures p == q {
      BuildNonceInjective(p.nonce, q.nonce);
    }
  }

  /** Liveness of one packet, in every reachable state: presenting a packet of the wire delivers the text
      it was sealed from if and only if its nonce was never presented before and no presented nonce is
      256 or more ahead. */
  lemma PacketDelivered(keys: Keys, steps: seq<Step>, p: Packet, id: CallId)
    requires keys.aead.Lawful() && keys.sendKey == keys.recvKey
    requires |Run(keys, steps).calls| < U64_SIZE
    requires var s := Run(keys, steps); p in s.wire && id !in s.opening
    ensures var s := Run(keys, steps);
            var t := Run(keys, steps + [DecryptCheck(id, p)] + [DecryptReturn(id)]);
            && p.nonce < |s.calls|
            && (if p.nonce !in s.history && (forall m :: m in s.history ==> m < p.nonce + WINDOW_SIZE)
                then t.delivered == s.delivered + [Delivery(p, s.calls[p.nonce].text)]
                else t.delivered == s.delivered)
  {
    RunInvariant(keys, steps);
    var s := Run(keys, steps);
    FreshIff(s.history, p.nonce);
    RunExtended(keys, steps, DecryptCheck(id, p));
    RunExtended(keys, steps + [DecryptCheck(id, p)], DecryptReturn(id));
    assert p == PacketOf(keys, s.calls, p.nonce);
    assert OpenPacket(keys.aead, keys.recvKey, p) == Success(s.calls[p.nonce].text);
  }

  lemma RunExtended(keys: Keys, steps: seq<Step>, step: Step)
    ensures Run(keys, steps + [step]) == Apply(keys, Run(keys, steps), step)
  {
    assert (steps + [step])[..|steps|] == steps;
  }

  /** The counter is 64 bits wide, so the promise of fresh nonces ends exactly at 2^64 calls: the nonces
      drawn by the first `n` calls are pairwise distinct if and only if `n` is at most 2^64. */
  lemma NoncesDistinctIff(n: nat)
    ensures (forall i: nat, j: nat :: i < j < n ==> DrawnBy(i) != DrawnBy(j)) <==> n <= U64_SIZE
  {
    hide DrawnBy;
    if n > U64_SIZE {
      DrawnMod(0);
      DrawnMod(U64_SIZE);
      assert DrawnBy(0) == DrawnBy(U64_SIZE);
    } else {
      forall i: nat, j: nat | i < j < n ensures DrawnBy(i) != DrawnBy(j) {
        DrawnMod(i);
        DrawnMod(j);
      }
    }
  }

  /** The counter value that encrypt call number `i` draws. */
  function DrawnBy(i: nat): (nonce: U64)
  {
    if i == 0 then 0 else Bump(DrawnBy(i - 1))
  }

  lemma {:induction false} DrawnMod(i: nat)
    ensures DrawnBy(i) == i % U64_SIZE
  {
    if i > 0 {
      DrawnMod(i - 1);
    }
  }
}
