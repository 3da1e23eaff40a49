/** The per-peer handshake dispatch of the node's event loop: `crates/ceky-node/src/node.rs`.

  `React` says what one transport event does to the table of peers. `NodeLoop` is the event loop's state,
  which removes and reinserts entries in place.
 */
module Dispatch {
  import opened Bits
  import opened Wire
  import opened Wrappers
  import opened Crypto
  import opened Frames
  import Replay
  import Session
  import opened Noise

  type Addr = nat

  const ENCRYPTED: Byte := 1

  /** A secure session: its keys, its send counter and the nonces its window has been shown. */
  datatype SessionState = SessionState(keys: SessionKeys, sendNonce: U64, history: seq<nat>)

  datatype PeerState =
    | InitiatorWaitMsg2(hs: Noise.Handshake)
    | ResponderWaitMsg1(hs: Noise.Handshake)
    | ResponderWaitMsg3(hs: Noise.Handshake)
    | Secure(session: SessionState)

  type Peers = map<Addr, PeerState>

  /** Who a node is: its static secret and the peer id it announces. */
  datatype Self = Self(suite: Suite, secret: Bytes, id: Bytes)

  /** A transport event; `ephemeral` is the random secret the node would draw while handling it. */
  datatype Event =
    | Connect(addr: Addr, ephemeral: Bytes)
    | Connected(addr: Addr)
    | Disconnected(addr: Addr)
    | Received(addr: Addr, frame: Frame, ephemeral: Bytes)

  /** The table afterwards, the frames sent to the event's peer, and the data passed on to the application. */
  datatype Reaction = Reaction(peers: Peers, sent: seq<Frame>, data: Option<Bytes>)

  function HandshakeFrame(payload: Bytes): (f: Frame)
  {
    NewFrame(Frames.Handshake, 0, 0, payload)
  }

  /** A frame sealed under the session's next nonce, which travels as the request id. */
  function SealedFrame(suite: Suite, session: SessionState, msgType: MessageType, text: Bytes): (r: Option<Frame>)
  {
    match Session.SealUnder(suite.aead, session.keys.sendKey, session.sendNonce, [], text)
    case Success(p) => Some(NewFrame(msgType, ENCRYPTED, p.nonce, p.box))
    case Failure(_) => None
  }

  /** A finished handshake: the peer becomes secure and is greeted with our id. */
  function Secured(self: Self, keys: SessionKeys): (r: (PeerState, seq<Frame>))
    ensures r.0.Secure?
  {
    var session := SessionState(keys, 0, []);
    var greeting := SealedFrame(self.suite, session, Ping, self.id);
    (Secure(session.(sendNonce := Session.Bump(0))), if greeting.Some? then [greeting.value] else [])
  }

  /** A handshake frame for an entry that has just been taken out of the table: the entry to put back, if
      any, and the frames to send. A failed step puts nothing back. */
  function OnHandshake(self: Self, state: PeerState, payload: Bytes, ephemeral: Bytes):
    (r: (Option<PeerState>, seq<Frame>))
  {
    match state
    case InitiatorWaitMsg2(hs) =>
      var step := Process2(self.suite, hs, self.secret, payload);
      if step.result.Success? && step.hs.phase.Complete? then
        var (secure, greeting) := Secured(self, step.hs.phase.keys);
        (Some(secure), [HandshakeFrame(step.result.value)] + greeting)
      else (None, [])
    case ResponderWaitMsg1(hs) =>
      var step := Process1(self.suite, hs, self.secret, ephemeral, payload);
      if step.result.Success? then (Some(ResponderWaitMsg3(step.hs)), [HandshakeFrame(step.result.value)])
      else (None, [])
    case ResponderWaitMsg3(hs) =>
      var step := Read3(self.suite, hs, payload);
      if step.result.Success? && step.hs.phase.Complete? then
        var (secure, greeting) := Secured(self, step.hs.phase.keys);
        (Some(secure), greeting)
      else (None, [])
    case Secure(_) => (Some(state), [])
  }

  predicate IsEncrypted(f: Frame)
  {
    And(f.header.flags, ENCRYPTED) != 0
  }

  /** Any other frame: only an encrypted frame of a secure session gets through, and only if it decrypts. */
  function OnFrame(self: Self, peers: Peers, addr: Addr, f: Frame): (r: Reaction)
  {
    if addr in peers && peers[addr].Secure? && IsEncrypted(f) then
      var s := peers[addr].session;
      var nonce := f.header.requestId;
      var after := peers[addr := Secure(s.(history := s.history + [nonce]))];
      var plain := Session.OpenPacket(self.suite.aead, s.keys.recvKey, Session.Packet(nonce, [], f.payload));
      if Replay.Fresh(s.history, nonce) && plain.Success? then Reaction(after, [], Some(plain.value))
      else Reaction(after, [], None)
    else Reaction(peers, [], None)
  }

  function React(self: Self, peers: Peers, event: Event): (r: Reaction)
  {
    match event
    case Connect(addr, ephemeral) =>
      var step := Write1(self.suite, true, Initial(self.suite), ephemeral);
      if step.result.Success? then
        Reaction(peers[addr := InitiatorWaitMsg2(step.hs)], [HandshakeFrame(step.result.value)], None)
      else Reaction(peers, [], None)
    case Connected(addr) =>
      Reaction(if addr in peers then peers else peers[addr := ResponderWaitMsg1(Initial(self.suite))], [], None)
    case Disconnected(addr) => Reaction(peers - {addr}, [], None)
    case Received(addr, f, ephemeral) =>
      if f.header.msgType != Frames.Handshake then OnFrame(self, peers, addr, f)
      else if addr !in peers then Reaction(peers, [], None)
      else
        var (state, sent) := OnHandshake(self, peers[addr], f.payload, ephemeral);
        Reaction(if state.Some? then peers[addr := state.value] else peers - {addr}, sent, None)
  }

  /** The event loop: entries are removed from the table, advanced and put back. */
  class NodeLoop {
    const self: Self
    var peers: Peers

    constructor (self: Self)
      ensures this.self == self && peers == map[]
    {
      this.self := self;
      peers := map[];
    }

    method HandleEvent(event: Event) returns (sent: seq<Frame>, data: Option<Bytes>)
      modifies this
      ensures Reaction(peers, sent, data) == React(self, old(peers), event)
      ensures Gated(self, old(peers), event, data)
    {
      GateHolds(self, peers, event);
      hide Gated, Write1, Process1, Process2, Read3, SealedFrame, HandshakeFrame, Replay.Fresh, IsEncrypted;
      sent, data := [], None;
      match event
      case Connect(addr, ephemeral) =>
        var step := Write1(self.suite, true, Initial(self.suite), ephemeral);
        if step.result.Success? {
          sent := [HandshakeFrame(step.result.value)];
          peers := peers[addr := InitiatorWaitMsg2(step.hs)];
        }
      case Connected(addr) =>
        if addr !in peers {
          peers := peers[addr := ResponderWaitMsg1(Initial(self.suite))];
        }
      case Disconnected(addr) =>
        peers := peers - {addr};
      case Received(addr, f, ephemeral) =>
        if f.header.msgType == Frames.Handshake {
          if addr in peers {
            var state := peers[addr];
            peers := peers - {addr};
            match state {
              case InitiatorWaitMsg2(hs) =>
                var step := Process2(self.suite, hs, self.secret, f.payload);
                if step.result.Success? && step.hs.phase.Complete? {
                  sent := [HandshakeFrame(step.result.value)];
                  var session := SessionState(step.hs.phase.keys, 0, []);
                  var greeting := SealedFrame(self.suite, session, Ping, self.id);
                  if greeting.Some? {
                    sent := sent + [greeting.value];
                  }
                  PutBack(old(peers), addr, Secure(session.(sendNonce := Session.Bump(0))));
                  peers := peers[addr := Secure(session.(sendNonce := Session.Bump(0)))];
                }
              case ResponderWaitMsg1(hs) =>
                var step := Process1(self.suite, hs, self.secret, ephemeral, f.payload);
                if step.result.Success? {
                  sent := [HandshakeFrame(step.result.value)];
                  PutBack(old(peers), addr, ResponderWaitMsg3(step.hs));
                  peers := peers[addr := ResponderWaitMsg3(step.hs)];
                }
              case ResponderWaitMsg3(hs) =>
                var step := Read3(self.suite, hs, f.payload);
                if step.result.Success? && step.hs.phase.Complete? {
                  var session := SessionState(step.hs.phase.keys, 0, []);
                  var greeting := SealedFrame(self.suite, session, Ping, self.id);
                  if greeting.Some? {
                    sent := [greeting.value];
                  }
                  PutBack(old(peers), addr, Secure(session.(sendNonce := Session.Bump(0))));
                  peers := peers[addr := Secure(session.(sendNonce := Session.Bump(0)))];
                }
              case Secure(session) =>
                PutBack(old(peers), addr, Secure(session));
                peers := peers[addr := Secure(session)];
            }
          }
        } else if addr in peers && peers[addr].Secure? && IsEncrypted(f) {
          var session, nonce := peers[addr].session, f.header.requestId;
          var isNew := Replay.Fresh(session.history, nonce);
          session := session.(history := session.history + [nonce]);
          peers := peers[addr := Secure(session)];
          if isNew {
            var plain := self.suite.aead.open(session.keys.recvKey, BuildNonce(nonce), [], f.payload);
            data := plain;
          }
        }
    }
  }

  lemma PutBack(peers: Peers, addr: Addr, state: PeerState)
    ensures (peers - {addr})[addr := state] == peers[addr := state]
  {
  }

  // ---------- How an entry becomes secure ----------

  datatype Kind = Absent | WaitMsg1 | WaitMsg2 | WaitMsg3 | IsSecure

  function KindOf(peers: Peers, addr: Addr): (k: Kind)
  {
    if addr !in peers then Absent
    else match peers[addr]
         case InitiatorWaitMsg2(_) => WaitMsg2
         case ResponderWaitMsg1(_) => WaitMsg1
         case ResponderWaitMsg3(_) => WaitMsg3
         case Secure(_) => IsSecure
  }

  /** Whatever the event, an entry only moves along the arrows of the protocol, and no event touches the
      entry of another address. */
  lemma EntryMoves(self: Self, peers: Peers, event: Event, addr: Addr)
    ensures var before, after := KindOf(peers, addr), KindOf(React(self, peers, event).peers, addr);
            && (after == IsSecure ==> before in {IsSecure, WaitMsg2, WaitMsg3})
            && (after == WaitMsg3 ==> before in {WaitMsg3, WaitMsg1})
            && (event.Received? && event.addr == addr && event.frame.header.msgType == Frames.Handshake ==>
                  && (before == IsSecure ==> after == IsSecure)
                  && (before == WaitMsg1 ==> after in {WaitMsg3, Absent})
                  && (before in {WaitMsg2, WaitMsg3} ==> after in {IsSecure, Absent}))
    ensures event.addr != addr ==>
              && (addr in React(self, peers, event).peers <==> addr in peers)
              && (addr in peers ==> React(self, peers, event).peers[addr] == peers[addr])
  {
    hide Process1, Process2, Read3, Write1, Secured;
  }

  function PeersAfter(self: Self, events: seq<Event>): (peers: Peers)
  {
    if events == [] then map[] else React(self, PeersAfter(self, events[..|events| - 1]), events[|events| - 1]).peers
  }

  /** The kind of an entry after the first `n` events. */
  function KindAt(self: Self, events: seq<Event>, addr: Addr, n: nat): (k: Kind)
    requires n <= |events|
  {
    KindOf(PeersAfter(self, events[..n]), addr)
  }

  lemma KindStep(self: Self, events: seq<Event>, addr: Addr, n: nat)
    requires n < |events|
    ensures KindAt(self, events, addr, n + 1) == IsSecure ==>
              KindAt(self, events, addr, n) in {IsSecure, WaitMsg2, WaitMsg3}
    ensures KindAt(self, events, addr, n + 1) == WaitMsg3 ==> KindAt(self, events, addr, n) in {WaitMsg3, WaitMsg1}
  {
    hide React, KindOf;
    assert events[..n + 1][..n] == events[..n];
    EntryMoves(self, PeersAfter(self, events[..n]), events[n], addr);
  }

  /** The whole past of a secure entry, in every run: it was waiting for message 2 and has been secure ever
      since, or it waited for message 1, then for message 3, and has been secure ever since. */
  lemma {:induction false} SecureOnlyThroughHandshake(self: Self, events: seq<Event>, addr: Addr, n: nat)
    returns (i: nat, j: nat)
    requires n <= |events| && KindAt(self, events, addr, n) == IsSecure
    ensures i <= j < n
    ensures forall k :: j < k <= n ==> KindAt(self, events, addr, k) == IsSecure
    ensures || (KindAt(self, events, addr, j) == WaitMsg2)
            || (KindAt(self, events, addr, i) == WaitMsg1 && i < j
                && forall k :: i < k <= j ==> KindAt(self, events, addr, k) == WaitMsg3)
    decreases n
  {
    hide KindAt;
    NothingAtStart(self, events, addr);
    KindStep(self, events, addr, n - 1);
    if KindAt(self, events, addr, n - 1) == IsSecure {
      i, j := SecureOnlyThroughHandshake(self, events, addr, n - 1);
    } else if KindAt(self, events, addr, n - 1) == WaitMsg2 {
      i, j := n - 1, n - 1;
    } else {
      j := n - 1;
      i := WaitedForMsg1(self, events, addr, n - 1);
    }
  }

  lemma {:induction false} WaitedForMsg1(self: Self, events: seq<Event>, addr: Addr, n: nat) returns (i: nat)
    requires n <= |events| && KindAt(self, events, addr, n) == WaitMsg3
    ensures i < n && KindAt(self, events, addr, i) == WaitMsg1
    ensures forall k :: i < k <= n ==> KindAt(self, events, addr, k) == WaitMsg3
    decreases n
  {
    hide KindAt;
    NothingAtStart(self, events, addr);
    KindStep(self, events, addr, n - 1);
    if KindAt(self, events, addr, n - 1) == WaitMsg1 {
      i := n - 1;
    } else {
      i := WaitedForMsg1(self, events, addr, n - 1);
    }
  }

  lemma NothingAtStart(self: Self, events: seq<Event>, addr: Addr)
    ensures KindAt(self, events, addr, 0) == Absent
  {
  }

  // ---------- What reaches the application ----------

  /** No handshake frame, from a secure peer, with the encryption flag; its request id was never presented to the
      session and is less than 256 behind every one that was; and its payload opens to `text` under the session's key
      and that nonce. */
  ghost predicate LetThrough(self: Self, peers: Peers, event: Event, text: Bytes)
  {
    && event.Received? && event.frame.header.msgType != Frames.Handshake
    && event.addr in peers && peers[event.addr].Secure?
    && event.frame.header.flags % 2 == 1
    && var session, nonce := peers[event.addr].session, event.frame.header.requestId;
       && nonce !in session.history
       && (forall m :: m in session.history ==> m < nonce + Replay.WINDOW_SIZE)
       && self.suite.aead.open(session.keys.recvKey, BuildNonce(nonce), [], event.frame.payload) == Some(text)
  }

  ghost predicate Gated(self: Self, peers: Peers, event: Event, data: Option<Bytes>)
  {
    forall text :: data == Some(text) <==> LetThrough(self, peers, event, text)
  }

  lemma GateHolds(self: Self, peers: Peers, event: Event)
    ensures Gated(self, peers, event, React(self, peers, event).data)
  {
    hide React, LetThrough;
    forall text ensures React(self, peers, event).data == Some(text) <==> LetThrough(self, peers, event, text) {
      DataOutIff(self, peers, event, text);
    }
  }

  /** The gate, for every table and every event, both ways. */
  lemma DataOutIff(self: Self, peers: Peers, event: Event, text: Bytes)
    ensures React(self, peers, event).data == Some(text) <==> LetThrough(self, peers, event, text)
  {
    hide OnHandshake, Write1, Replay.Fresh, IsEncrypted;
    if event.Received? {
      EncryptedIff(event.frame);
      if event.addr in peers && peers[event.addr].Secure? {
        Replay.FreshIff(peers[event.addr].session.history, event.frame.header.requestId);
      }
    }
  }

  /** The flag is the lowest bit. */
  lemma EncryptedIff(f: Frame)
    ensures IsEncrypted(f) <==> f.header.flags % 2 == 1
  {
    var flags: nat := f.header.flags;
    MaskTestsBit(flags, 0);
    assert Pow2(0) == 1;
  }

  /** An event presents its request id to the session of its sender, whether or not anything comes out, and
      presents nothing else to any session. */
  lemma HistoryStep(self: Self, peers: Peers, event: Event, addr: Addr)
    requires KindOf(peers, addr) == IsSecure && KindOf(React(self, peers, event).peers, addr) == IsSecure
    ensures var before, after := peers[addr].session, React(self, peers, event).peers[addr].session;
            && after.keys == before.keys && after.sendNonce == before.sendNonce
            && after.history == before.history
                 + if && event.Received? && event.addr == addr && event.frame.header.msgType != Frames.Handshake
                      && IsEncrypted(event.frame)
                   then [event.frame.header.requestId] else []
  {
    hide Write1, Replay.Fresh, IsEncrypted;
  }

  /** What the application was handed at event `n` of a run. */
  function DataAt(self: Self, events: seq<Event>, n: nat): (data: Option<Bytes>)
    requires n < |events|
  {
    React(self, PeersAfter(self, events[..n]), events[n]).data
  }

  /** The nonces presented to the entry's session before event `n`. */
  function HistoryAt(self: Self, events: seq<Event>, addr: Addr, n: nat): (history: seq<nat>)
    requires n <= |events| && KindAt(self, events, addr, n) == IsSecure
  {
    PeersAfter(self, events[..n])[addr].session.history
  }

  lemma DeliveredIsNew(self: Self, events: seq<Event>, addr: Addr, n: nat)
    requires n < |events| && KindAt(self, events, addr, n) == IsSecure
    requires events[n].addr == addr && DataAt(self, events, n).Some?
    ensures events[n].Received? && events[n].frame.header.requestId !in HistoryAt(self, events, addr, n)
    ensures events[n].frame.header.msgType != Frames.Handshake && IsEncrypted(events[n].frame)
  {
    hide React, IsEncrypted;
    DataOutIff(self, PeersAfter(self, events[..n]), events[n], DataAt(self, events, n).value);
    EncryptedIff(events[n].frame);
  }

  lemma HistoryAtStep(self: Self, events: seq<Event>, addr: Addr, n: nat)
    requires n < |events|
    requires KindAt(self, events, addr, n) == IsSecure && KindAt(self, events, addr, n + 1) == IsSecure
    ensures HistoryAt(self, events, addr, n) <= HistoryAt(self, events, addr, n + 1)
    ensures events[n].addr == addr && DataAt(self, events, n).Some? ==>
              events[n].Received? && events[n].frame.header.requestId in HistoryAt(self, events, addr, n + 1)
  {
    hide React, IsEncrypted;
    assert events[..n + 1][..n] == events[..n];
    HistoryStep(self, PeersAfter(self, events[..n]), events[n], addr);
    if events[n].addr == addr && DataAt(self, events, n).Some? {
      DeliveredIsNew(self, events, addr, n);
    }
  }

  lemma {:induction false} HistoryGrows(self: Self, events: seq<Event>, addr: Addr, i: nat, j: nat)
    requires i <= j <= |events| && forall k :: i <= k <= j ==> KindAt(self, events, addr, k) == IsSecure
    ensures HistoryAt(self, events, addr, i) <= HistoryAt(self, events, addr, j)
    decreases j
  {
    hide KindAt, HistoryAt, DataAt;
    if i < j {
      HistoryGrows(self, events, addr, i, j - 1);
      HistoryAtStep(self, events, addr, j - 1);
    }
  }

  /** In every run: while an entry stays secure, the application is handed data at most once for each request id,
      whatever frames are repeated in between. */
  lemma NoReplayReachesApplication(self: Self, events: seq<Event>, addr: Addr, i: nat, j: nat)
    requires i < j < |events| && forall k :: i <= k <= j ==> KindAt(self, events, addr, k) == IsSecure
    requires events[i].addr == addr && events[j].addr == addr
    requires DataAt(self, events, i).Some? && DataAt(self, events, j).Some?
    ensures events[i].Received? && events[j].Received?
    ensures events[i].frame.header.requestId != events[j].frame.header.requestId
  {
    hide KindAt, HistoryAt, DataAt;
    HistoryAtStep(self, events, addr, i);
    HistoryGrows(self, events, addr, i + 1, j);
    DeliveredIsNew(self, events, addr, j);
  }
}
