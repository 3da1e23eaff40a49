/** Two nodes on the two ends of a connection, from the first handshake message to application data.

  The connection is a FIFO channel in each direction. At the sending end the writer of
  `crates/ceky-transport/src/tcp.rs` encodes the queued frames one by one and ends at the first that is too large, so
  that it and everything behind it stay there for good. At the receiving end the reader takes frames off the channel,
  answers every Ping with a Pong, drops every Pong, and queues the rest for the node. Any interleaving of reads, of
  events handled by either node, of sends by either application and of events that concern other peers is a run.
 */
module SecureChannel {
  import opened Bits
  import opened Wire
  import opened Wrappers
  import opened Crypto
  import opened Frames
  import Replay
  import Session
  import opened Noise
  import opened Dispatch

  const ID_SIZE: nat := 32

  /** The connecting node `a`, the accepting node `b`, and the address each has for the other. */
  datatype Ends = Ends(a: Self, b: Self, atA: Addr, atB: Addr, ephemeral: Bytes)
  {
    ghost predicate Ok()
    {
      a.suite == b.suite && a.suite.Lawful() && |a.id| == ID_SIZE && |b.id| == ID_SIZE
    }
  }

  /** A text sealed for the peer, and the type of the frame that carries it. */
  datatype Sent = Sent(kind: MessageType, text: Bytes)

  datatype Pair = Pair(
    peersA: Peers, peersB: Peers, accepted: bool,
    /** The channels, and the frames each reader has queued for its node. */
    ab: seq<Frame>, ba: seq<Frame>, inA: seq<Frame>, inB: seq<Frame>,
    /** What each side has sealed for the other, and the texts each node has decrypted. */
    sentA: seq<Sent>, sentB: seq<Sent>, gotA: seq<Bytes>, gotB: seq<Bytes>)

  datatype Step =
    | Accept
    | LateConnected
    | ReadAtA
    | ReadAtB
    | ToB(ephemeral: Bytes)
    | ToA(ephemeral: Bytes)
    | SendA(kind: MessageType, text: Bytes)
    | SendB(kind: MessageType, text: Bytes)
    | OtherA(event: Event)
    | OtherB(event: Event)

  // ---------- The transport's reader ----------

  predicate Heartbeat(kind: MessageType)
  {
    kind.Ping? || kind.Pong?
  }

  /** What the reader does with a frame: what it queues for the node and what it sends back. */
  datatype Passed = Passed(queued: seq<Frame>, reply: seq<Frame>)

  function ReadFrame(f: Frame): (r: Passed)
  {
    match f.header.msgType
    case Ping => Passed([], [NewFrame(Pong, 0, f.header.requestId, [])])
    case Pong => Passed([], [])
    case _ => Passed([f], [])
  }

  /** The encoder takes the frame. */
  predicate FrameFits(f: Frame)
  {
    |f.payload| <= MAX_PAYLOAD_SIZE
  }

  /** No frame of the channel stops the writer. */
  predicate Flows(wire: seq<Frame>)
  {
    forall k :: 0 <= k < |wire| ==> FrameFits(wire[k])
  }

  /** The frames of a channel that will reach the node: none behind one that is too large. */
  function Forwarded(wire: seq<Frame>): (r: seq<Frame>)
  {
    if wire == [] || !FrameFits(wire[0]) then []
    else ReadFrame(wire[0]).queued + Forwarded(wire[1..])
  }

  lemma {:induction false} ForwardedConcat(a: seq<Frame>, b: seq<Frame>)
    ensures Forwarded(a + b) == Forwarded(a) + if Flows(a) then Forwarded(b) else []
  {
    hide ReadFrame, Forwarded, Flows;
    if a == [] {
      NothingForwarded();
      FlowsConcat(a, b);
      assert a + b == b;
    } else {
      FlowsConcat([a[0]], a[1..]);
      assert a == [a[0]] + a[1..];
      ForwardedConcat(a[1..], b);
      ForwardedCons(a);
      ForwardedCons(a + b);
      assert (a + b)[1..] == a[1..] + b;
    }
  }

  lemma FlowsConcat(a: seq<Frame>, b: seq<Frame>)
    ensures Flows([]) && (|a| == 1 ==> (Flows(a) <==> FrameFits(a[0])))
    ensures Flows(a + b) <==> Flows(a) && Flows(b)
  {
    if Flows(a + b) {
      forall k | 0 <= k < |b| ensures FrameFits(b[k]) {
        assert (a + b)[|a| + k] == b[k];
      }
      forall k | 0 <= k < |a| ensures FrameFits(a[k]) {
        assert (a + b)[k] == a[k];
      }
    }
  }

  lemma ForwardedCons(wire: seq<Frame>)
    requires wire != []
    ensures Forwarded(wire) == if FrameFits(wire[0]) then ReadFrame(wire[0]).queued + Forwarded(wire[1..]) else []
  {
  }

  /** A reader never answers a reader's answer. */
  lemma ReplyDropped(f: Frame)
    ensures Forwarded(ReadFrame(f).reply) == [] && Flows(ReadFrame(f).reply)
  {
    var reply := ReadFrame(f).reply;
    if reply != [] {
      ForwardedOne(reply[0]);
      assert reply == [reply[0]];
    }
  }

  lemma ForwardedOne(f: Frame)
    ensures Forwarded([f]) == if Heartbeat(f.header.msgType) || !FrameFits(f) then [] else [f]
  {
    assert [f][1..] == [];
    assert FrameFits(f) ==> Forwarded([f]) == ReadFrame(f).queued + Forwarded([f][1..]);
  }

  // ---------- Steps ----------

  /** `a` has connected and sent message 1; `b` has not noticed yet. */
  function Start(ends: Ends, peersA: Peers, peersB: Peers): (s: Pair)
  {
    var r := React(ends.a, peersA, Connect(ends.atA, ends.ephemeral));
    Pair(r.peers, peersB, false, r.sent, [], [], [], [], [], [], [])
  }

  function Append(log: seq<Bytes>, data: Option<Bytes>): (r: seq<Bytes>)
  {
    if data.Some? then log + [data.value] else log
  }

  /** The greeting a node sends when its side becomes secure. */
  function Greeted(self: Self, before: Peers, after: Peers, addr: Addr, log: seq<Sent>): (r: seq<Sent>)
  {
    if KindOf(before, addr) != IsSecure && KindOf(after, addr) == IsSecure then log + [Sent(Ping, self.id)] else log
  }

  /** What an application may send: a frame of any type but a handshake's, and, sealed, less than 4 GiB. */
  predicate Sends(kind: MessageType, text: Bytes)
  {
    kind != Frames.Handshake && |text| + TAG_SIZE < U32_SIZE
  }

  /** The application sends a text over a secure session. */
  function SendText(self: Self, peers: Peers, addr: Addr, kind: MessageType, text: Bytes): (r: Reaction)
  {
    if addr in peers && peers[addr].Secure? && Sends(kind, text) then
      var s := peers[addr].session;
      var f := SealedFrame(self.suite, s, kind, text);
      Reaction(peers[addr := Secure(s.(sendNonce := Session.Bump(s.sendNonce)))],
               if f.Some? then [f.value] else [], None)
    else Reaction(peers, [], None)
  }

  function Apply(ends: Ends, s: Pair, step: Step): (t: Pair)
  {
    match step
    case Accept =>
      if s.accepted then s
      else s.(accepted := true, peersB := React(ends.b, s.peersB, Connected(ends.atB)).peers)
    case LateConnected => s.(peersA := React(ends.a, s.peersA, Connected(ends.atA)).peers)
    case ReadAtA =>
      if s.ba == [] || !FrameFits(s.ba[0]) then s
      else
        var r := ReadFrame(s.ba[0]);
        s.(ba := s.ba[1..], inA := s.inA + r.queued, ab := s.ab + r.reply)
    case ReadAtB =>
      if s.ab == [] || !FrameFits(s.ab[0]) then s
      else
        var r := ReadFrame(s.ab[0]);
        s.(ab := s.ab[1..], inB := s.inB + r.queued, ba := s.ba + r.reply)
    case ToB(e) =>
      if !s.accepted || s.inB == [] then s
      else
        var r := React(ends.b, s.peersB, Received(ends.atB, s.inB[0], e));
        s.(peersB := r.peers, inB := s.inB[1..], ba := s.ba + r.sent, gotB := Append(s.gotB, r.data),
           sentB := Greeted(ends.b, s.peersB, r.peers, ends.atB, s.sentB))
    case ToA(e) =>
      if s.inA == [] then s
      else
        var r := React(ends.a, s.peersA, Received(ends.atA, s.inA[0], e));
        s.(peersA := r.peers, inA := s.inA[1..], ab := s.ab + r.sent, gotA := Append(s.gotA, r.data),
           sentA := Greeted(ends.a, s.peersA, r.peers, ends.atA, s.sentA))
    case SendA(kind, text) =>
      var r := SendText(ends.a, s.peersA, ends.atA, kind, text);
      if r.sent == [] then s else s.(peersA := r.peers, ab := s.ab + r.sent, sentA := s.sentA + [Sent(kind, text)])
    case SendB(kind, text) =>
      var r := SendText(ends.b, s.peersB, ends.atB, kind, text);
      if r.sent == [] then s else s.(peersB := r.peers, ba := s.ba + r.sent, sentB := s.sentB + [Sent(kind, text)])
    case OtherA(event) =>
      if event.addr == ends.atA then s else s.(peersA := React(ends.a, s.peersA, event).peers)
    case OtherB(event) =>
      if event.addr == ends.atB then s else s.(peersB := React(ends.b, s.peersB, event).peers)
  }

  function Run(ends: Ends, peersA: Peers, peersB: Peers, steps: seq<Step>): (s: Pair)
  {
    if steps == [] then Start(ends, peersA, peersB)
    else Apply(ends, Run(ends, peersA, peersB, steps[..|steps| - 1]), steps[|steps| - 1])
  }

  // ---------- One direction of a secure session ----------

  /** The numbers of the texts that are not swallowed on the way. */
  function Kept(sent: seq<Sent>): (r: seq<nat>)
    ensures forall k :: 0 <= k < |r| ==> r[k] < |sent|
  {
    if sent == [] then []
    else
      var n := |sent| - 1;
      Kept(sent[..n]) + if Heartbeat(sent[n].kind) then [] else [n]
  }

  /** The texts the peer's node is to see: those not sent as Ping or Pong. */
  function Texts(sent: seq<Sent>): (r: seq<Bytes>)
  {
    var kept := Kept(sent);
    seq(|kept|, k requires 0 <= k < |kept| => sent[kept[k]].text)
  }

  /** Exactly the numbers of texts in frames that are no heartbeats, increasing. */
  lemma {:induction false} KeptIs(sent: seq<Sent>)
    ensures forall n: nat :: n in Kept(sent) <==> n < |sent| && !Heartbeat(sent[n].kind)
    ensures forall i, j :: 0 <= i < j < |Kept(sent)| ==> Kept(sent)[i] < Kept(sent)[j]
  {
    if sent != [] {
      KeptIs(sent[..|sent| - 1]);
    }
  }

  lemma KeptSnoc(sent: seq<Sent>, x: Sent)
    ensures Kept(sent + [x]) == Kept(sent) + if Heartbeat(x.kind) then [] else [|sent|]
  {
    assert (sent + [x])[..|sent|] == sent;
  }

  /** Increasing numbers with gaps never look like replays. */
  lemma NextIsFresh(sent: seq<Sent>, n: nat)
    requires n < |Kept(sent)|
    ensures Replay.Fresh(Kept(sent)[..n], Kept(sent)[n]) && Kept(sent)[..n] + [Kept(sent)[n]] == Kept(sent)[..n + 1]
  {
    hide Kept, Replay.Fresh;
    KeptIs(sent);
    Replay.FreshIff(Kept(sent)[..n], Kept(sent)[n]);
  }

  /** The frame that carries text number `n`. */
  ghost predicate Carries(suite: Suite, key: Bytes, n: nat, text: Bytes, f: Frame)
  {
    && f.header.msgType != Frames.Handshake && f.header.flags == ENCRYPTED && f.header.requestId == n
    && n <= Session.MAX_NONCE && f.payload == suite.aead.seal(key, BuildNonce(n), [], text)
  }

  /** The sealed text fits into a frame. */
  predicate TextFits(x: Sent)
  {
    |x.text| + TAG_SIZE <= MAX_PAYLOAD_SIZE
  }

  /** What the writer gets onto the channel: everything before the first text that is too large. */
  function Posted(sent: seq<Sent>): (r: seq<Sent>)
    ensures r <= sent
  {
    if sent == [] then []
    else
      var n := |sent| - 1;
      var before := Posted(sent[..n]);
      if |before| == n && TextFits(sent[n]) then sent else before
  }

  /** The texts before the first that is too large, and no more. */
  lemma {:induction false} PostedIs(sent: seq<Sent>)
    ensures forall k :: 0 <= k < |Posted(sent)| ==> TextFits(sent[k])
    ensures |Posted(sent)| < |sent| ==> !TextFits(sent[|Posted(sent)|])
  {
    if sent != [] {
      PostedIs(sent[..|sent| - 1]);
    }
  }

  lemma PostedSnoc(sent: seq<Sent>, x: Sent)
    ensures Posted(sent + [x]) == if Posted(sent) == sent && TextFits(x) then sent + [x] else Posted(sent)
  {
    assert (sent + [x])[..|sent|] == sent;
  }

  /** Of the texts posted, those kept are either received, in order, or on their way, in order; the receiver's window
      has been shown exactly the numbers received. */
  ghost predicate Carried(
    suite: Suite, key: Bytes, to: SessionState, posted: seq<Sent>, got: seq<Bytes>, pipe: seq<Frame>)
  {
    var kept := Kept(posted);
    && |kept| == |got| + |pipe|
    && got == Texts(posted)[..|got|]
    && to.history == kept[..|got|]
    && forall k :: 0 <= k < |pipe| ==> Carries(suite, key, kept[|got| + k], posted[kept[|got| + k]].text, pipe[k])
  }

  /** One direction: `open` says whether the writer still runs. */
  ghost predicate Flow(
    suite: Suite, from: SessionState, to: SessionState, sent: seq<Sent>, open: bool, got: seq<Bytes>, pipe: seq<Frame>)
  {
    && from.keys.sendKey == to.keys.recvKey && from.sendNonce == |sent|
    && (open <==> Posted(sent) == sent)
    && Carried(suite, from.keys.sendKey, to, Posted(sent), got, pipe)
  }

  lemma TextsSnoc(sent: seq<Sent>, x: Sent)
    ensures Texts(sent + [x]) == Texts(sent) + if Heartbeat(x.kind) then [] else [x.text]
  {
    hide Kept;
    KeptSnoc(sent, x);
  }

  lemma CarriedMore(
    suite: Suite, key: Bytes, to: SessionState, sent: seq<Sent>, got: seq<Bytes>, pipe: seq<Frame>, x: Sent, f: Frame)
    requires Carried(suite, key, to, sent, got, pipe) && Carries(suite, key, |sent|, x.text, f)
    requires f.header.msgType == x.kind && FrameFits(f)
    ensures Carried(suite, key, to, sent + [x], got, pipe + Forwarded([f]))
  {
    hide Kept, Texts, Carries, Forwarded;
    var more := sent + [x];
    ForwardedOne(f);
    KeptSnoc(sent, x);
    TextsSnoc(sent, x);
    TextsCount(sent);
    assert Texts(more)[..|got|] == Texts(sent)[..|got|];
    assert Kept(more)[..|got|] == Kept(sent)[..|got|];
    var longer := pipe + Forwarded([f]);
    forall k | 0 <= k < |longer|
      ensures Carries(suite, key, Kept(more)[|got| + k], more[Kept(more)[|got| + k]].text, longer[k])
    {
      if k < |pipe| {
        assert Kept(more)[|got| + k] == Kept(sent)[|got| + k];
      }
    }
  }

  lemma FlowSend(
    suite: Suite, from: SessionState, to: SessionState, sent: seq<Sent>, open: bool, got: seq<Bytes>, pipe: seq<Frame>,
    kind: MessageType, text: Bytes)
    requires suite.Lawful() && Flow(suite, from, to, sent, open, got, pipe) && kind != Frames.Handshake
    requires |sent| < Session.MAX_NONCE
    ensures var f := SealedFrame(suite, from, kind, text);
            && f.Some?
            && Flow(suite, from.(sendNonce := Session.Bump(from.sendNonce)), to, sent + [Sent(kind, text)],
                    open && FrameFits(f.value), got, pipe + if open then Forwarded([f.value]) else [])
  {
    hide SealedFrame, Carries, Forwarded, Carried, Posted;
    var f, x := SealedFrame(suite, from, kind, text), Sent(kind, text);
    SealedCarries(suite, from, kind, text);
    PostedSnoc(sent, x);
    ForwardedOne(f.value);
    if open && FrameFits(f.value) {
      CarriedMore(suite, from.keys.sendKey, to, sent, got, pipe, x, f.value);
    } else {
      assert pipe + [] == pipe;
    }
  }

  lemma SealedCarries(suite: Suite, from: SessionState, kind: MessageType, text: Bytes)
    requires suite.Lawful() && from.sendNonce <= Session.MAX_NONCE && kind != Frames.Handshake
    ensures var f := SealedFrame(suite, from, kind, text);
            && f.Some? && f.value.header.msgType == kind
            && Carries(suite, from.keys.sendKey, from.sendNonce, text, f.value)
            && (FrameFits(f.value) <==> TextFits(Sent(kind, text)))
  {
  }

  lemma TextsCount(sent: seq<Sent>)
    ensures |Texts(sent)| == |Kept(sent)|
    ensures forall k :: 0 <= k < |Kept(sent)| ==> Texts(sent)[k] == sent[Kept(sent)[k]].text
  {
  }

  /** The receiving node passes on exactly the next text. */
  lemma FlowReceive(
    self: Self, peers: Peers, addr: Addr, from: SessionState, sent: seq<Sent>, open: bool, got: seq<Bytes>,
    pipe: seq<Frame>)
    requires self.suite.Lawful()
    requires addr in peers && peers[addr].Secure? && pipe != []
    requires Flow(self.suite, from, peers[addr].session, sent, open, got, pipe)
    ensures var posted := Posted(sent); |got| < |Texts(posted)| && |got| < |Kept(posted)|
    ensures var to, posted := peers[addr].session, Posted(sent);
            var r := OnFrame(self, peers, addr, pipe[0]);
            var after := to.(history := to.history + [Kept(posted)[|got|]]);
            && pipe[0].header.msgType != Frames.Handshake
            && r == Reaction(peers[addr := Secure(after)], [], Some(Texts(posted)[|got|]))
            && Flow(self.suite, from, after, sent, open, got + [Texts(posted)[|got|]], pipe[1..])
  {
    hide Replay.Fresh, Kept, Texts, Posted;
    var posted := Posted(sent);
    TextsCount(posted);
    var f, n := pipe[0], |got|;
    assert Carries(self.suite, from.keys.sendKey, Kept(posted)[n + 0], posted[Kept(posted)[n + 0]].text, f);
    NextIsFresh(posted, n);
    assert IsEncrypted(f) by {
      MaskTestsBit(ENCRYPTED, 0);
    }
    assert Texts(posted)[..n + 1] == Texts(posted)[..n] + [Texts(posted)[n]];
    forall k | 0 <= k < |pipe[1..]|
      ensures var j := Kept(posted)[n + 1 + k];
              Carries(self.suite, from.keys.sendKey, j, posted[j].text, pipe[1..][k])
    {
      var j := Kept(posted)[n + (k + 1)];
      assert Carries(self.suite, from.keys.sendKey, j, posted[j].text, pipe[k + 1]);
    }
  }

  // ---------- The stages of a run ----------

  /** The frames on their way to each node: queued for it, or on the channel and no heartbeat. */
  function TowardA(s: Pair): (pipe: seq<Frame>)
  {
    s.inA + Forwarded(s.ba)
  }

  function TowardB(s: Pair): (pipe: seq<Frame>)
  {
    s.inB + Forwarded(s.ab)
  }

  lemma Lengthened(queue: seq<Frame>, wire: seq<Frame>, frames: seq<Frame>)
    ensures queue + Forwarded(wire + frames)
         == queue + Forwarded(wire) + (if Flows(wire) then Forwarded(frames) else [])
    ensures Flows(wire + frames) <==> Flows(wire) && Flows(frames)
  {
    ForwardedConcat(wire, frames);
    FlowsConcat(wire, frames);
  }

  lemma Shortened(queue: seq<Frame>, wire: seq<Frame>)
    requires queue != []
    ensures (queue + Forwarded(wire))[0] == queue[0]
    ensures queue[1..] + Forwarded(wire) == (queue + Forwarded(wire))[1..]
  {
  }

  function Lookup(peers: Peers, addr: Addr): (r: Option<PeerState>)
  {
    if addr in peers then Some(peers[addr]) else None
  }

  /** The initiator's state after message 1. */
  function AfterMsg1(ends: Ends): (hs: Noise.Handshake)
  {
    Write1(ends.a.suite, true, Initial(ends.a.suite), ends.ephemeral).hs
  }

  ghost predicate Silent(s: Pair)
  {
    s.sentA == [] && s.sentB == [] && s.gotA == [] && s.gotB == []
  }

  /** The first text a side seals is its id, as a Ping. */
  predicate Greets(self: Self, sent: seq<Sent>)
  {
    sent != [] && sent[0] == Sent(Ping, self.id)
  }

  /** Message 1 is on its way. */
  ghost predicate Stage1(ends: Ends, s: Pair)
  {
    && Silent(s) && Flows(s.ab) && Flows(s.ba) && TowardA(s) == []
    && Lookup(s.peersA, ends.atA) == Some(InitiatorWaitMsg2(AfterMsg1(ends)))
    && TowardB(s) == [HandshakeFrame(ends.a.suite.public(ends.ephemeral))]
    && Lookup(s.peersB, ends.atB) == if s.accepted then Some(ResponderWaitMsg1(Initial(ends.b.suite))) else None
  }

  /** Message 2 is on its way. */
  ghost predicate Stage2(ends: Ends, s: Pair)
  {
    && Silent(s) && Flows(s.ab) && Flows(s.ba) && TowardB(s) == [] && s.accepted
    && Lookup(s.peersA, ends.atA) == Some(InitiatorWaitMsg2(AfterMsg1(ends)))
    && var entry := Lookup(s.peersB, ends.atB);
       && entry.Some? && entry.value.ResponderWaitMsg3? && entry.value.hs.phase.SentMsg2?
       && var w := Process1(ends.b.suite, Initial(ends.b.suite), ends.b.secret, entry.value.hs.phase.ephemeral,
                            ends.a.suite.public(ends.ephemeral));
          w.hs == entry.value.hs && w.result.Success? && TowardA(s) == [HandshakeFrame(w.result.value)]
  }

  /** One side's send key is the other's receive key, and each has learned the other's static key. */
  ghost predicate Mirrored(ends: Ends, ka: SessionKeys, kb: SessionKeys)
  {
    && ka.sendKey == kb.recvKey && ka.recvKey == kb.sendKey
    && ka.remoteStatic == ends.b.suite.public(ends.b.secret)
    && kb.remoteStatic == ends.a.suite.public(ends.a.secret)
  }

  /** Message 3 is on its way, with data behind it. */
  ghost predicate Stage3(ends: Ends, s: Pair)
  {
    var entryA, entryB := Lookup(s.peersA, ends.atA), Lookup(s.peersB, ends.atB);
    && s.accepted && Greets(ends.a, s.sentA) && s.sentB == [] && s.gotA == [] && s.gotB == []
    && TowardA(s) == [] && Flows(s.ba)
    && entryA.Some? && entryA.value.Secure? && entryA.value.session.history == []
    && entryB.Some? && entryB.value.ResponderWaitMsg3?
    && TowardB(s) != [] && TowardB(s)[0].header.msgType == Frames.Handshake
    && var r := Read3(ends.b.suite, entryB.value.hs, TowardB(s)[0].payload);
       && r.result.Success? && r.hs.phase.Complete?
       && Mirrored(ends, entryA.value.session.keys, r.hs.phase.keys)
       && Flow(ends.a.suite, entryA.value.session, SessionState(r.hs.phase.keys, 0, []), s.sentA, Flows(s.ab), [],
               TowardB(s)[1..])
  }

  /** Both ends are secure. */
  ghost predicate Stage4(ends: Ends, s: Pair)
  {
    var entryA, entryB := Lookup(s.peersA, ends.atA), Lookup(s.peersB, ends.atB);
    && s.accepted && Greets(ends.a, s.sentA) && Greets(ends.b, s.sentB)
    && entryA.Some? && entryA.value.Secure? && entryB.Some? && entryB.value.Secure?
    && Mirrored(ends, entryA.value.session.keys, entryB.value.session.keys)
    && Flow(ends.a.suite, entryA.value.session, entryB.value.session, s.sentA, Flows(s.ab), s.gotB, TowardB(s))
    && Flow(ends.b.suite, entryB.value.session, entryA.value.session, s.sentB, Flows(s.ba), s.gotA, TowardA(s))
  }

  ghost predicate Inv(ends: Ends, s: Pair)
  {
    Stage1(ends, s) || Stage2(ends, s) || Stage3(ends, s) || Stage4(ends, s)
  }

  lemma StartInv(ends: Ends, peersA: Peers, peersB: Peers)
    requires ends.Ok() && ends.atB !in peersB
    ensures Stage1(ends, Start(ends, peersA, peersB))
  {
    hide Hkdf, Forwarded;
    InitialIsNew(ends.a.suite);
    ForwardedOne(HandshakeFrame(ends.a.suite.public(ends.ephemeral)));
    assert Forwarded([]) == [] by {
      NothingForwarded();
    }
  }

  lemma NothingForwarded()
    ensures Forwarded([]) == []
  {
  }

  lemma DeliverMsg1(ends: Ends, s: Pair, e: Bytes)
    requires ends.Ok() && Stage1(ends, s) && s.accepted && s.inB != []
    ensures Stage2(ends, Apply(ends, s, ToB(e)))
  {
    hide Process1, Write1, Initial, Apply, TowardA, TowardB, Flows, HandshakeFrame, AfterMsg1;
    Msg1Applied(ends, s, e);
  }

  lemma Msg1Applied(ends: Ends, s: Pair, e: Bytes)
    requires ends.Ok() && s.accepted && s.inB != [] && Flows(s.ba) && s.sentB == []
    requires Lookup(s.peersB, ends.atB) == Some(ResponderWaitMsg1(Initial(ends.b.suite)))
    requires TowardB(s) == [HandshakeFrame(ends.a.suite.public(ends.ephemeral))] && TowardA(s) == []
    ensures var w := Process1(ends.b.suite, Initial(ends.b.suite), ends.b.secret, e,
                              ends.a.suite.public(ends.ephemeral));
            var t := Apply(ends, s, ToB(e));
            && w.result.Success? && w.hs.phase.SentMsg2? && w.hs.phase.ephemeral == e
            && t.peersB == s.peersB[ends.atB := ResponderWaitMsg3(w.hs)]
            && TowardA(t) == [HandshakeFrame(w.result.value)] && TowardB(t) == [] && Flows(t.ba)
            && t == s.(peersB := t.peersB, inB := t.inB, ba := t.ba)
  {
    hide Process1, Initial, React, Forwarded, Flows, HandshakeFrame, FrameFits;
    Shortened(s.inB, s.ab);
    Msg1Reaction(ends, s.peersB, e);
    var w := Process1(ends.b.suite, Initial(ends.b.suite), ends.b.secret, e, ends.a.suite.public(ends.ephemeral));
    HandshakeForwarded(w.result.value);
    OneMore(s.inA, s.ba, HandshakeFrame(w.result.value));
  }

  lemma HandshakeForwarded(payload: Bytes)
    requires FrameFits(HandshakeFrame(payload))
    ensures Forwarded([HandshakeFrame(payload)]) == [HandshakeFrame(payload)]
  {
    ForwardedOne(HandshakeFrame(payload));
  }

  /** What `b` does with message 1. */
  lemma Msg1Reaction(ends: Ends, peers: Peers, e: Bytes)
    requires ends.Ok() && Lookup(peers, ends.atB) == Some(ResponderWaitMsg1(Initial(ends.b.suite)))
    ensures var msg1 := ends.a.suite.public(ends.ephemeral);
            var w := Process1(ends.b.suite, Initial(ends.b.suite), ends.b.secret, e, msg1);
            && w.result.Success? && w.hs.phase == SentMsg2(msg1, e) && FrameFits(HandshakeFrame(w.result.value))
            && React(ends.b, peers, Received(ends.atB, HandshakeFrame(msg1), e))
            == Reaction(peers[ends.atB := ResponderWaitMsg3(w.hs)], [HandshakeFrame(w.result.value)], None)
  {
    hide Write1, Read1, Write2, Initial, OnFrame, SealedFrame;
    var suite := ends.a.suite;
    InitialIsNew(suite);
    Message1Agrees(suite, Initial(suite), Initial(suite), ends.ephemeral);
    Write2Shape(suite, Read1(suite, Initial(suite), suite.public(ends.ephemeral)).hs, ends.b.secret, e,
                suite.public(ends.ephemeral));
  }

  lemma InitialIsNew(suite: Suite)
    ensures Initial(suite).phase.New?
  {
  }

  lemma Write2Shape(suite: Suite, hs: Noise.Handshake, secret: Bytes, ephemeral: Bytes, remoteE: Bytes)
    ensures var w := Write2(suite, hs, secret, ephemeral, remoteE);
            w.result.Success? && w.hs.phase == SentMsg2(remoteE, ephemeral)
    ensures suite.Lawful() ==> |Write2(suite, hs, secret, ephemeral, remoteE).result.value| == 32 + 48 + 16
  {
  }

  /** Messages 2 and 3 in sequence: the initiator completes, the responder will, and their keys mirror. */
  lemma Messages2And3(ends: Ends, hsB: Noise.Handshake, msg2: Bytes)
    requires ends.Ok() && hsB.phase.SentMsg2?
    requires Process1(ends.b.suite, Initial(ends.b.suite), ends.b.secret, hsB.phase.ephemeral,
                      ends.a.suite.public(ends.ephemeral)) == Stepped(hsB, Success(msg2))
    ensures var done := Process2(ends.a.suite, AfterMsg1(ends), ends.a.secret, msg2);
            && done.result.Success? && done.hs.phase.Complete?
            && var r := Read3(ends.b.suite, hsB, done.result.value);
               r.result.Success? && r.hs.phase.Complete? && Mirrored(ends, done.hs.phase.keys, r.hs.phase.keys)
  {
    hide Read2, Write2, Write3, Read3, Read1, Write1, Initial;
    InitialIsNew(ends.a.suite);
    var suite, initial, eB := ends.a.suite, Initial(ends.a.suite), hsB.phase.ephemeral;
    Message1Agrees(suite, initial, initial, ends.ephemeral);
    var heard := Read1(suite, initial, suite.public(ends.ephemeral)).hs;
    Message2Agrees(suite, AfterMsg1(ends), heard, ends.ephemeral, eB, ends.b.secret);
    var read := Read2(suite, AfterMsg1(ends), msg2);
    Message3Agrees(suite, read.hs, hsB, ends.a.secret, eB, suite.public(ends.ephemeral), ends.b.secret);
  }

  lemma DeliverMsg2(ends: Ends, s: Pair, e: Bytes)
    requires ends.Ok() && Stage2(ends, s) && s.inA != []
    ensures Stage3(ends, Apply(ends, s, ToA(e)))
  {
    hide Process1, Process2, Read3, Flow, Initial, Mirrored, AfterMsg1, Forwarded, Secured, Apply, TowardA, TowardB;
    var hsB, msg2 := s.peersB[ends.atB].hs, TowardA(s)[0].payload;
    Messages2And3(ends, hsB, msg2);
    Msg2Applied(ends, s, msg2, e);
    var done := Process2(ends.a.suite, AfterMsg1(ends), ends.a.secret, msg2);
    var keysB := Read3(ends.b.suite, hsB, done.result.value).hs.phase.keys;
    MirroredBack(ends, done.hs.phase.keys, keysB);
    Greeting(ends.a, SessionState(done.hs.phase.keys, 0, []), SessionState(keysB, 0, []));
    assert TowardB(Apply(ends, s, ToA(e)))[1..] == [];
  }

  lemma Msg2Applied(ends: Ends, s: Pair, msg2: Bytes, e: Bytes)
    requires ends.Ok() && s.inA != [] && s.sentA == [] && Flows(s.ab)
    requires TowardA(s) == [HandshakeFrame(msg2)] && TowardB(s) == []
    requires Lookup(s.peersA, ends.atA) == Some(InitiatorWaitMsg2(AfterMsg1(ends)))
    requires var done := Process2(ends.a.suite, AfterMsg1(ends), ends.a.secret, msg2);
             done.result.Success? && done.hs.phase.Complete?
    ensures var done := Process2(ends.a.suite, AfterMsg1(ends), ends.a.secret, msg2);
            var t := Apply(ends, s, ToA(e));
            && t.peersA == s.peersA[ends.atA := Secured(ends.a, done.hs.phase.keys).0]
            && t.sentA == [Sent(Ping, ends.a.id)]
            && TowardB(t) == [HandshakeFrame(done.result.value)] && TowardA(t) == [] && Flows(t.ab)
            && t == s.(peersA := t.peersA, inA := t.inA, ab := t.ab, sentA := t.sentA)
  {
    hide Process2, AfterMsg1, Forwarded, React, Secured, Flows, HandshakeFrame;
    Shortened(s.inA, s.ba);
    Msg2Reaction(ends, s.peersA, msg2, e);
    var done := Process2(ends.a.suite, AfterMsg1(ends), ends.a.secret, msg2);
    var frames := [HandshakeFrame(done.result.value)] + Secured(ends.a, done.hs.phase.keys).1;
    Msg3Forwarded(ends.a, AfterMsg1(ends), msg2);
    Lengthened(s.inB, s.ab, frames);
    assert [] + [Sent(Ping, ends.a.id)] == [Sent(Ping, ends.a.id)];
  }

  lemma Msg3Fits(suite: Suite, hs: Noise.Handshake, secret: Bytes, msg2: Bytes)
    requires suite.Lawful() && Process2(suite, hs, secret, msg2).result.Success?
    ensures |Process2(suite, hs, secret, msg2).result.value| == 48
  {
    hide Read2, Hkdf;
  }

  /** Message 3 and the greeting behind it: only the message gets to the node. */
  lemma Msg3Forwarded(self: Self, hs: Noise.Handshake, msg2: Bytes)
    requires self.suite.Lawful() && |self.id| == ID_SIZE
    requires var done := Process2(self.suite, hs, self.secret, msg2); done.result.Success? && done.hs.phase.Complete?
    ensures var done := Process2(self.suite, hs, self.secret, msg2);
            var frames := [HandshakeFrame(done.result.value)] + Secured(self, done.hs.phase.keys).1;
            Forwarded(frames) == [HandshakeFrame(done.result.value)] && Flows(frames)
  {
    hide Process2, Forwarded, Secured;
    var done := Process2(self.suite, hs, self.secret, msg2);
    Msg3Fits(self.suite, hs, self.secret, msg2);
    HandshakeForwarded(done.result.value);
    GreetingForwarded(self, done.hs.phase.keys);
    ForwardedConcat([HandshakeFrame(done.result.value)], Secured(self, done.hs.phase.keys).1);
    FlowsConcat([HandshakeFrame(done.result.value)], Secured(self, done.hs.phase.keys).1);
  }

  lemma GreetingForwarded(self: Self, keys: SessionKeys)
    requires self.suite.Lawful() && |self.id| == ID_SIZE
    ensures Forwarded(Secured(self, keys).1) == [] && Flows(Secured(self, keys).1)
  {
    Greeting(self, SessionState(keys, 0, []), SessionState(keys.(recvKey := keys.sendKey), 0, []));
  }

  /** What `a` does with message 2. */
  lemma Msg2Reaction(ends: Ends, peers: Peers, msg2: Bytes, e: Bytes)
    requires Lookup(peers, ends.atA) == Some(InitiatorWaitMsg2(AfterMsg1(ends)))
    requires var done := Process2(ends.a.suite, AfterMsg1(ends), ends.a.secret, msg2);
             done.result.Success? && done.hs.phase.Complete?
    ensures var done := Process2(ends.a.suite, AfterMsg1(ends), ends.a.secret, msg2);
            var (secure, greeting) := Secured(ends.a, done.hs.phase.keys);
            React(ends.a, peers, Received(ends.atA, HandshakeFrame(msg2), e))
            == Reaction(peers[ends.atA := secure], [HandshakeFrame(done.result.value)] + greeting, None)
  {
    hide Process2, AfterMsg1, OnFrame, SealedFrame, Initial;
  }

  /** A node that becomes secure has sealed one text, its id, which the peer's reader swallows. */
  lemma Greeting(self: Self, session: SessionState, peer: SessionState)
    requires self.suite.Lawful() && |self.id| == ID_SIZE
    requires session.sendNonce == 0 && session.history == [] && peer.history == []
    requires session.keys.sendKey == peer.keys.recvKey
    ensures var (secure, frames) := Secured(self, session.keys);
            && secure == Secure(session.(sendNonce := Session.Bump(0)))
            && Flow(self.suite, secure.session, peer, [Sent(Ping, self.id)], true, [], [])
            && Forwarded(frames) == [] && Flows(frames)
  {
    hide Forwarded;
    assert Flow(self.suite, session, peer, [], true, [], []);
    FlowSend(self.suite, session, peer, [], true, [], [], Ping, self.id);
    SealedCarries(self.suite, session, Ping, self.id);
    var f := SealedFrame(self.suite, session, Ping, self.id);
    ForwardedOne(f.value);
    assert [] + [Sent(Ping, self.id)] == [Sent(Ping, self.id)];
    assert [] + Forwarded([f.value]) == [];
  }

  lemma DeliverMsg3(ends: Ends, s: Pair, e: Bytes)
    requires ends.Ok() && Stage3(ends, s) && s.inB != []
    ensures Stage4(ends, Apply(ends, s, ToB(e)))
  {
    hide Read3, Flow, Mirrored, SealedFrame, OnFrame, Process1, Process2, Initial, Forwarded;
    Shortened(s.inB, s.ab);
    var entryA, hsB := s.peersA[ends.atA].session, s.peersB[ends.atB].hs;
    var r := Read3(ends.b.suite, hsB, s.inB[0].payload);
    var keysB := r.hs.phase.keys;
    var t := Apply(ends, s, ToB(e));
    var (secure, greeting) := Secured(ends.b, keysB);
    MirroredBack(ends, entryA.keys, keysB);
    Greeting(ends.b, SessionState(keysB, 0, []), entryA);
    assert t.peersB[ends.atB] == secure;
    Lengthened(s.inA, s.ba, greeting);
    assert TowardA(t) == [] + Forwarded(greeting) == [];
    assert t.sentB == [] + [Sent(Ping, ends.b.id)] == [Sent(Ping, ends.b.id)];
    FlowIgnoresCounter(ends.a.suite, entryA, SessionState(keysB, 0, []), secure.session, s.sentA, Flows(s.ab), [],
                       TowardB(s)[1..]);
  }

  lemma MirroredBack(ends: Ends, ka: SessionKeys, kb: SessionKeys)
    requires Mirrored(ends, ka, kb)
    ensures kb.sendKey == ka.recvKey && ka.sendKey == kb.recvKey
  {
  }

  lemma FlowIgnoresCounter(
    suite: Suite, from: SessionState, to: SessionState, to': SessionState, sent: seq<Sent>, open: bool,
    got: seq<Bytes>, pipe: seq<Frame>)
    requires Flow(suite, from, to, sent, open, got, pipe) && to'.keys == to.keys && to'.history == to.history
    ensures Flow(suite, from, to', sent, open, got, pipe)
  {
  }

  /** The stages see only the two entries, the logs and what is on its way to a node. */
  ghost predicate SameView(ends: Ends, s: Pair, t: Pair)
  {
    && t.accepted == s.accepted && TowardA(t) == TowardA(s) && TowardB(t) == TowardB(s)
    && (Flows(t.ab) <==> Flows(s.ab)) && (Flows(t.ba) <==> Flows(s.ba))
    && t.sentA == s.sentA && t.sentB == s.sentB && t.gotA == s.gotA && t.gotB == s.gotB
    && Lookup(t.peersA, ends.atA) == Lookup(s.peersA, ends.atA)
    && Lookup(t.peersB, ends.atB) == Lookup(s.peersB, ends.atB)
  }

  lemma SameStage(ends: Ends, s: Pair, t: Pair)
    requires Inv(ends, s) && SameView(ends, s, t)
    ensures Inv(ends, t)
  {
    hide Process1, Process2, Read3, Write1, Flow, Mirrored, TowardA, TowardB, Lookup, Greets, Flows;
  }

  /** Events about other peers leave both entries alone, so no stage notices them. */
  lemma OtherStep(ends: Ends, s: Pair, step: Step)
    requires Inv(ends, s) && (step.OtherA? || step.OtherB?)
    ensures Inv(ends, Apply(ends, s, step))
    ensures Apply(ends, s, step).sentA == s.sentA && Apply(ends, s, step).sentB == s.sentB
  {
    hide React, Inv, Forwarded;
    if step.OtherA? {
      EntryMoves(ends.a, s.peersA, step.event, ends.atA);
    } else {
      EntryMoves(ends.b, s.peersB, step.event, ends.atB);
    }
    SameStage(ends, s, Apply(ends, s, step));
  }

  lemma ConnectedStep(ends: Ends, s: Pair, step: Step)
    requires Inv(ends, s) && (step.Accept? || step.LateConnected?)
    ensures Inv(ends, Apply(ends, s, step))
    ensures Apply(ends, s, step).sentA == s.sentA && Apply(ends, s, step).sentB == s.sentB
  {
    hide Process1, Process2, Read3, Write1, Flow, Mirrored, Forwarded;
  }

  /** A reader's work changes nothing that is on its way to a node. */
  lemma ReadStep(ends: Ends, s: Pair, step: Step)
    requires Inv(ends, s) && (step.ReadAtA? || step.ReadAtB?)
    ensures Inv(ends, Apply(ends, s, step))
    ensures Apply(ends, s, step).sentA == s.sentA && Apply(ends, s, step).sentB == s.sentB
  {
    hide Inv, Forwarded, ReadFrame, React, Flows;
    ReadKeeps(s.inA, s.ba, s.inB, s.ab);
    ReadKeeps(s.inB, s.ab, s.inA, s.ba);
    SameStage(ends, s, Apply(ends, s, step));
  }

  lemma ReadKeeps(queue: seq<Frame>, wire: seq<Frame>, other: seq<Frame>, back: seq<Frame>)
    ensures wire != [] && FrameFits(wire[0]) ==>
              var r := ReadFrame(wire[0]);
              && queue + r.queued + Forwarded(wire[1..]) == queue + Forwarded(wire)
              && other + Forwarded(back + r.reply) == other + Forwarded(back)
              && (Flows(wire[1..]) <==> Flows(wire)) && (Flows(back + r.reply) <==> Flows(back))
  {
    hide ReadFrame, Forwarded;
    if wire != [] && FrameFits(wire[0]) {
      ForwardedCons(wire);
      Lengthened(other, back, ReadFrame(wire[0]).reply);
      ReplyDropped(wire[0]);
      assert wire == [wire[0]] + wire[1..];
    }
  }

  /** Data sent by `a`, possibly before `b` has finished its handshake. */
  lemma SendAStep(ends: Ends, s: Pair, kind: MessageType, text: Bytes)
    requires ends.Ok() && Inv(ends, s) && |s.sentA| < Session.MAX_NONCE
    ensures Inv(ends, Apply(ends, s, SendA(kind, text)))
  {
    hide Process1, Read3, Flow, Mirrored, SealedFrame, React, Initial, Forwarded;
    var entry := Lookup(s.peersA, ends.atA);
    if entry.value.Secure? && Sends(kind, text) {
      if Stage3(ends, s) {
        SendAStep3(ends, s, kind, text);
      } else {
        SendAStep4(ends, s, kind, text);
      }
    }
  }

  lemma OneMore(queue: seq<Frame>, wire: seq<Frame>, f: Frame)
    ensures queue + Forwarded(wire + [f]) == queue + Forwarded(wire) + (if Flows(wire) then Forwarded([f]) else [])
    ensures Flows(wire + [f]) <==> Flows(wire) && FrameFits(f)
  {
    hide Forwarded;
    Lengthened(queue, wire, [f]);
    assert Flows([f]) <==> FrameFits([f][0]);
  }

  lemma SendAStep3(ends: Ends, s: Pair, kind: MessageType, text: Bytes)
    requires ends.Ok() && Stage3(ends, s) && |s.sentA| < Session.MAX_NONCE && Sends(kind, text)
    ensures Stage3(ends, Apply(ends, s, SendA(kind, text)))
  {
    hide Read3, Flow, Mirrored, SealedFrame, React, Initial, Forwarded, Flows;
    var from := s.peersA[ends.atA].session;
    var t := Apply(ends, s, SendA(kind, text));
    var f := SealedFrame(ends.a.suite, from, kind, text);
    var keysB := Read3(ends.b.suite, s.peersB[ends.atB].hs, TowardB(s)[0].payload).hs.phase.keys;
    FlowSend(ends.a.suite, from, SessionState(keysB, 0, []), s.sentA, Flows(s.ab), [], TowardB(s)[1..], kind, text);
    OneMore(s.inB, s.ab, f.value);
    assert TowardB(t)[1..] == TowardB(s)[1..] + if Flows(s.ab) then Forwarded([f.value]) else [];
  }

  lemma SendAStep4(ends: Ends, s: Pair, kind: MessageType, text: Bytes)
    requires ends.Ok() && Stage4(ends, s) && |s.sentA| < Session.MAX_NONCE && Sends(kind, text)
    ensures Stage4(ends, Apply(ends, s, SendA(kind, text)))
  {
    hide Flow, Mirrored, SealedFrame, React, Forwarded, Flows;
    var from, to := s.peersA[ends.atA].session, s.peersB[ends.atB].session;
    var t := Apply(ends, s, SendA(kind, text));
    FlowSend(ends.a.suite, from, to, s.sentA, Flows(s.ab), s.gotB, TowardB(s), kind, text);
    OneMore(s.inB, s.ab, SealedFrame(ends.a.suite, from, kind, text).value);
    FlowIgnoresCounter(ends.b.suite, to, from, t.peersA[ends.atA].session, s.sentB, Flows(s.ba), s.gotA, TowardA(s));
  }

  lemma SendBStep(ends: Ends, s: Pair, kind: MessageType, text: Bytes)
    requires ends.Ok() && Inv(ends, s) && |s.sentB| < Session.MAX_NONCE
    ensures Inv(ends, Apply(ends, s, SendB(kind, text)))
  {
    hide Process1, Read3, Flow, Mirrored, SealedFrame, Forwarded, React, Initial;
    var entry := Lookup(s.peersB, ends.atB);
    if entry.Some? && entry.value.Secure? && Sends(kind, text) {
      SendBStep4(ends, s, kind, text);
    }
  }

  lemma SendBStep4(ends: Ends, s: Pair, kind: MessageType, text: Bytes)
    requires ends.Ok() && Stage4(ends, s) && |s.sentB| < Session.MAX_NONCE && Sends(kind, text)
    ensures Stage4(ends, Apply(ends, s, SendB(kind, text)))
  {
    hide Flow, Mirrored, SealedFrame, React, Forwarded, Flows;
    var from, to := s.peersB[ends.atB].session, s.peersA[ends.atA].session;
    var t := Apply(ends, s, SendB(kind, text));
    FlowSend(ends.b.suite, from, to, s.sentB, Flows(s.ba), s.gotA, TowardA(s), kind, text);
    OneMore(s.inA, s.ba, SealedFrame(ends.b.suite, from, kind, text).value);
    FlowIgnoresCounter(ends.a.suite, to, from, t.peersB[ends.atB].session, s.sentA, Flows(s.ab), s.gotB, TowardB(s));
  }

  lemma DataToB(ends: Ends, s: Pair, e: Bytes)
    requires ends.Ok() && Stage4(ends, s) && s.inB != []
    ensures Stage4(ends, Apply(ends, s, ToB(e)))
    ensures Apply(ends, s, ToB(e)).sentA == s.sentA && Apply(ends, s, ToB(e)).sentB == s.sentB
  {
    hide Flow, Mirrored, OnFrame, OnHandshake, Forwarded, Kept, Texts, Posted, Flows;
    Shortened(s.inB, s.ab);
    var from, to := s.peersA[ends.atA].session, s.peersB[ends.atB].session;
    FlowReceive(ends.b, s.peersB, ends.atB, from, s.sentA, Flows(s.ab), s.gotB, TowardB(s));
    var after := Apply(ends, s, ToB(e)).peersB[ends.atB].session;
    FlowFromCounter(ends.b.suite, to, after, from, s.sentB, Flows(s.ba), s.gotA, TowardA(s));
    assert s.ba + [] == s.ba;
  }

  lemma DataToA(ends: Ends, s: Pair, e: Bytes)
    requires ends.Ok() && Stage4(ends, s) && s.inA != []
    ensures Stage4(ends, Apply(ends, s, ToA(e)))
    ensures Apply(ends, s, ToA(e)).sentA == s.sentA && Apply(ends, s, ToA(e)).sentB == s.sentB
  {
    hide Flow, Mirrored, OnFrame, OnHandshake, Forwarded, Kept, Texts, Posted, Flows;
    Shortened(s.inA, s.ba);
    var from, to := s.peersB[ends.atB].session, s.peersA[ends.atA].session;
    FlowReceive(ends.a, s.peersA, ends.atA, from, s.sentB, Flows(s.ba), s.gotA, TowardA(s));
    var after := Apply(ends, s, ToA(e)).peersA[ends.atA].session;
    FlowFromCounter(ends.a.suite, to, after, from, s.sentA, Flows(s.ab), s.gotB, TowardB(s));
    assert s.ab + [] == s.ab;
  }

  /** A sender's own window plays no part in what it sends. */
  lemma FlowFromCounter(
    suite: Suite, from: SessionState, from': SessionState, to: SessionState, sent: seq<Sent>, open: bool,
    got: seq<Bytes>, pipe: seq<Frame>)
    requires Flow(suite, from, to, sent, open, got, pipe)
    requires from'.keys == from.keys && from'.sendNonce == from.sendNonce
    ensures Flow(suite, from', to, sent, open, got, pipe)
  {
  }

  lemma StepInv(ends: Ends, s: Pair, step: Step)
    requires ends.Ok() && Inv(ends, s) && |s.sentA| < Session.MAX_NONCE && |s.sentB| < Session.MAX_NONCE
    ensures Inv(ends, Apply(ends, s, step))
    ensures |Apply(ends, s, step).sentA| <= |s.sentA| + 1 && |Apply(ends, s, step).sentB| <= |s.sentB| + 1
  {
    hide Inv, React, SealedFrame, Forwarded, ReadFrame;
    match step
    case Accept => ConnectedStep(ends, s, step);
    case LateConnected => ConnectedStep(ends, s, step);
    case OtherA(_) => OtherStep(ends, s, step);
    case OtherB(_) => OtherStep(ends, s, step);
    case ReadAtA => ReadStep(ends, s, step);
    case ReadAtB => ReadStep(ends, s, step);
    case SendA(kind, text) => SendAStep(ends, s, kind, text);
    case SendB(kind, text) => SendBStep(ends, s, kind, text);
    case ToB(e) => HandleAtB(ends, s, e);
    case ToA(e) => HandleAtA(ends, s, e);
  }

  lemma HandleAtB(ends: Ends, s: Pair, e: Bytes)
    requires ends.Ok() && Inv(ends, s)
    ensures var t := Apply(ends, s, ToB(e));
            Inv(ends, t) && t.sentA == s.sentA && |t.sentB| <= |s.sentB| + 1
  {
    hide Process1, Process2, Read3, Write1, Flow, Mirrored, React, Forwarded;
    if s.accepted && s.inB != [] {
      Shortened(s.inB, s.ab);
      if Stage1(ends, s) {
        DeliverMsg1(ends, s, e);
      } else if Stage3(ends, s) {
        DeliverMsg3(ends, s, e);
      } else {
        DataToB(ends, s, e);
      }
    }
  }

  lemma HandleAtA(ends: Ends, s: Pair, e: Bytes)
    requires ends.Ok() && Inv(ends, s)
    ensures var t := Apply(ends, s, ToA(e));
            Inv(ends, t) && t.sentB == s.sentB && |t.sentA| <= |s.sentA| + 1
  {
    hide Process1, Process2, Read3, Write1, Flow, Mirrored, React, Forwarded;
    if s.inA != [] {
      Shortened(s.inA, s.ba);
      if Stage2(ends, s) {
        DeliverMsg2(ends, s, e);
      } else {
        DataToA(ends, s, e);
      }
    }
  }

  lemma {:induction false} RunInv(ends: Ends, peersA: Peers, peersB: Peers, steps: seq<Step>)
    requires ends.Ok() && ends.atB !in peersB && |steps| < Session.MAX_NONCE
    ensures var s := Run(ends, peersA, peersB, steps);
            Inv(ends, s) && |s.sentA| <= |steps| && |s.sentB| <= |steps|
  {
    hide Inv, Apply, Start;
    if steps == [] {
      StartInvariant(ends, peersA, peersB);
    } else {
      RunInv(ends, peersA, peersB, steps[..|steps| - 1]);
      StepInv(ends, Run(ends, peersA, peersB, steps[..|steps| - 1]), steps[|steps| - 1]);
    }
  }

  lemma StartInvariant(ends: Ends, peersA: Peers, peersB: Peers)
    requires ends.Ok() && ends.atB !in peersB
    ensures var s := Start(ends, peersA, peersB);
            Inv(ends, s) && s.sentA == [] && s.sentB == []
  {
    StartInv(ends, peersA, peersB);
  }

  /** Nothing but heartbeats is in flight. */
  predicate Settled(s: Pair)
  {
    TowardA(s) == [] && TowardB(s) == []
  }

  /** Every interleaving of an undisturbed connection: no step of the handshake fails, and once nothing is in
      flight both peers are secure with mirrored keys and know each other's static key. */
  lemma HandshakeSucceeds(ends: Ends, peersA: Peers, peersB: Peers, steps: seq<Step>)
    requires ends.Ok() && ends.atB !in peersB && |steps| < Session.MAX_NONCE
    ensures var s := Run(ends, peersA, peersB, steps);
            var entryA, entryB := Lookup(s.peersA, ends.atA), Lookup(s.peersB, ends.atB);
            && entryA.Some? && (s.accepted ==> entryB.Some?)
            && (Settled(s) ==>
                  && entryA.value.Secure? && s.accepted && entryB.value.Secure?
                  && Mirrored(ends, entryA.value.session.keys, entryB.value.session.keys))
            && (s.accepted && entryB.value.Secure? ==> entryA.value.Secure?)
  {
    hide Process1, Process2, Read3, Write1, Flow, Mirrored, Run, TowardA, TowardB;
    RunInv(ends, peersA, peersB, steps);
  }

  /** The channel that results delivers exactly the texts that come before the first too large for a frame and are not
      sent as Ping or Pong: at any time each node has decrypted a prefix of them, in order and without loss or
      repetition; once settled it has all of them. */
  lemma ChannelDelivers(ends: Ends, peersA: Peers, peersB: Peers, steps: seq<Step>)
    requires ends.Ok() && ends.atB !in peersB && |steps| < Session.MAX_NONCE
    ensures var s := Run(ends, peersA, peersB, steps);
            && s.gotB <= Texts(Posted(s.sentA)) && s.gotA <= Texts(Posted(s.sentB))
            && (Settled(s) ==> s.gotB == Texts(Posted(s.sentA)) && s.gotA == Texts(Posted(s.sentB)))
  {
    hide Process1, Process2, Read3, Write1, Mirrored, Run, Carries, Kept, Texts, TowardA, TowardB, Posted, Flows;
    RunInv(ends, peersA, peersB, steps);
    var s := Run(ends, peersA, peersB, steps);
    TextsCount(Posted(s.sentA));
    TextsCount(Posted(s.sentB));
    NoTexts();
  }

  lemma NoTexts()
    ensures Texts(Posted([])) == []
  {
  }

  /** A text and all before it, heartbeats included, fit into a frame each. */
  ghost predicate FitsUpTo(sent: seq<Sent>, n: nat)
  {
    forall m: nat :: m <= n && m < |sent| ==> TextFits(sent[m])
  }

  /** So, once settled, a node has every text that was not sent as a heartbeat if and only if each of them and
      everything sent before it fits into a frame, that is, has at most 16 MiB less 16 bytes. */
  lemma AllArriveIff(ends: Ends, peersA: Peers, peersB: Peers, steps: seq<Step>)
    requires ends.Ok() && ends.atB !in peersB && |steps| < Session.MAX_NONCE
    requires Settled(Run(ends, peersA, peersB, steps))
    ensures var s := Run(ends, peersA, peersB, steps);
            && (s.gotB == Texts(s.sentA) <==> forall n :: n in Kept(s.sentA) ==> FitsUpTo(s.sentA, n))
            && (s.gotA == Texts(s.sentB) <==> forall n :: n in Kept(s.sentB) ==> FitsUpTo(s.sentB, n))
  {
    hide Run, Kept, Texts, Posted, FitsUpTo, TowardA, TowardB;
    ChannelDelivers(ends, peersA, peersB, steps);
    var s := Run(ends, peersA, peersB, steps);
    PostedAllIff(s.sentA);
    PostedAllIff(s.sentB);
  }

  lemma PostedAllIff(sent: seq<Sent>)
    ensures Texts(Posted(sent)) == Texts(sent) <==> forall n :: n in Kept(sent) ==> FitsUpTo(sent, n)
  {
    hide Posted, Texts, Kept;
    var posted := Posted(sent);
    var m := |posted|;
    PostedIs(sent);
    KeptPrefix(sent, m);
    assert posted == sent[..m];
    TextsCount(sent);
    TextsCount(posted);
    KeptIs(sent);
    KeptIs(posted);
    forall n: nat | n < |sent| ensures FitsUpTo(sent, n) <==> n < m {
      assert m < |sent| ==> !TextFits(sent[m]);
    }
    var kept := Kept(sent);
    if forall n :: n in kept ==> n < m {
      assert Kept(posted) == kept;
      forall k | 0 <= k < |kept| ensures Texts(posted)[k] == Texts(sent)[k] {
        assert posted[kept[k]] == sent[kept[k]];
      }
      assert Texts(posted) == Texts(sent);
    } else {
      var n :| n in kept && n >= m;
      assert n !in Kept(posted);
      assert |Kept(posted)| < |kept|;
    }
  }

  /** The numbers kept of a prefix are the first numbers kept. */
  lemma {:induction false} KeptPrefix(sent: seq<Sent>, m: nat)
    requires m <= |sent|
    ensures Kept(sent[..m]) <= Kept(sent)
    ensures (forall n :: n in Kept(sent) ==> n < m) ==> Kept(sent[..m]) == Kept(sent)
  {
    hide Kept;
    if m == |sent| {
      assert sent[..m] == sent;
    } else {
      var n := |sent| - 1;
      KeptPrefix(sent[..n], m);
      assert sent[..n][..m] == sent[..m];
      KeptSnoc(sent[..n], sent[n]);
      assert sent == sent[..n] + [sent[n]];
      if Heartbeat(sent[n].kind) {
        assert Kept(sent) == Kept(sent[..n]);
      } else {
        assert Kept(sent)[|Kept(sent[..n])|] == n;
        assert n in Kept(sent);
      }
    }
  }

  /** An oversize text ends a direction: whatever happens afterwards, nothing sent with it or after it arrives. */
  lemma OversizeEnds(
    ends: Ends, peersA: Peers, peersB: Peers, steps: seq<Step>, kind: MessageType, text: Bytes, more: seq<Step>)
    requires ends.Ok() && ends.atB !in peersB && |steps| + 1 + |more| < Session.MAX_NONCE
    requires !TextFits(Sent(kind, text))
    requires var s := Run(ends, peersA, peersB, steps); Apply(ends, s, SendA(kind, text)) != s
    ensures var s := Run(ends, peersA, peersB, steps);
            var t := Run(ends, peersA, peersB, steps + [SendA(kind, text)] + more);
            |t.sentA| > |s.sentA| && t.gotB <= Texts(Posted(s.sentA))
  {
    hide Run, Texts, Posted, Apply;
    var s := Run(ends, peersA, peersB, steps);
    var sending := steps + [SendA(kind, text)];
    RunSnoc(ends, peersA, peersB, steps, SendA(kind, text));
    SendLogs(ends, s, kind, text);
    LogGrows(ends, peersA, peersB, sending, more);
    ChannelDelivers(ends, peersA, peersB, sending + more);
    PostedFrozen(s.sentA, Sent(kind, text), Run(ends, peersA, peersB, sending + more).sentA);
  }

  lemma SendLogs(ends: Ends, s: Pair, kind: MessageType, text: Bytes)
    requires Apply(ends, s, SendA(kind, text)) != s
    ensures Apply(ends, s, SendA(kind, text)).sentA == s.sentA + [Sent(kind, text)]
  {
    hide SealedFrame;
  }

  lemma RunSnoc(ends: Ends, peersA: Peers, peersB: Peers, steps: seq<Step>, step: Step)
    ensures Run(ends, peersA, peersB, steps + [step]) == Apply(ends, Run(ends, peersA, peersB, steps), step)
  {
    assert (steps + [step])[..|steps|] == steps;
  }

  lemma {:induction false} LogGrows(ends: Ends, peersA: Peers, peersB: Peers, steps: seq<Step>, more: seq<Step>)
    ensures Run(ends, peersA, peersB, steps).sentA <= Run(ends, peersA, peersB, steps + more).sentA
  {
    hide Run, Apply;
    if more == [] {
      assert steps + more == steps;
    } else {
      var n := |more| - 1;
      LogGrows(ends, peersA, peersB, steps, more[..n]);
      RunSnoc(ends, peersA, peersB, steps + more[..n], more[n]);
      assert steps + more == steps + more[..n] + [more[n]];
      LogStep(ends, Run(ends, peersA, peersB, steps + more[..n]), more[n]);
    }
  }

  lemma LogStep(ends: Ends, s: Pair, step: Step)
    ensures s.sentA <= Apply(ends, s, step).sentA
  {
    hide React, SealedFrame, ReadFrame;
  }

  lemma {:induction false} PostedFrozen(sent: seq<Sent>, x: Sent, all: seq<Sent>)
    requires !TextFits(x) && sent + [x] <= all
    ensures Posted(all) == Posted(sent)
    decreases |all|
  {
    if |all| == |sent| + 1 {
      assert all == sent + [x];
      PostedSnoc(sent, x);
      assert Posted(sent + [x]) == Posted(sent);
    } else {
      var n := |all| - 1;
      assert all[..n] == all[..|sent| + 1] + all[|sent| + 1..n];
      PostedFrozen(sent, x, all[..n]);
      assert |Posted(all[..n])| <= |sent| < n;
    }
  }

  /** The greeting never arrives: each side's first text is its id, sent as a Ping, and no node's window is ever
      shown the number of a Ping or a Pong. So no node learns the other's peer id from it. */
  lemma GreetingNeverArrives(ends: Ends, peersA: Peers, peersB: Peers, steps: seq<Step>)
    requires ends.Ok() && ends.atB !in peersB && |steps| < Session.MAX_NONCE
    ensures var s := Run(ends, peersA, peersB, steps);
            && Unheard(ends.a, s.sentA, Lookup(s.peersB, ends.atB))
            && Unheard(ends.b, s.sentB, Lookup(s.peersA, ends.atA))
  {
    hide Process1, Process2, Read3, Write1, Mirrored, Run, Carries, Kept, Texts, TowardA, TowardB, Posted, Flows;
    RunInv(ends, peersA, peersB, steps);
    var s := Run(ends, peersA, peersB, steps);
    KeptIs(Posted(s.sentA));
    KeptIs(Posted(s.sentB));
  }

  /** The entry of a peer that greeted us has not been shown its greeting, nor any other heartbeat. */
  ghost predicate Unheard(peer: Self, sent: seq<Sent>, entry: Option<PeerState>)
  {
    && (sent != [] ==> Greets(peer, sent))
    && (entry.Some? && entry.value.Secure? ==>
          forall n :: n in entry.value.session.history ==> 0 < n < |sent| && !Heartbeat(sent[n].kind))
  }
}
