/** From wherever it is, the channel can be drained: reading, decoding and handling what is there, with no further
    sends, brings everything that was posted to the other end. A weight of what is in flight and of the handshake
    steps still to come falls with every step, so this also bounds how long it takes. */
module Draining {
  import opened Wire
  import opened Frames
  import Codec
  import Session
  import opened Noise
  import opened Dispatch
  import opened SecureChannel
  import opened ByteChannel

  // ---------- The weight of a state ----------

  /** A Ping costs the Pong that answers it as well. */
  function FrameLoad(f: Frame): (n: nat)
  {
    match f.header.msgType
    case Ping => 3
    case Pong => 1
    case _ => 2
  }

  function Load(wire: seq<Frame>): (n: nat)
  {
    if wire == [] then 0 else FrameLoad(wire[0]) + Load(wire[1..])
  }

  /** What the rest of the handshake will put on the channel. */
  function Pending(peers: Peers, addr: Addr): (n: nat)
  {
    match KindOf(peers, addr)
    case WaitMsg1 => 5
    case WaitMsg2 => 5
    case WaitMsg3 => 3
    case _ => 0
  }

  function Weight(ends: Ends, s: Pair): (n: nat)
  {
    (if s.accepted then 0 else 6) + Pending(s.peersA, ends.atA) + Pending(s.peersB, ends.atB)
    + Load(s.ab) + Load(s.ba) + |s.inA| + |s.inB|
  }

  predicate Stopped(wire: seq<Frame>)
  {
    wire == [] || !FrameFits(wire[0])
  }

  /** Nothing to accept, to handle or to read. */
  predicate Quiet(s: Pair)
  {
    s.accepted && s.inA == [] && s.inB == [] && Stopped(s.ab) && Stopped(s.ba)
  }

  /** Something there is to do; `e` is the ephemeral secret drawn if a handshake message is answered. */
  function Next(s: Pair, e: Bytes): (step: Step)
  {
    if !s.accepted then Accept
    else if s.inA != [] then ToA(e)
    else if s.inB != [] then ToB(e)
    else if !Stopped(s.ab) then ReadAtB
    else ReadAtA
  }

  lemma {:induction false} LoadConcat(a: seq<Frame>, b: seq<Frame>)
    ensures Load(a + b) == Load(a) + Load(b)
  {
    hide FrameLoad;
    if a == [] {
      assert a + b == b;
    } else {
      LoadConcat(a[1..], b);
      assert (a + b)[1..] == a[1..] + b;
    }
  }

  lemma LoadOne(f: Frame)
    ensures Load([]) == 0 && Load([f]) == FrameLoad(f)
  {
    assert [f][1..] == [];
  }

  /** Handling a frame costs no more than the handshake step it completes. */
  lemma ReactLoad(self: Self, peers: Peers, addr: Addr, f: Frame, e: Bytes)
    ensures var r := React(self, peers, Received(addr, f, e));
            Load(r.sent) + Pending(r.peers, addr) <= Pending(peers, addr)
  {
    hide Process1, Process2, Read3, Load, SealedFrame, Session.OpenPacket, IsEncrypted;
    LoadOne(f);
    if f.header.msgType == Frames.Handshake && addr in peers {
      HandshakeLoad(self, peers[addr], f.payload, e);
    }
  }

  function StateLoad(state: PeerState): (n: nat)
  {
    match state
    case InitiatorWaitMsg2(_) => 5
    case ResponderWaitMsg1(_) => 5
    case ResponderWaitMsg3(_) => 3
    case Secure(_) => 0
  }

  lemma HandshakeLoad(self: Self, state: PeerState, payload: Bytes, e: Bytes)
    ensures var r := OnHandshake(self, state, payload, e);
            Load(r.1) + (if r.0.Some? then StateLoad(r.0.value) else 0) <= StateLoad(state)
  {
    hide Process1, Process2, Read3, Load;
    var sent := OnHandshake(self, state, payload, e).1;
    LoadOne(HandshakeFrame(payload));
    if |sent| == 1 {
      LoadOne(sent[0]);
      assert sent == [sent[0]];
    } else if |sent| == 2 {
      LoadOne(sent[0]);
      LoadOne(sent[1]);
      LoadConcat([sent[0]], [sent[1]]);
      assert sent == [sent[0]] + [sent[1]];
    }
  }

  lemma ReadLoad(f: Frame)
    ensures Load(ReadFrame(f).reply) + |ReadFrame(f).queued| < FrameLoad(f)
  {
    var reply := ReadFrame(f).reply;
    LoadOne(f);
    if reply != [] {
      LoadOne(reply[0]);
      assert reply == [reply[0]];
    }
  }

  /** There is always something to do that lowers the weight, until all is quiet. It sends nothing new. */
  lemma Progress(ends: Ends, s: Pair, e: Bytes)
    requires !Quiet(s)
    ensures var t := Apply(ends, s, Next(s, e));
            Weight(ends, t) < Weight(ends, s) && s.sentA <= t.sentA && s.sentB <= t.sentB
  {
    hide React, Load, FrameLoad, ReadFrame, Pending;
    match Next(s, e)
    case Accept => AcceptLoad(ends.b, s.peersB, ends.atB);
    case ToA(_) =>
      ReactLoad(ends.a, s.peersA, ends.atA, s.inA[0], e);
      LoadConcat(s.ab, React(ends.a, s.peersA, Received(ends.atA, s.inA[0], e)).sent);
    case ToB(_) =>
      ReactLoad(ends.b, s.peersB, ends.atB, s.inB[0], e);
      LoadConcat(s.ba, React(ends.b, s.peersB, Received(ends.atB, s.inB[0], e)).sent);
    case ReadAtB =>
      LoadCons(s.ab);
      ReadLoad(s.ab[0]);
      LoadConcat(s.ba, ReadFrame(s.ab[0]).reply);
    case ReadAtA =>
      LoadCons(s.ba);
      ReadLoad(s.ba[0]);
      LoadConcat(s.ab, ReadFrame(s.ba[0]).reply);
  }

  lemma LoadCons(wire: seq<Frame>)
    requires wire != []
    ensures Load(wire) == FrameLoad(wire[0]) + Load(wire[1..])
  {
  }

  lemma AcceptLoad(self: Self, peers: Peers, addr: Addr)
    ensures Pending(React(self, peers, Connected(addr)).peers, addr) <= Pending(peers, addr) + 5
  {
  }

  // ---------- The same with bytes ----------

  /** The byte steps that do what the frame step does: a read is a write, all bytes carried over, and a decode. */
  function Mimic(crc: Codec.Crc, w: Wires, step: Step): (steps: seq<ByteStep>)
    ensures |steps| <= 3
  {
    match step
    case ReadAtB => [WriteAtA, CarryToB(|Write(crc, w.ab).bytes|), DecodeAtB]
    case ReadAtA => [WriteAtB, CarryToA(|Write(crc, w.ba).bytes|), DecodeAtA]
    case _ => [Node(step)]
  }

  /** After a write there are bytes whenever the next frame can be read. */
  lemma SomethingWritten(crc: Codec.Crc, l: Line)
    requires LineOk(crc, l) && !Stopped(InFlight(crc, l))
    ensures Write(crc, l).buffer + Write(crc, l).bytes != []
  {
    hide Codec.Parse, Codec.Consistent, Codec.HeaderWire, Codec.ComputeChecksum;
    if l.buffer + l.bytes == [] {
      Codec.ParseEmpty(crc);
      assert InFlight(crc, l) == l.out;
      EncodesIff(crc, l.out[0]);
    }
  }

  /** With all bytes at hand the decoder yields a frame. */
  lemma DecoderYields(crc: Codec.Crc, l: Line)
    requires LineOk(crc, l) && l.bytes == [] && l.buffer != []
    ensures Codec.Decode(crc, l.state, l.buffer).outcome.Got?
  {
    hide Codec.Parse, Codec.Consistent, Codec.Decode, Codec.FirstFrame, AllNew;
    assert l.buffer + l.bytes == l.buffer;
    Codec.DecodeIsFirstFrame(crc, l.state, l.buffer);
    Codec.ParseFirst(crc, l.buffer);
  }

  lemma ReadyToDecode(crc: Codec.Crc, l: Line)
    requires LineOk(crc, l) && !Stopped(InFlight(crc, l))
    ensures var r := Carry(Write(crc, l), |Write(crc, l).bytes|);
            && LineOk(crc, r) && InFlight(crc, r) == InFlight(crc, l)
            && Codec.Decode(crc, r.state, r.buffer).outcome.Got?
  {
    hide LineOk, InFlight, Codec.Decode, Codec.Encode;
    WriteOk(crc, l);
    SomethingWritten(crc, l);
    var m := Write(crc, l);
    CarryOk(crc, m, |m.bytes|);
    assert m.buffer + m.bytes[..|m.bytes|] == m.buffer + m.bytes;
    DecoderYields(crc, Carry(m, |m.bytes|));
  }

  function ByteApplyAll(crc: Codec.Crc, ends: Ends, w: Wires, steps: seq<ByteStep>): (v: Wires)
  {
    if steps == [] then w
    else ByteApply(crc, ends, ByteApplyAll(crc, ends, w, steps[..|steps| - 1]), steps[|steps| - 1])
  }

  lemma MimicReads(crc: Codec.Crc, ends: Ends, w: Wires, step: Step)
    requires LinesOk(crc, w) && (step.ReadAtA? || step.ReadAtB?)
    requires !Stopped(InFlight(crc, if step.ReadAtA? then w.ba else w.ab))
    ensures Abs(crc, ByteApplyAll(crc, ends, w, Mimic(crc, w, step))) == Apply(ends, Abs(crc, w), step)
  {
    hide LineOk, InFlight, Apply, Take, Write, Carry, PlainAll, Codec.Decode;
    var steps := Mimic(crc, w, step);
    ReadyToDecode(crc, if step.ReadAtA? then w.ba else w.ab);
    ThreeSteps(crc, ends, w, steps);
    var u := ByteApply(crc, ends, ByteApply(crc, ends, w, steps[0]), steps[1]);
    assert Abs(crc, u) == Abs(crc, w) && LinesOk(crc, u);
    DecodeSimulates(crc, ends, u, steps[2]);
  }

  lemma ThreeSteps(crc: Codec.Crc, ends: Ends, w: Wires, steps: seq<ByteStep>)
    requires |steps| == 3
    ensures ByteApplyAll(crc, ends, w, steps)
         == ByteApply(crc, ends, ByteApply(crc, ends, ByteApply(crc, ends, w, steps[0]), steps[1]), steps[2])
  {
    hide ByteApply;
    assert steps[..2][..1] == steps[..1] && steps[..2][1] == steps[1];
    assert steps[..1][..0] == [] && steps[..1][0] == steps[0];
    assert ByteApplyAll(crc, ends, w, steps[..1]) == ByteApply(crc, ends, w, steps[0]);
  }

  lemma OneStep(crc: Codec.Crc, ends: Ends, w: Wires, step: ByteStep)
    ensures ByteApplyAll(crc, ends, w, [step]) == ByteApply(crc, ends, w, step)
  {
    hide ByteApply;
    assert [step][..0] == [];
  }

  lemma MimicIsNext(crc: Codec.Crc, ends: Ends, w: Wires, e: Bytes)
    requires ends.Ok() && LinesOk(crc, w) && !Quiet(Abs(crc, w))
    ensures var step := Next(Abs(crc, w), e);
            Abs(crc, ByteApplyAll(crc, ends, w, Mimic(crc, w, step))) == Apply(ends, Abs(crc, w), step)
  {
    hide LineOk, InFlight, Apply, NodeApply, PlainAll, ByteApplyAll, Stopped;
    var step := Next(Abs(crc, w), e);
    if step.ReadAtA? || step.ReadAtB? {
      MimicReads(crc, ends, w, step);
    } else {
      OneStep(crc, ends, w, Node(step));
      NodeSimulates(crc, ends, w, step);
    }
  }

  lemma {:induction false} RunAll(
    crc: Codec.Crc, ends: Ends, peersA: Peers, peersB: Peers, steps: seq<ByteStep>, more: seq<ByteStep>)
    ensures ByteRun(crc, ends, peersA, peersB, steps + more)
         == ByteApplyAll(crc, ends, ByteRun(crc, ends, peersA, peersB, steps), more)
  {
    hide ByteApply;
    if more == [] {
      assert steps + more == steps;
    } else {
      var n := |more| - 1;
      RunAll(crc, ends, peersA, peersB, steps, more[..n]);
      assert (steps + more)[..|steps| + n] == steps + more[..n];
    }
  }

  // ---------- Drained ----------

  /** A line with nothing to read holds no bytes. */
  lemma StoppedIsIdle(crc: Codec.Crc, l: Line)
    requires LineOk(crc, l) && Stopped(InFlight(crc, l))
    ensures Idle(crc, l)
  {
    hide Codec.Parse, Codec.Consistent, Codec.Encode, Codec.FirstFrame;
    var stream := l.buffer + l.bytes;
    var parsed := Codec.Parse(crc, stream);
    Codec.ParsedIsEncoded(crc, stream);
    HeadFits(crc, l);
    NothingEncoded(crc);
    assert stream == [];
    assert |l.buffer| + |l.bytes| == |stream|;
    assert InFlight(crc, l) == l.out;
    if l.out != [] {
      EncodesIff(crc, l.out[0]);
    }
  }

  /** What is already in bytes has been through the encoder. */
  lemma HeadFits(crc: Codec.Crc, l: Line)
    ensures Codec.Parse(crc, l.buffer + l.bytes).frames != [] ==> !Stopped(InFlight(crc, l))
  {
    hide Codec.Parse, Codec.FirstFrame;
    var stream := l.buffer + l.bytes;
    Codec.ParseFirst(crc, stream);
    if Codec.FirstFrame(crc, stream).First? {
      FirstFits(crc, stream);
      assert InFlight(crc, l)[0] == Plain(Codec.Parse(crc, stream).frames[0]);
    }
  }

  lemma NothingEncoded(crc: Codec.Crc)
    ensures Codec.EncodeAll(crc, []) == []
  {
  }

  lemma QuietIsDrained(crc: Codec.Crc, w: Wires)
    requires LinesOk(crc, w) && Quiet(Abs(crc, w))
    ensures Drained(crc, w)
  {
    hide LineOk, InFlight, Stopped, Idle;
    StoppedIsIdle(crc, w.ab);
    StoppedIsIdle(crc, w.ba);
  }

  predicate Sending(step: ByteStep)
  {
    step.Node? && (step.step.SendA? || step.step.SendB?)
  }

  /** From every reachable state, reading and handling alone lead to a drained one, in at most three steps for each
      unit of weight. */
  lemma {:induction false} CanDrain(
    crc: Codec.Crc, ends: Ends, peersA: Peers, peersB: Peers, steps: seq<ByteStep>, e: Bytes)
    returns (more: seq<ByteStep>)
    requires ends.Ok()
    ensures var w, v := ByteRun(crc, ends, peersA, peersB, steps), ByteRun(crc, ends, peersA, peersB, steps + more);
            && Drained(crc, v) && w.sentA <= v.sentA && w.sentB <= v.sentB
            && |more| <= 3 * Weight(ends, Abs(crc, w))
    ensures forall k :: 0 <= k < |more| ==> !Sending(more[k])
    decreases Weight(ends, Abs(crc, ByteRun(crc, ends, peersA, peersB, steps)))
  {
    hide ByteRun, LinesOk, Weight, Quiet, Next, Drained, Apply, ByteApplyAll, InFlight, PlainAll;
    var w := ByteRun(crc, ends, peersA, peersB, steps);
    var _ := RunSimulates(crc, ends, peersA, peersB, steps);
    if Quiet(Abs(crc, w)) {
      QuietIsDrained(crc, w);
      more := [];
      assert steps + more == steps;
    } else {
      var first := Mimic(crc, w, Next(Abs(crc, w), e));
      NextSendsNothing(Abs(crc, w), e);
      MimicIsNext(crc, ends, w, e);
      Progress(ends, Abs(crc, w), e);
      RunAll(crc, ends, peersA, peersB, steps, first);
      var rest := CanDrain(crc, ends, peersA, peersB, steps + first, e);
      more := first + rest;
      assert steps + first + rest == steps + more;
    }
  }

  lemma NextSendsNothing(s: Pair, e: Bytes)
    ensures !Next(s, e).SendA? && !Next(s, e).SendB?
  {
  }

  /** So whatever has been sent so far, and whatever the interleaving, the connection can be brought to the end in
      which both sides are secure and each has all the texts posted by the other, heartbeats excepted. */
  lemma EverythingCanArrive(
    crc: Codec.Crc, ends: Ends, peersA: Peers, peersB: Peers, steps: seq<ByteStep>, e: Bytes)
    returns (more: seq<ByteStep>)
    requires ends.Ok() && ends.atB !in peersB
    requires |steps| + 3 * Weight(ends, Abs(crc, ByteRun(crc, ends, peersA, peersB, steps))) < Session.MAX_NONCE
    ensures forall k :: 0 <= k < |more| ==> !Sending(more[k])
    ensures var w, v := ByteRun(crc, ends, peersA, peersB, steps), ByteRun(crc, ends, peersA, peersB, steps + more);
            && w.sentA <= v.sentA && w.sentB <= v.sentB
            && v.gotB == Texts(Posted(v.sentA)) && v.gotA == Texts(Posted(v.sentB))
            && KindOf(v.peersA, ends.atA) == IsSecure && KindOf(v.peersB, ends.atB) == IsSecure
  {
    hide ByteRun, Weight, Drained, Texts, Posted, Mirrored, Abs;
    more := CanDrain(crc, ends, peersA, peersB, steps, e);
    BytesDeliver(crc, ends, peersA, peersB, steps + more);
  }
}
