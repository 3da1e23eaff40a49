/** The secure channel down to its bytes.

  Each direction is a writer's queue of frames, the bytes in flight, and the peer's resumable decoder. The writer
  encodes one frame at a time and ends at one the encoder refuses; the network hands over the bytes in pieces of any
  length; the decoder is called at any time. Every run at this level is a run of `SecureChannel`, so nothing depends
  on how the stream is cut.
 */
module ByteChannel {
  import opened Bits
  import opened Wire
  import opened Crypto
  import opened Frames
  import Codec
  import Session
  import opened Noise
  import opened Dispatch
  import opened SecureChannel

  /** One direction; `broken` records that its reader stopped at a decoding error. */
  datatype Line = Line(out: seq<Frame>, bytes: Bytes, state: Codec.DecodeState, buffer: Bytes, broken: bool)

  datatype Wires = Wires(
    peersA: Peers, peersB: Peers, accepted: bool, ab: Line, ba: Line, inA: seq<Frame>, inB: seq<Frame>,
    sentA: seq<Sent>, sentB: seq<Sent>, gotA: seq<Bytes>, gotB: seq<Bytes>)

  datatype ByteStep =
    | Node(step: Step)
    | WriteAtA
    | WriteAtB
    | CarryToA(n: nat)
    | CarryToB(n: nat)
    | DecodeAtA
    | DecodeAtB

  // ---------- Steps ----------

  function NewLine(frames: seq<Frame>): (l: Line)
  {
    Line(frames, [], Codec.AtHeader, [], false)
  }

  function ByteStart(ends: Ends, peersA: Peers, peersB: Peers): (w: Wires)
  {
    var s := Start(ends, peersA, peersB);
    Wires(s.peersA, s.peersB, s.accepted, NewLine(s.ab), NewLine(s.ba), [], [], [], [], [], [])
  }

  function Queue(l: Line, frames: seq<Frame>): (r: Line)
  {
    l.(out := l.out + frames)
  }

  /** The writer sends the next frame, or has ended at it. */
  function Write(crc: Codec.Crc, l: Line): (r: Line)
  {
    if l.out == [] || Codec.Encode(crc, l.out[0]).Failure? then l
    else l.(out := l.out[1..], bytes := l.bytes + Codec.Encode(crc, l.out[0]).value)
  }

  /** The next `n` bytes arrive. */
  function Carry(l: Line, n: nat): (r: Line)
  {
    if n > |l.bytes| then l else l.(bytes := l.bytes[n..], buffer := l.buffer + l.bytes[..n])
  }

  /** What a call of the decoder leaves and what the reader makes of the frame, if there is one. */
  datatype Taken = Taken(line: Line, passed: Passed)

  function Take(crc: Codec.Crc, l: Line): (r: Taken)
  {
    var d := Codec.Decode(crc, l.state, l.buffer);
    if l.broken then Taken(l, Passed([], []))
    else
      match d.outcome
      case NeedMore => Taken(l.(state := d.state, buffer := d.buffer), Passed([], []))
      case Failed(_) => Taken(l.(broken := true), Passed([], []))
      case Got(f) => Taken(l.(state := d.state, buffer := d.buffer), ReadFrame(f))
  }

  function ByteApply(crc: Codec.Crc, ends: Ends, w: Wires, step: ByteStep): (v: Wires)
  {
    match step
    case WriteAtA => w.(ab := Write(crc, w.ab))
    case WriteAtB => w.(ba := Write(crc, w.ba))
    case CarryToB(n) => w.(ab := Carry(w.ab, n))
    case CarryToA(n) => w.(ba := Carry(w.ba, n))
    case DecodeAtB =>
      var r := Take(crc, w.ab);
      w.(ab := r.line, inB := w.inB + r.passed.queued, ba := Queue(w.ba, r.passed.reply))
    case DecodeAtA =>
      var r := Take(crc, w.ba);
      w.(ba := r.line, inA := w.inA + r.passed.queued, ab := Queue(w.ab, r.passed.reply))
    case Node(s) => NodeApply(ends, w, s)
  }

  function NodeApply(ends: Ends, w: Wires, step: Step): (v: Wires)
  {
    match step
    case Accept =>
      if w.accepted then w
      else w.(accepted := true, peersB := React(ends.b, w.peersB, Connected(ends.atB)).peers)
    case LateConnected => w.(peersA := React(ends.a, w.peersA, Connected(ends.atA)).peers)
    case ToB(e) =>
      if !w.accepted || w.inB == [] then w
      else
        var r := React(ends.b, w.peersB, Received(ends.atB, w.inB[0], e));
        w.(peersB := r.peers, inB := w.inB[1..], ba := Queue(w.ba, r.sent), gotB := Append(w.gotB, r.data),
           sentB := Greeted(ends.b, w.peersB, r.peers, ends.atB, w.sentB))
    case ToA(e) =>
      if w.inA == [] then w
      else
        var r := React(ends.a, w.peersA, Received(ends.atA, w.inA[0], e));
        w.(peersA := r.peers, inA := w.inA[1..], ab := Queue(w.ab, r.sent), gotA := Append(w.gotA, r.data),
           sentA := Greeted(ends.a, w.peersA, r.peers, ends.atA, w.sentA))
    case SendA(kind, text) =>
      var r := SendText(ends.a, w.peersA, ends.atA, kind, text);
      if r.sent == [] then w
      else w.(peersA := r.peers, ab := Queue(w.ab, r.sent), sentA := w.sentA + [Sent(kind, text)])
    case SendB(kind, text) =>
      var r := SendText(ends.b, w.peersB, ends.atB, kind, text);
      if r.sent == [] then w
      else w.(peersB := r.peers, ba := Queue(w.ba, r.sent), sentB := w.sentB + [Sent(kind, text)])
    case OtherA(event) =>
      if event.addr == ends.atA then w else w.(peersA := React(ends.a, w.peersA, event).peers)
    case OtherB(event) =>
      if event.addr == ends.atB then w else w.(peersB := React(ends.b, w.peersB, event).peers)
    case ReadAtA => w
    case ReadAtB => w
  }

  function ByteRun(crc: Codec.Crc, ends: Ends, peersA: Peers, peersB: Peers, steps: seq<ByteStep>): (w: Wires)
  {
    if steps == [] then ByteStart(ends, peersA, peersB)
    else ByteApply(crc, ends, ByteRun(crc, ends, peersA, peersB, steps[..|steps| - 1]), steps[|steps| - 1])
  }

  // ---------- One line ----------

  /** A frame without its checksum, as `Frame::new` made it. */
  function Plain(f: Frame): (r: Frame)
  {
    f.(header := f.header.(checksum := 0))
  }

  function PlainAll(frames: seq<Frame>): (r: seq<Frame>)
    ensures |r| == |frames|
  {
    seq(|frames|, i requires 0 <= i < |frames| => Plain(frames[i]))
  }

  /** The frames of a line that its reader has not taken yet. */
  function InFlight(crc: Codec.Crc, l: Line): (r: seq<Frame>)
  {
    PlainAll(Codec.Parse(crc, l.buffer + l.bytes).frames) + l.out
  }

  /** Made by `Frame::new`, with a payload whose length fits into 32 bits. */
  predicate New(f: Frame)
  {
    && |f.payload| < U32_SIZE
    && f == NewFrame(f.header.msgType, f.header.flags, f.header.requestId, f.payload)
  }

  predicate AllNew(frames: seq<Frame>)
  {
    forall k :: 0 <= k < |frames| ==> New(frames[k])
  }

  /** The bytes between the two ends are whole frames, and the decoder is in step with them. */
  ghost predicate LineOk(crc: Codec.Crc, l: Line)
  {
    && !l.broken && AllNew(l.out) && Codec.Consistent(l.state, l.buffer)
    && Codec.Parse(crc, l.buffer + l.bytes).tail == Codec.Incomplete([])
  }

  lemma NewLineOk(crc: Codec.Crc, frames: seq<Frame>)
    requires AllNew(frames)
    ensures LineOk(crc, NewLine(frames)) && InFlight(crc, NewLine(frames)) == frames
  {
    hide Codec.Parse, Codec.Consistent, New;
    Codec.ParseEmpty(crc);
    Codec.StartsConsistent();
    assert [] + frames == frames;
    var none: Bytes := [];
    assert none + none == none;
  }

  lemma QueueOk(crc: Codec.Crc, l: Line, frames: seq<Frame>)
    requires LineOk(crc, l) && AllNew(frames)
    ensures LineOk(crc, Queue(l, frames)) && InFlight(crc, Queue(l, frames)) == InFlight(crc, l) + frames
  {
    hide Codec.Parse, Codec.Consistent, New;
  }

  lemma CarryOk(crc: Codec.Crc, l: Line, n: nat)
    requires LineOk(crc, l)
    ensures LineOk(crc, Carry(l, n)) && InFlight(crc, Carry(l, n)) == InFlight(crc, l)
  {
    hide Codec.Parse, Codec.Consistent, AllNew;
    if n <= |l.bytes| {
      Codec.ConsistentAppend(l.state, l.buffer, l.bytes[..n]);
      assert l.buffer + l.bytes[..n] + l.bytes[n..] == l.buffer + l.bytes;
    }
  }

  lemma EncodesIff(crc: Codec.Crc, f: Frame)
    requires New(f)
    ensures Codec.Encode(crc, f).Success? <==> FrameFits(f)
    ensures FrameFits(f) ==> Codec.Sendable(f)
  {
    hide Codec.HeaderWire, Codec.ComputeChecksum;
  }

  /** One frame's bytes parse to that frame, stamped. */
  lemma OneEncoded(crc: Codec.Crc, f: Frame)
    requires Codec.Sendable(f)
    ensures Codec.Encode(crc, f).Success?
    ensures Codec.Parse(crc, Codec.Encode(crc, f).value) == Codec.Parsed([Codec.Stamped(crc, f)], Codec.Incomplete([]))
  {
    hide Codec.FirstFrame, Codec.Encode, Codec.Sendable, Codec.Stamped;
    Codec.FirstFrameOfEncoded(crc, f, []);
    var bytes := Codec.Encode(crc, f).value;
    assert bytes + [] == bytes;
    Codec.ParseEmpty(crc);
  }

  lemma WriteOk(crc: Codec.Crc, l: Line)
    requires LineOk(crc, l)
    ensures LineOk(crc, Write(crc, l)) && InFlight(crc, Write(crc, l)) == InFlight(crc, l)
  {
    hide Codec.Parse, Codec.Consistent, Codec.Encode, Codec.Stamped;
    if l.out != [] && Codec.Encode(crc, l.out[0]).Success? {
      var f, stream := l.out[0], l.buffer + l.bytes;
      var bytes := Codec.Encode(crc, f).value;
      EncodesIff(crc, f);
      OneEncoded(crc, f);
      Codec.ParseAppend(crc, stream, bytes);
      assert [] + bytes == bytes && stream + bytes == l.buffer + (l.bytes + bytes);
      var before := Codec.Parse(crc, stream).frames;
      assert PlainAll(before + [Codec.Stamped(crc, f)]) == PlainAll(before) + [f] by {
        PlainStamped(crc, f);
      }
      assert l.out == [f] + l.out[1..];
    }
  }

  lemma PlainStamped(crc: Codec.Crc, f: Frame)
    requires New(f)
    ensures Plain(Codec.Stamped(crc, f)) == f
  {
  }

  /** The decoder never fails; it takes the next frame or waits. */
  lemma TakeOk(crc: Codec.Crc, l: Line)
    requires LineOk(crc, l)
    ensures var d, r := Codec.Decode(crc, l.state, l.buffer), Take(crc, l);
            && LineOk(crc, r.line)
            && match d.outcome
               case Failed(_) => false
               case NeedMore => InFlight(crc, r.line) == InFlight(crc, l) && r.passed == Passed([], [])
               case Got(f) =>
                 && r.passed == ReadFrame(f) && FrameFits(f)
                 && InFlight(crc, l) == [Plain(f)] + InFlight(crc, r.line)
  {
    hide Codec.FirstFrame, Codec.Decode, Codec.Consistent, AllNew, ReadFrame;
    var stream := l.buffer + l.bytes;
    Codec.DecodeIsFirstFrame(crc, l.state, l.buffer);
    Codec.FirstFrameStable(crc, l.buffer, l.bytes);
    var first := Codec.FirstFrame(crc, l.buffer);
    if first.First? {
      assert stream[first.size..] == l.buffer[first.size..] + l.bytes;
      FirstFits(crc, l.buffer);
      var rest := Codec.Parse(crc, stream[first.size..]).frames;
      assert PlainAll([first.frame] + rest) == [Plain(first.frame)] + PlainAll(rest);
    }
  }

  lemma FirstFits(crc: Codec.Crc, stream: Bytes)
    requires Codec.FirstFrame(crc, stream).First?
    ensures FrameFits(Codec.FirstFrame(crc, stream).frame)
  {
    hide Codec.ComputeChecksum;
    Codec.HeaderOfWire(stream[..HEADER_SIZE]);
  }

  // ---------- The frames a node sends ----------

  /** A node's reaction does not depend on a checksum. */
  lemma ReactPlain(self: Self, peers: Peers, addr: Addr, f: Frame, e: Bytes)
    ensures React(self, peers, Received(addr, f, e)) == React(self, peers, Received(addr, Plain(f), e))
  {
    hide OnHandshake, Replay.Fresh, Session.OpenPacket;
  }

  lemma ReadPlain(f: Frame)
    ensures PlainAll(ReadFrame(f).queued) == ReadFrame(Plain(f)).queued
    ensures ReadFrame(f).reply == ReadFrame(Plain(f)).reply && AllNew(ReadFrame(f).reply)
    ensures FrameFits(f) <==> FrameFits(Plain(f))
  {
  }

  lemma SealedNew(suite: Suite, session: SessionState, kind: MessageType, text: Bytes)
    requires suite.Lawful() && |text| + TAG_SIZE < U32_SIZE
    ensures var f := SealedFrame(suite, session, kind, text); f.Some? ==> New(f.value)
  {
  }

  lemma HandshakeNew(payload: Bytes)
    requires |payload| < U32_SIZE
    ensures New(HandshakeFrame(payload))
  {
  }

  /** Whatever a node sends in reaction to a frame is made by `Frame::new` and not long. */
  lemma ReactionNew(self: Self, peers: Peers, addr: Addr, f: Frame, e: Bytes)
    requires self.suite.Lawful() && |self.id| == ID_SIZE
    ensures AllNew(React(self, peers, Received(addr, f, e)).sent)
  {
    hide OnFrame, Process1, Process2, Read3, SealedFrame, HandshakeFrame, New;
    if f.header.msgType == Frames.Handshake && addr in peers {
      match peers[addr]
      case InitiatorWaitMsg2(hs) =>
        var step := Process2(self.suite, hs, self.secret, f.payload);
        if step.result.Success? {
          Msg3Fits(self.suite, hs, self.secret, f.payload);
          HandshakeNew(step.result.value);
        }
        if step.hs.phase.Complete? {
          SealedNew(self.suite, SessionState(step.hs.phase.keys, 0, []), Ping, self.id);
        }
      case ResponderWaitMsg1(hs) =>
        var step := Process1(self.suite, hs, self.secret, e, f.payload);
        if step.result.Success? {
          Msg2Size(self.suite, hs, self.secret, e, f.payload);
          HandshakeNew(step.result.value);
        }
      case ResponderWaitMsg3(hs) =>
        var step := Read3(self.suite, hs, f.payload);
        if step.hs.phase.Complete? {
          SealedNew(self.suite, SessionState(step.hs.phase.keys, 0, []), Ping, self.id);
        }
      case Secure(_) =>
    } else {
      NothingSentBack(self, peers, addr, f);
    }
  }

  lemma NothingSentBack(self: Self, peers: Peers, addr: Addr, f: Frame)
    ensures OnFrame(self, peers, addr, f).sent == []
  {
  }

  lemma Msg2Size(suite: Suite, hs: Noise.Handshake, secret: Bytes, e: Bytes, msg1: Bytes)
    requires suite.Lawful() && Process1(suite, hs, secret, e, msg1).result.Success?
    ensures |Process1(suite, hs, secret, e, msg1).result.value| == 32 + 48 + 16
  {
    hide Write2;
    var read := Read1(suite, hs, msg1);
    Write2Shape(suite, read.hs, secret, e, msg1);
  }

  // ---------- Simulation ----------

  /** The same state with the bytes read as frames. */
  function Abs(crc: Codec.Crc, w: Wires): (s: Pair)
  {
    Pair(w.peersA, w.peersB, w.accepted, InFlight(crc, w.ab), InFlight(crc, w.ba), PlainAll(w.inA), PlainAll(w.inB),
         w.sentA, w.sentB, w.gotA, w.gotB)
  }

  ghost predicate LinesOk(crc: Codec.Crc, w: Wires)
  {
    LineOk(crc, w.ab) && LineOk(crc, w.ba)
  }

  lemma PlainSplit(frames: seq<Frame>)
    requires frames != []
    ensures PlainAll(frames)[0] == Plain(frames[0]) && PlainAll(frames)[1..] == PlainAll(frames[1..])
  {
  }

  lemma PlainConcat(a: seq<Frame>, b: seq<Frame>)
    ensures PlainAll(a + b) == PlainAll(a) + PlainAll(b)
  {
  }

  lemma NodeSimulates(crc: Codec.Crc, ends: Ends, w: Wires, step: Step)
    requires ends.Ok() && LinesOk(crc, w) && !step.ReadAtA? && !step.ReadAtB?
    ensures LinesOk(crc, NodeApply(ends, w, step))
    ensures Abs(crc, NodeApply(ends, w, step)) == Apply(ends, Abs(crc, w), step)
  {
    hide LineOk, InFlight, React, PlainAll, SealedFrame, AllNew;
    match step
    case ToB(e) =>
      if w.accepted && w.inB != [] {
        PlainSplit(w.inB);
        ReactPlain(ends.b, w.peersB, ends.atB, w.inB[0], e);
        ReactionNew(ends.b, w.peersB, ends.atB, w.inB[0], e);
        QueueOk(crc, w.ba, React(ends.b, w.peersB, Received(ends.atB, w.inB[0], e)).sent);
      }
    case ToA(e) =>
      if w.inA != [] {
        PlainSplit(w.inA);
        ReactPlain(ends.a, w.peersA, ends.atA, w.inA[0], e);
        ReactionNew(ends.a, w.peersA, ends.atA, w.inA[0], e);
        QueueOk(crc, w.ab, React(ends.a, w.peersA, Received(ends.atA, w.inA[0], e)).sent);
      }
    case SendA(kind, text) =>
      SendNew(ends.a, w.peersA, ends.atA, kind, text);
      QueueOk(crc, w.ab, SendText(ends.a, w.peersA, ends.atA, kind, text).sent);
    case SendB(kind, text) =>
      SendNew(ends.b, w.peersB, ends.atB, kind, text);
      QueueOk(crc, w.ba, SendText(ends.b, w.peersB, ends.atB, kind, text).sent);
    case _ =>
  }

  lemma SendNew(self: Self, peers: Peers, addr: Addr, kind: MessageType, text: Bytes)
    requires self.suite.Lawful()
    ensures AllNew(SendText(self, peers, addr, kind, text).sent)
  {
    hide SealedFrame, New;
    if addr in peers && peers[addr].Secure? && Sends(kind, text) {
      SealedNew(self.suite, peers[addr].session, kind, text);
    }
  }

  /** A call of the decoder is a read of the frame channel, or nothing. */
  lemma DecodeSimulates(crc: Codec.Crc, ends: Ends, w: Wires, step: ByteStep)
    requires LinesOk(crc, w) && (step.DecodeAtA? || step.DecodeAtB?)
    ensures var v := ByteApply(crc, ends, w, step);
            && LinesOk(crc, v)
            && (|| Abs(crc, v) == Abs(crc, w)
                || Abs(crc, v) == Apply(ends, Abs(crc, w), if step.DecodeAtA? then ReadAtA else ReadAtB))
    ensures var line := if step.DecodeAtA? then w.ba else w.ab;
            Codec.Decode(crc, line.state, line.buffer).outcome.Got? ==>
              Abs(crc, ByteApply(crc, ends, w, step))
              == Apply(ends, Abs(crc, w), if step.DecodeAtA? then ReadAtA else ReadAtB)
  {
    hide LineOk, InFlight, React, PlainAll, AllNew, Codec.Decode, ReadFrame, Plain;
    var line, other, inbox := if step.DecodeAtA? then w.ba else w.ab, if step.DecodeAtA? then w.ab else w.ba,
                              if step.DecodeAtA? then w.inA else w.inB;
    var d, r := Codec.Decode(crc, line.state, line.buffer), Take(crc, line);
    TakeOk(crc, line);
    if d.outcome.Got? {
      ReadPlain(d.outcome.frame);
      QueueOk(crc, other, r.passed.reply);
      PlainConcat(inbox, r.passed.queued);
      assert ([Plain(d.outcome.frame)] + InFlight(crc, r.line))[1..] == InFlight(crc, r.line);
    } else {
      EmptyNew();
      QueueOk(crc, other, []);
      assert inbox + [] == inbox && InFlight(crc, other) + [] == InFlight(crc, other);
    }
  }

  lemma EmptyNew()
    ensures AllNew([])
  {
  }

  /** Every step of the bytes is a step of the frames, or none. */
  lemma StepSimulates(crc: Codec.Crc, ends: Ends, w: Wires, step: ByteStep) returns (frame: seq<Step>)
    requires ends.Ok() && LinesOk(crc, w)
    ensures LinesOk(crc, ByteApply(crc, ends, w, step)) && |frame| <= 1
    ensures Abs(crc, ByteApply(crc, ends, w, step))
         == if frame == [] then Abs(crc, w) else Apply(ends, Abs(crc, w), frame[0])
  {
    hide LineOk, InFlight, Apply, NodeApply, Take, PlainAll;
    frame := [];
    match step
    case WriteAtA => WriteOk(crc, w.ab);
    case WriteAtB => WriteOk(crc, w.ba);
    case CarryToA(n) => CarryOk(crc, w.ba, n);
    case CarryToB(n) => CarryOk(crc, w.ab, n);
    case Node(s) =>
      if !s.ReadAtA? && !s.ReadAtB? {
        NodeSimulates(crc, ends, w, s);
        frame := [s];
      } else {
        ReadIsNoNodeStep(ends, w, s);
      }
    case DecodeAtA =>
      DecodeSimulates(crc, ends, w, step);
      frame := if Abs(crc, ByteApply(crc, ends, w, step)) == Abs(crc, w) then [] else [ReadAtA];
    case DecodeAtB =>
      DecodeSimulates(crc, ends, w, step);
      frame := if Abs(crc, ByteApply(crc, ends, w, step)) == Abs(crc, w) then [] else [ReadAtB];
  }

  lemma ReadIsNoNodeStep(ends: Ends, w: Wires, s: Step)
    requires s.ReadAtA? || s.ReadAtB?
    ensures NodeApply(ends, w, s) == w
  {
  }

  lemma StartSimulates(crc: Codec.Crc, ends: Ends, peersA: Peers, peersB: Peers)
    requires ends.Ok()
    ensures LinesOk(crc, ByteStart(ends, peersA, peersB))
    ensures Abs(crc, ByteStart(ends, peersA, peersB)) == Start(ends, peersA, peersB)
  {
    hide LineOk, InFlight, New;
    var s := Start(ends, peersA, peersB);
    StartSends(ends, peersA, peersB);
    NewLineOk(crc, s.ab);
    NewLineOk(crc, []);
  }

  lemma StartSends(ends: Ends, peersA: Peers, peersB: Peers)
    requires ends.Ok()
    ensures var s := Start(ends, peersA, peersB);
            && AllNew(s.ab) && s.ba == [] && s.inA == [] && s.inB == []
            && s.sentA == [] && s.sentB == [] && s.gotA == [] && s.gotB == []
  {
    hide New;
    HandshakeNew(ends.a.suite.public(ends.ephemeral));
  }

  /** Every run of the byte channel is a run of the frame channel. */
  lemma {:induction false} RunSimulates(
    crc: Codec.Crc, ends: Ends, peersA: Peers, peersB: Peers, steps: seq<ByteStep>) returns (frames: seq<Step>)
    requires ends.Ok()
    ensures LinesOk(crc, ByteRun(crc, ends, peersA, peersB, steps)) && |frames| <= |steps|
    ensures Abs(crc, ByteRun(crc, ends, peersA, peersB, steps)) == Run(ends, peersA, peersB, frames)
  {
    hide LinesOk, Abs, ByteApply, Apply, Start, ByteStart;
    if steps == [] {
      frames := [];
      StartSimulates(crc, ends, peersA, peersB);
    } else {
      var n := |steps| - 1;
      var before := RunSimulates(crc, ends, peersA, peersB, steps[..n]);
      var step := StepSimulates(crc, ends, ByteRun(crc, ends, peersA, peersB, steps[..n]), steps[n]);
      frames := before + step;
      if step == [] {
        assert frames == before;
      } else {
        assert step == [step[0]];
        RunSnoc(ends, peersA, peersB, before, step[0]);
      }
    }
  }

  // ---------- Theorems ----------

  /** Nothing moves any more on a line: all bytes are decoded and the writer has nothing to do or has ended. */
  predicate Idle(crc: Codec.Crc, l: Line)
  {
    l.bytes == [] && l.buffer == [] && (l.out == [] || Codec.Encode(crc, l.out[0]).Failure?)
  }

  predicate Drained(crc: Codec.Crc, w: Wires)
  {
    Idle(crc, w.ab) && Idle(crc, w.ba) && w.inA == [] && w.inB == []
  }

  lemma IdleForwardsNothing(crc: Codec.Crc, l: Line)
    requires LineOk(crc, l) && Idle(crc, l)
    ensures Forwarded(InFlight(crc, l)) == []
  {
    hide Codec.Parse, Codec.Consistent, Codec.Encode, ReadFrame;
    var none: Bytes := [];
    assert l.buffer + l.bytes == none;
    Codec.ParseEmpty(crc);
    assert InFlight(crc, l) == l.out;
    if l.out != [] {
      EncodesIff(crc, l.out[0]);
    }
  }

  /** The whole path, from a text sealed at one end to the text decrypted at the other, through encoder, byte stream in
      any pieces, decoder, reader, replay window and cipher: no decoder ever fails; each node has a prefix of the texts
      that precede the first oversize one and are no heartbeats; and once drained it has all of them, and both ends
      are secure with mirrored keys. */
  lemma BytesDeliver(crc: Codec.Crc, ends: Ends, peersA: Peers, peersB: Peers, steps: seq<ByteStep>)
    requires ends.Ok() && ends.atB !in peersB && |steps| < Session.MAX_NONCE
    ensures var w := ByteRun(crc, ends, peersA, peersB, steps);
            && !w.ab.broken && !w.ba.broken
            && w.gotB <= Texts(Posted(w.sentA)) && w.gotA <= Texts(Posted(w.sentB))
            && (Drained(crc, w) ==>
                  && w.gotB == Texts(Posted(w.sentA)) && w.gotA == Texts(Posted(w.sentB))
                  && var entryA, entryB := Lookup(w.peersA, ends.atA), Lookup(w.peersB, ends.atB);
                     && entryA.Some? && entryA.value.Secure? && entryB.Some? && entryB.value.Secure?
                     && Mirrored(ends, entryA.value.session.keys, entryB.value.session.keys))
  {
    hide ByteRun, Run, Texts, Posted, InFlight, Idle, Forwarded, Mirrored, Codec.Parse, Codec.Consistent, AllNew;
    var w := ByteRun(crc, ends, peersA, peersB, steps);
    var frames := RunSimulates(crc, ends, peersA, peersB, steps);
    ChannelDelivers(ends, peersA, peersB, frames);
    HandshakeSucceeds(ends, peersA, peersB, frames);
    if Drained(crc, w) {
      IdleForwardsNothing(crc, w.ab);
      IdleForwardsNothing(crc, w.ba);
      assert Settled(Abs(crc, w));
    }
  }
}
