/** The streaming frame codec: `crates/ceky-protocol/src/codec.rs`.

  `FrameCodec` is the resumable decoder with its two states. `Parse` takes a whole byte stream at once and
  knows nothing of states or of reads. CRC32C is a parameter.
 */
module Codec {
  import opened Bits
  import opened Wire
  import opened Wrappers
  import opened Frames

  /** `crc32c_append(seed, data)`; `crc32c(data)` is the case of seed 0. */
  type Crc = (U32, Bytes) -> U32

  datatype ProtocolError =
    | InvalidMagic(got: nat)
    | UnsupportedVersion(version: Byte)
    | UnknownMessageType(code: Byte)
    | PayloadTooLarge(size: nat)
    | ChecksumMismatch(expected: U32, computed: U32)

  /** The 17 header bytes the checksum covers, in wire order. */
  function HeaderFields(h: Header): (s: Bytes)
    ensures |s| == 17
  {
    ToBE(h.magic, 2) + [h.version, AsByte(h.msgType), h.flags] + ToBE(h.payloadLen, 4) + ToBE(h.requestId, 8)
  }

  function ComputeChecksum(crc: Crc, h: Header, payload: Bytes): (sum: U32)
  {
    crc(crc(0, HeaderFields(h)), payload)
  }

  function DecodeHeader(src: Bytes): (r: Result<Header, ProtocolError>)
    requires |src| >= HEADER_SIZE
  {
    var magic := FromBE(src[0..2]);
    var payloadLen := FromBE(src[5..9]);
    if magic != MAGIC then Failure(InvalidMagic(magic))
    else if src[2] != VERSION then Failure(UnsupportedVersion(src[2]))
    else if FromByte(src[3]).None? then Failure(UnknownMessageType(src[3]))
    else if payloadLen > MAX_PAYLOAD_SIZE then Failure(PayloadTooLarge(payloadLen))
    else
      HeaderFieldsFit(src);
      Success(Header(magic, src[2], FromByte(src[3]).value, src[4], payloadLen, FromBE(src[9..17]),
                     FromBE(src[17..21])))
  }

  lemma HeaderFieldsFit(src: Bytes)
    requires |src| >= HEADER_SIZE
    ensures FromBE(src[9..17]) < U64_SIZE && FromBE(src[17..21]) < U32_SIZE
  {
    Pow256Constants();
    ToFromBE(src[9..17]);
    ToFromBE(src[17..21]);
  }

  // ---------- The resumable decoder ----------

  datatype DecodeState = AtHeader | AtPayload(header: Header)

  datatype Outcome = Got(frame: Frame) | NeedMore | Failed(error: ProtocolError)

  datatype Decoded = Decoded(state: DecodeState, buffer: Bytes, outcome: Outcome)

  /** The branch for a known header. */
  function DecodePayload(crc: Crc, h: Header, buffer: Bytes): (r: Decoded)
  {
    var total := HEADER_SIZE + h.payloadLen;
    if |buffer| < total then Decoded(AtPayload(h), buffer, NeedMore)
    else
      var payload := buffer[HEADER_SIZE..total];
      var sum := ComputeChecksum(crc, h, payload);
      if sum != h.checksum then Decoded(AtPayload(h), buffer, Failed(ChecksumMismatch(h.checksum, sum)))
      else Decoded(AtHeader, buffer[total..], Got(Frame(h, payload)))
  }

  /** One call of `decode`. */
  function Decode(crc: Crc, state: DecodeState, buffer: Bytes): (r: Decoded)
  {
    match state
    case AtPayload(h) => DecodePayload(crc, h, buffer)
    case AtHeader =>
      if |buffer| < HEADER_SIZE then Decoded(AtHeader, buffer, NeedMore)
      else
        var r := DecodeHeader(buffer[..HEADER_SIZE]);
        if r.Failure? then Decoded(AtHeader, buffer, Failed(r.error))
        else if r.value.payloadLen == 0 then
          var sum := ComputeChecksum(crc, r.value, []);
          if sum != r.value.checksum then Decoded(AtHeader, buffer, Failed(ChecksumMismatch(r.value.checksum, sum)))
          else Decoded(AtHeader, buffer[HEADER_SIZE..], Got(Frame(r.value, [])))
        else DecodePayload(crc, r.value, buffer)
  }

  class FrameCodec {
    const crc: Crc
    var state: DecodeState
    /** Bytes read and not yet decoded. */
    var buffer: Bytes
    /** Bytes encoded for sending. */
    var output: Bytes

    constructor (crc: Crc)
      ensures this.crc == crc && state == AtHeader && buffer == [] && output == []
    {
      this.crc := crc;
      state, buffer, output := AtHeader, [], [];
    }

    /** `decode`: a loop over the two states that changes state and buffer in place. */
    method DecodeNext() returns (outcome: Outcome)
      modifies this`state, this`buffer
      ensures Decoded(state, buffer, outcome) == Decode(crc, old(state), old(buffer))
    {
      while true
        invariant buffer == old(buffer)
        invariant state == old(state)
               || (state.AtPayload? && old(state).AtHeader?
                   && Decode(crc, old(state), old(buffer)) == DecodePayload(crc, state.header, buffer))
        decreases state.AtHeader?
      {
        match state
        case AtHeader =>
          if |buffer| < HEADER_SIZE {
            return NeedMore;
          }
          var r := DecodeHeader(buffer[..HEADER_SIZE]);
          if r.Failure? {
            return Failed(r.error);
          }
          if r.value.payloadLen == 0 {
            var sum := ComputeChecksum(crc, r.value, []);
            if sum != r.value.checksum {
              return Failed(ChecksumMismatch(r.value.checksum, sum));
            }
            buffer := buffer[HEADER_SIZE..];
            return Got(Frame(r.value, []));
          }
          state := AtPayload(r.value);
        case AtPayload(h) =>
          var total := HEADER_SIZE + h.payloadLen;
          if |buffer| < total {
            return NeedMore;
          }
          var sum := ComputeChecksum(crc, h, buffer[HEADER_SIZE..total]);
          if sum != h.checksum {
            return Failed(ChecksumMismatch(h.checksum, sum));
          }
          var payload := buffer[HEADER_SIZE..total];
          buffer := buffer[total..];
          state := AtHeader;
          return Got(Frame(h, payload));
      }
    }

    /** `encode`: append the wire form to the output, or fail and append nothing. */
    method EncodeFrame(frame: Frame) returns (r: Result<(), ProtocolError>)
      modifies this`output
      ensures r.Success? <==> Encode(crc, frame).Success?
      ensures r.Success? ==> output == old(output) + Encode(crc, frame).value
      ensures r.Failure? ==> r.error == Encode(crc, frame).error && output == old(output)
    {
      hide ToBE, AsByte, ComputeChecksum;
      var payloadLen := |frame.payload| % U32_SIZE;
      if payloadLen > MAX_PAYLOAD_SIZE {
        return Failure(PayloadTooLarge(payloadLen));
      }
      var sum := ComputeChecksum(crc, frame.header, frame.payload);
      var wire := ToBE(MAGIC, 2) + [VERSION] + [AsByte(frame.header.msgType)] + [frame.header.flags];
      wire := wire + ToBE(payloadLen, 4) + ToBE(frame.header.requestId, 8) + ToBE(sum, 4);
      assert wire == HeaderWire(frame.header.msgType, frame.header.flags, payloadLen, frame.header.requestId, sum);
      output := output + wire;
      output := output + frame.payload;
      assert output == old(output) + (wire + frame.payload);
      return Success(());
    }

    /** A read arrives. */
    method Append(data: Bytes)
      modifies this`buffer
      ensures buffer == old(buffer) + data
    {
      buffer := buffer + data;
    }
  }

  // ---------- The encoder ----------

  /** The 21 header bytes on the wire. */
  function HeaderWire(msgType: MessageType, flags: Byte, payloadLen: U32, requestId: U64, checksum: U32): (s: Bytes)
    ensures |s| == HEADER_SIZE
  {
    ToBE(MAGIC, 2) + [VERSION, AsByte(msgType), flags] + ToBE(payloadLen, 4) + ToBE(requestId, 8) + ToBE(checksum, 4)
  }

  /** The wire form of a frame. Length, magic and version come from the payload and the constants; the
      checksum covers the header fields as they stand. */
  function Encode(crc: Crc, f: Frame): (r: Result<Bytes, ProtocolError>)
  {
    var payloadLen := |f.payload| % U32_SIZE;
    if payloadLen > MAX_PAYLOAD_SIZE then Failure(PayloadTooLarge(payloadLen))
    else
      var sum := ComputeChecksum(crc, f.header, f.payload);
      Success(HeaderWire(f.header.msgType, f.header.flags, payloadLen, f.header.requestId, sum) + f.payload)
  }

  // ---------- The one-shot parser ----------

  datatype Tail = Incomplete(rest: Bytes) | Bad(error: ProtocolError)

  datatype Parsed = Parsed(frames: seq<Frame>, tail: Tail)

  /** The first frame of a stream and how many bytes it takes. */
  datatype First = First(frame: Frame, size: nat) | Short | Broken(error: ProtocolError)

  function FirstFrame(crc: Crc, stream: Bytes): (r: First)
    ensures r.First? ==> HEADER_SIZE <= r.size <= |stream|
  {
    if |stream| < HEADER_SIZE then Short
    else
      match DecodeHeader(stream[..HEADER_SIZE])
      case Failure(e) => Broken(e)
      case Success(h) =>
        var size := HEADER_SIZE + h.payloadLen;
        if |stream| < size then Short
        else
          var payload := stream[HEADER_SIZE..size];
          var sum := ComputeChecksum(crc, h, payload);
          if sum == h.checksum then First(Frame(h, payload), size) else Broken(ChecksumMismatch(h.checksum, sum))
  }

  function Parse(crc: Crc, stream: Bytes): (r: Parsed)
    decreases |stream|
  {
    match FirstFrame(crc, stream)
    case Short => Parsed([], Incomplete(stream))
    case Broken(e) => Parsed([], Bad(e))
    case First(frame, size) =>
      var r := Parse(crc, stream[size..]);
      Parsed([frame] + r.frames, r.tail)
  }

  /** In state `AtPayload(h)` the buffer still starts with the bytes of `h`. */
  ghost predicate Consistent(state: DecodeState, buffer: Bytes)
  {
    state.AtPayload? ==>
      && |buffer| >= HEADER_SIZE && state.header.payloadLen > 0
      && DecodeHeader(buffer[..HEADER_SIZE]) == Success(state.header)
  }

  /** One call of the resumable decoder does what one step of the parser does; the state it leaves is consistent
      and says nothing the buffer does not say. */
  lemma DecodeIsFirstFrame(crc: Crc, state: DecodeState, buffer: Bytes)
    requires Consistent(state, buffer)
    ensures var r, first := Decode(crc, state, buffer), FirstFrame(crc, buffer);
            Consistent(r.state, r.buffer) &&
            match first
            case Short => r.outcome == NeedMore && r.buffer == buffer
            case Broken(e) => r.outcome == Failed(e) && r.buffer == buffer
            case First(frame, size) => r.outcome == Got(frame) && r.buffer == buffer[size..] && r.state == AtHeader
  {
    hide DecodeHeader, ComputeChecksum;
    if |buffer| >= HEADER_SIZE {
      var h := DecodeHeader(buffer[..HEADER_SIZE]);
      if h.Success? && h.value.payloadLen == 0 {
        assert buffer[HEADER_SIZE..HEADER_SIZE] == [];
      }
    }
  }

  /** More bytes do not change a frame or an error already there. */
  lemma FirstFrameStable(crc: Crc, a: Bytes, b: Bytes)
    ensures !FirstFrame(crc, a).Short? ==> FirstFrame(crc, a + b) == FirstFrame(crc, a)
  {
    hide DecodeHeader, ComputeChecksum;
    if |a| >= HEADER_SIZE {
      assert (a + b)[..HEADER_SIZE] == a[..HEADER_SIZE];
      var h := DecodeHeader(a[..HEADER_SIZE]);
      if h.Success? {
        var size := HEADER_SIZE + h.value.payloadLen;
        if |a| >= size {
          assert (a + b)[HEADER_SIZE..size] == a[HEADER_SIZE..size];
        }
      }
    }
  }

  /** After an error every later call returns that same error, whatever arrives in the meantime. */
  lemma ErrorSticks(crc: Crc, state: DecodeState, buffer: Bytes, more: Bytes)
    requires Consistent(state, buffer) && Decode(crc, state, buffer).outcome.Failed?
    ensures var r := Decode(crc, state, buffer);
            Decode(crc, r.state, r.buffer + more).outcome == r.outcome
  {
    hide FirstFrame, Decode, Consistent;
    var r := Decode(crc, state, buffer);
    DecodeIsFirstFrame(crc, state, buffer);
    ConsistentAppend(r.state, r.buffer, more);
    DecodeIsFirstFrame(crc, r.state, r.buffer + more);
    FirstFrameStable(crc, buffer, more);
  }

  /** Parsing a longer stream continues where parsing the prefix stopped, and never gets past an error. */
  lemma {:induction false} ParseAppend(crc: Crc, a: Bytes, b: Bytes)
    ensures var p := Parse(crc, a);
            match p.tail {
              case Bad(_) => Parse(crc, a + b) == p
              case Incomplete(rest) =>
                var q := Parse(crc, rest + b);
                Parse(crc, a + b) == Parsed(p.frames + q.frames, q.tail)
            }
    decreases |a|
  {
    hide FirstFrame;
    FirstFrameStable(crc, a, b);
    match FirstFrame(crc, a)
    case Short =>
      assert [] + Parse(crc, a + b).frames == Parse(crc, a + b).frames;
    case Broken(_) =>
    case First(frame, size) =>
      assert (a + b)[size..] == a[size..] + b;
      ParseAppend(crc, a[size..], b);
      var p := Parse(crc, a[size..]);
      if p.tail.Incomplete? {
        var q := Parse(crc, p.tail.rest + b);
        assert [frame] + (p.frames + q.frames) == ([frame] + p.frames) + q.frames;
      }
  }

  lemma {:induction false} ParseRest(crc: Crc, stream: Bytes)
    ensures var p := Parse(crc, stream);
            p.tail.Incomplete? ==> Parse(crc, p.tail.rest) == Parsed([], p.tail)
    decreases |stream|
  {
    hide FirstFrame;
    if FirstFrame(crc, stream).First? {
      ParseRest(crc, stream[FirstFrame(crc, stream).size..]);
    }
  }

  function Joined(parts: seq<Bytes>): (stream: Bytes)
  {
    if parts == [] then [] else Joined(parts[..|parts| - 1]) + parts[|parts| - 1]
  }

  /** The parser takes one frame at a time. */
  lemma ParseFirst(crc: Crc, stream: Bytes)
    ensures FirstFrame(crc, stream).Short? ==> Parse(crc, stream) == Parsed([], Incomplete(stream))
    ensures FirstFrame(crc, stream).Broken? ==> Parse(crc, stream) == Parsed([], Bad(FirstFrame(crc, stream).error))
    ensures FirstFrame(crc, stream).First? ==>
              var first, p := FirstFrame(crc, stream), Parse(crc, stream);
              && p.frames != [] && p.frames[0] == first.frame
              && Parse(crc, stream[first.size..]) == Parsed(p.frames[1..], p.tail)
  {
    hide FirstFrame;
  }

  /** Call `decode` until it has nothing more to give. */
  method Drain(codec: FrameCodec) returns (frames: seq<Frame>, last: Outcome)
    requires Consistent(codec.state, codec.buffer)
    modifies codec
    ensures Consistent(codec.state, codec.buffer)
    ensures Caught(codec.crc, old(codec.buffer), frames, last, codec.buffer)
  {
    hide FirstFrame, Decode, Consistent, Parse;
    frames := [];
    while true
      invariant Consistent(codec.state, codec.buffer)
      invariant Parse(codec.crc, old(codec.buffer))
             == Parsed(frames + Parse(codec.crc, codec.buffer).frames, Parse(codec.crc, codec.buffer).tail)
      decreases |codec.buffer|
    {
      DecodeIsFirstFrame(codec.crc, codec.state, codec.buffer);
      ParseFirst(codec.crc, codec.buffer);
      ghost var rest := Parse(codec.crc, codec.buffer).frames;
      last := codec.DecodeNext();
      if last.Got? {
        assert frames + rest == frames + [last.frame] + rest[1..];
        frames := frames + [last.frame];
      } else {
        return;
      }
    }
  }

  /** The resumable decoder equals the one-shot parser under every fragmentation: draining after each read
      yields exactly the frames of the whole stream, and the last call reports its status. An error, once
      reported, is reported again by every later call. */
  method ReadStream(crc: Crc, parts: seq<Bytes>) returns (frames: seq<Frame>, last: Outcome)
    ensures frames == Parse(crc, Joined(parts)).frames
    ensures match Parse(crc, Joined(parts)).tail {
              case Incomplete(_) => last == NeedMore
              case Bad(e) => last == Failed(e)
            }
  {
    hide FirstFrame, Decode, Consistent;
    var codec := new FrameCodec(crc);
    StartsConsistent();
    frames, last := [], NeedMore;
    ParseEmpty(crc);
    for i := 0 to |parts|
      invariant fresh(codec) && codec.crc == crc && Consistent(codec.state, codec.buffer)
      invariant Caught(crc, Joined(parts[..i]), frames, last, codec.buffer)
    {
      ghost var before := Joined(parts[..i]);
      JoinedSnoc(parts, i);
      ParseAppend(crc, before, parts[i]);
      ConsistentAppend(codec.state, codec.buffer, parts[i]);
      ParseAppend(crc, codec.buffer, parts[i]);
      codec.Append(parts[i]);
      var more, status := Drain(codec);
      ParseRest(crc, before + parts[i]);
      frames, last := frames + more, status;
    }
    assert parts[..|parts|] == parts;
  }

  /** What has been read so far is what the parser makes of it. */
  ghost predicate Caught(crc: Crc, stream: Bytes, frames: seq<Frame>, last: Outcome, buffer: Bytes)
  {
    var p := Parse(crc, stream);
    frames == p.frames &&
    match p.tail
    case Incomplete(rest) => last == NeedMore && buffer == rest
    case Bad(e) => last == Failed(e) && Parse(crc, buffer) == Parsed([], Bad(e))
  }

  lemma StartsConsistent()
    ensures Consistent(AtHeader, [])
  {
  }

  lemma ParseEmpty(crc: Crc)
    ensures Parse(crc, []) == Parsed([], Incomplete([]))
  {
  }

  lemma JoinedSnoc(parts: seq<Bytes>, i: nat)
    requires i < |parts|
    ensures Joined(parts[..i + 1]) == Joined(parts[..i]) + parts[i]
  {
    assert parts[..i + 1][..i] == parts[..i];
  }

  lemma ConsistentAppend(state: DecodeState, buffer: Bytes, more: Bytes)
    requires Consistent(state, buffer)
    ensures Consistent(state, buffer + more)
  {
    hide DecodeHeader;
    if state.AtPayload? {
      assert (buffer + more)[..HEADER_SIZE] == buffer[..HEADER_SIZE];
    }
  }

  // ---------- Round trips ----------

  /** A frame made by `Frame::new` with a payload of at most 16 MiB. */
  ghost predicate Sendable(f: Frame)
  {
    && |f.payload| <= MAX_PAYLOAD_SIZE
    && f == NewFrame(f.header.msgType, f.header.flags, f.header.requestId, f.payload)
  }

  /** The frame with its checksum filled in. */
  function Stamped(crc: Crc, f: Frame): (r: Frame)
  {
    f.(header := f.header.(checksum := ComputeChecksum(crc, f.header, f.payload)))
  }

  lemma HeaderWireParts(msgType: MessageType, flags: Byte, payloadLen: U32, requestId: U64, checksum: U32)
    ensures var s := HeaderWire(msgType, flags, payloadLen, requestId, checksum);
            && FromBE(s[0..2]) == MAGIC && s[2] == VERSION && s[3] == AsByte(msgType) && s[4] == flags
            && FromBE(s[5..9]) == payloadLen && FromBE(s[9..17]) == requestId && FromBE(s[17..21]) == checksum
  {
    hide ToBE, FromBE, AsByte;
    Pow256Constants();
    var s := HeaderWire(msgType, flags, payloadLen, requestId, checksum);
    assert s[0..2] == ToBE(MAGIC, 2);
    assert s[5..9] == ToBE(payloadLen, 4);
    assert s[9..17] == ToBE(requestId, 8);
    var front := ToBE(MAGIC, 2) + [VERSION, AsByte(msgType), flags] + ToBE(payloadLen, 4) + ToBE(requestId, 8);
    var sum := ToBE(checksum, 4);
    assert |front| == 17 && |sum| == 4 && s == front + sum;
    assert s[17..21] == s[17..] == sum;
    FromToBE(MAGIC, 2);
    FromToBE(payloadLen, 4);
    FromToBE(requestId, 8);
    FromToBE(checksum, 4);
  }

  lemma DecodeHeaderWire(msgType: MessageType, flags: Byte, payloadLen: U32, requestId: U64, checksum: U32)
    requires payloadLen <= MAX_PAYLOAD_SIZE
    ensures DecodeHeader(HeaderWire(msgType, flags, payloadLen, requestId, checksum))
         == Success(Header(MAGIC, VERSION, msgType, flags, payloadLen, requestId, checksum))
  {
    hide FromBE, HeaderWire, AsByte, FromByte;
    HeaderWireParts(msgType, flags, payloadLen, requestId, checksum);
    TypeByteRoundTrip(msgType);
  }

  /** An encoded frame followed by anything is read back first, with its checksum filled in. */
  lemma FirstFrameOfEncoded(crc: Crc, f: Frame, rest: Bytes)
    requires Sendable(f)
    ensures Encode(crc, f).Success?
    ensures FirstFrame(crc, Encode(crc, f).value + rest) == First(Stamped(crc, f), HEADER_SIZE + |f.payload|)
    ensures (Encode(crc, f).value + rest)[HEADER_SIZE + |f.payload|..] == rest
  {
    hide DecodeHeader, HeaderWire, HeaderFields;
    var sum := ComputeChecksum(crc, f.header, f.payload);
    var h := HeaderWire(f.header.msgType, f.header.flags, |f.payload|, f.header.requestId, sum);
    DecodeHeaderWire(f.header.msgType, f.header.flags, |f.payload|, f.header.requestId, sum);
    assert |f.payload| % U32_SIZE == |f.payload|;
    assert Encode(crc, f) == Success(h + f.payload);
    var stream := Encode(crc, f).value + rest;
    assert stream[..HEADER_SIZE] == h;
    assert stream[HEADER_SIZE..HEADER_SIZE + |f.payload|] == f.payload;
    ChecksumIgnoresItself(crc, f.header, sum, f.payload);
  }

  lemma ChecksumIgnoresItself(crc: Crc, h: Header, sum: U32, payload: Bytes)
    ensures ComputeChecksum(crc, h.(checksum := sum), payload) == ComputeChecksum(crc, h, payload)
  {
  }

  /** The length field is a `u32`: a payload of 4 GiB or more can pass the size check, and is not read back. */
  lemma LengthWraps(crc: Crc, f: Frame)
    requires |f.payload| >= U32_SIZE && |f.payload| % U32_SIZE <= MAX_PAYLOAD_SIZE
    ensures Encode(crc, f).Success?
    ensures forall size :: FirstFrame(crc, Encode(crc, f).value) != First(Stamped(crc, f), size)
  {
    hide ComputeChecksum, HeaderWire, DecodeHeader;
    var stream := Encode(crc, f).value;
    var first := FirstFrame(crc, stream);
    if first.First? {
      HeaderOfWire(stream[..HEADER_SIZE]);
    }
  }

  function EncodeAll(crc: Crc, frames: seq<Frame>): (stream: Bytes)
  {
    if frames == [] then []
    else
      var r := Encode(crc, frames[0]);
      (if r.Success? then r.value else []) + EncodeAll(crc, frames[1..])
  }

  function StampAll(crc: Crc, frames: seq<Frame>): (r: seq<Frame>)
  {
    if frames == [] then [] else [Stamped(crc, frames[0])] + StampAll(crc, frames[1..])
  }

  /** Any list of sendable frames, encoded one after the other, parses back to those frames with their
      checksums filled in, and nothing is left over. */
  lemma {:induction false} ParseEncoded(crc: Crc, frames: seq<Frame>)
    requires forall i :: 0 <= i < |frames| ==> Sendable(frames[i])
    ensures Parse(crc, EncodeAll(crc, frames)) == Parsed(StampAll(crc, frames), Incomplete([]))
  {
    hide FirstFrame, Encode, Sendable, Stamped;
    if frames == [] {
      ParseEmpty(crc);
    } else {
      FirstFrameOfEncoded(crc, frames[0], EncodeAll(crc, frames[1..]));
      ParseEncoded(crc, frames[1..]);
    }
  }

  /** Conversely the wire form of a frame is unique: whatever stream the parser accepts is the encoding of the frames
      it yields, followed by the incomplete rest. */
  lemma {:induction false} ParsedIsEncoded(crc: Crc, stream: Bytes)
    ensures var p := Parse(crc, stream);
            p.tail.Incomplete? ==> stream == EncodeAll(crc, p.frames) + p.tail.rest
    decreases |stream|
  {
    hide FirstFrame, Encode;
    match FirstFrame(crc, stream)
    case Short =>
    case Broken(_) =>
    case First(frame, size) =>
      ParsedIsEncoded(crc, stream[size..]);
      FirstFrameIsEncoded(crc, stream);
      var p := Parse(crc, stream[size..]);
      assert ([frame] + p.frames)[1..] == p.frames;
      assert stream == stream[..size] + stream[size..];
  }

  lemma FirstFrameIsEncoded(crc: Crc, stream: Bytes)
    requires FirstFrame(crc, stream).First?
    ensures var r := FirstFrame(crc, stream);
            Encode(crc, r.frame) == Success(stream[..r.size])
  {
    hide FromBE, HeaderWire, HeaderFields;
    var head := stream[..HEADER_SIZE];
    var r := FirstFrame(crc, stream);
    HeaderOfWire(head);
    assert stream[..r.size] == head + r.frame.payload;
  }

  /** A header that decodes is the wire form of what it decodes to. */
  lemma HeaderOfWire(s: Bytes)
    requires |s| == HEADER_SIZE && DecodeHeader(s).Success?
    ensures var h := DecodeHeader(s).value;
            h.magic == MAGIC && h.version == VERSION && h.payloadLen <= MAX_PAYLOAD_SIZE
            && s == HeaderWire(h.msgType, h.flags, h.payloadLen, h.requestId, h.checksum)
  {
    hide FromBE, ToBE, AsByte, FromByte;
    ByteTypeRoundTrip(s[3]);
    ToFromBE(s[0..2]);
    ToFromBE(s[5..9]);
    ToFromBE(s[9..17]);
    ToFromBE(s[17..21]);
    assert s == s[0..2] + [s[2], s[3], s[4]] + s[5..9] + s[9..17] + s[17..21];
  }

  /** Continuing a checksum is taking the checksum of the concatenation. */
  ghost predicate Appends(crc: Crc)
  {
    forall x, y :: crc(crc(0, x), y) == crc(0, x + y)
  }

  /** The checksum covers the whole frame: with the header in order and the payload there, a frame is accepted if and
      only if its bytes 17 to 20 are the CRC of all its other bytes; otherwise the mismatch is the error. */
  lemma ChecksumCoversFrame(crc: Crc, stream: Bytes)
    requires Appends(crc) && |stream| >= HEADER_SIZE && DecodeHeader(stream[..HEADER_SIZE]).Success?
    requires |stream| >= HEADER_SIZE + FromBE(stream[5..9])
    ensures FromBE(stream[17..21]) < U32_SIZE
    ensures var size := HEADER_SIZE + FromBE(stream[5..9]);
            var field, sum := FromBE(stream[17..21]), crc(0, stream[..17] + stream[21..size]);
            && (FirstFrame(crc, stream).First? <==> field == sum)
            && (field == sum ==> FirstFrame(crc, stream).size == size)
            && (field != sum ==> FirstFrame(crc, stream) == Broken(ChecksumMismatch(field, sum)))
  {
    hide FromBE, ToBE, AsByte, FromByte;
    var head := stream[..HEADER_SIZE];
    var h := DecodeHeader(head).value;
    HeaderOfWire(head);
    HeaderFieldsFit(head);
    assert head[..17] == HeaderFields(h);
    assert head[..17] == stream[..17] && head[5..9] == stream[5..9] && head[17..21] == stream[17..21];
  }

  /** The 21 bytes are some header's wire form, with a payload length within the limit. */
  ghost predicate IsHeader(s: Bytes, h: Header)
  {
    && h.magic == MAGIC && h.version == VERSION && h.payloadLen <= MAX_PAYLOAD_SIZE
    && s == HeaderWire(h.msgType, h.flags, h.payloadLen, h.requestId, h.checksum)
  }

  /** A header is accepted if and only if it is the wire form of one, and then as that one; an error names the first
      field that is wrong, with the value found there. */
  lemma HeaderAcceptedIff(s: Bytes, h: Header)
    requires |s| == HEADER_SIZE
    ensures DecodeHeader(s) == Success(h) <==> IsHeader(s, h)
    ensures DecodeHeader(s).Failure? ==>
              match DecodeHeader(s).error
              case InvalidMagic(m) => s[0..2] == ToBE(m, 2) && m != MAGIC
              case UnsupportedVersion(v) => s[0..3] == ToBE(MAGIC, 2) + [v] && v != VERSION
              case UnknownMessageType(t) =>
                s[0..4] == ToBE(MAGIC, 2) + [VERSION, t] && forall m: MessageType :: AsByte(m) != t
              case PayloadTooLarge(n) =>
                && s[0..3] == ToBE(MAGIC, 2) + [VERSION] && FromByte(s[3]).Some?
                && s[5..9] == ToBE(n, 4) && n > MAX_PAYLOAD_SIZE
              case ChecksumMismatch(_, _) => false
  {
    hide FromBE, ToBE, AsByte, FromByte, HeaderWire;
    ToFromBE(s[0..2]);
    ToFromBE(s[5..9]);
    assert s[0..3] == s[0..2] + [s[2]] && s[0..4] == s[0..2] + [s[2], s[3]];
    forall m: MessageType ensures AsByte(m) == s[3] ==> FromByte(s[3]).Some? {
      TypeByteRoundTrip(m);
    }
    if DecodeHeader(s).Success? {
      HeaderOfWire(s);
    }
    if IsHeader(s, h) {
      DecodeHeaderWire(h.msgType, h.flags, h.payloadLen, h.requestId, h.checksum);
    }
  }

  /** The two together, through the resumable decoder: frames sent by one side arrive whole at the other,
      however the stream is cut. */
  method SendAndReceive(crc: Crc, frames: seq<Frame>, parts: seq<Bytes>) returns (received: seq<Frame>, last: Outcome)
    requires forall i :: 0 <= i < |frames| ==> Sendable(frames[i])
    requires Joined(parts) == EncodeAll(crc, frames)
    ensures received == StampAll(crc, frames) && last == NeedMore
  {
    ParseEncoded(crc, frames);
    received, last := ReadStream(crc, parts);
  }
}
