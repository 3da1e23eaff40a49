/** Frame types: `crates/ceky-protocol/src/types.rs` and the constants of `lib.rs`. */
module Frames {
  import opened Bits
  import opened Wire
  import opened Wrappers

  const MAGIC: nat := 0xCE4B
  const VERSION: Byte := 1
  const HEADER_SIZE: nat := 21
  const MAX_PAYLOAD_SIZE: nat := 16 * 1024 * 1024

  datatype MessageType =
    | Handshake | Ping | Pong | Disconnect
    | FindNode | FindNodeResp | Store | StoreResp | FindValue | FindValueResp
    | Data | DataAck | CreditUpdate | FileOffer | FileAccept | FileReject | FileChunk | FileChunkAck
    | FileComplete | FileCancel
    | NatProbe | NatProbeResp | HolePunch | HolePunchResp | RelayRequest | RelayData

  function AsByte(t: MessageType): (b: Byte)
  {
    match t
    case Handshake => 0x01 case Ping => 0x02 case Pong => 0x03 case Disconnect => 0x04
    case FindNode => 0x10 case FindNodeResp => 0x11 case Store => 0x12 case StoreResp => 0x13
    case FindValue => 0x14 case FindValueResp => 0x15
    case Data => 0x20 case DataAck => 0x21 case CreditUpdate => 0x22 case FileOffer => 0x23
    case FileAccept => 0x24 case FileReject => 0x25 case FileChunk => 0x26 case FileChunkAck => 0x27
    case FileComplete => 0x28 case FileCancel => 0x29
    case NatProbe => 0x30 case NatProbeResp => 0x31 case HolePunch => 0x32 case HolePunchResp => 0x33
    case RelayRequest => 0x34 case RelayData => 0x35
  }

  function FromByte(b: Byte): (t: Option<MessageType>)
  {
    match b
    case 0x01 => Some(Handshake) case 0x02 => Some(Ping) case 0x03 => Some(Pong) case 0x04 => Some(Disconnect)
    case 0x10 => Some(FindNode) case 0x11 => Some(FindNodeResp) case 0x12 => Some(Store) case 0x13 => Some(StoreResp)
    case 0x14 => Some(FindValue) case 0x15 => Some(FindValueResp)
    case 0x20 => Some(Data) case 0x21 => Some(DataAck) case 0x22 => Some(CreditUpdate) case 0x23 => Some(FileOffer)
    case 0x24 => Some(FileAccept) case 0x25 => Some(FileReject) case 0x26 => Some(FileChunk)
    case 0x27 => Some(FileChunkAck) case 0x28 => Some(FileComplete) case 0x29 => Some(FileCancel)
    case 0x30 => Some(NatProbe) case 0x31 => Some(NatProbeResp) case 0x32 => Some(HolePunch)
    case 0x33 => Some(HolePunchResp) case 0x34 => Some(RelayRequest) case 0x35 => Some(RelayData)
    case _ => None
  }

  lemma TypeByteRoundTrip(t: MessageType)
    ensures FromByte(AsByte(t)) == Some(t)
  {
  }

  lemma ByteTypeRoundTrip(b: Byte)
    ensures FromByte(b).Some? ==> AsByte(FromByte(b).value) == b
  {
  }

  datatype Header = Header(
    magic: nat, version: Byte, msgType: MessageType, flags: Byte, payloadLen: U32, requestId: U64, checksum: U32)

  datatype Frame = Frame(header: Header, payload: Bytes)

  /** `Frame::new`: the checksum is left for the encoder. */
  function NewFrame(msgType: MessageType, flags: Byte, requestId: U64, payload: Bytes): (f: Frame)
  {
    Frame(Header(MAGIC, VERSION, msgType, flags, |payload| % U32_SIZE, requestId, 0), payload)
  }
}
