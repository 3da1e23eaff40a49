/** The STUN response parser of `crates/ceky-nat/src/stun.rs`, and the messages of RFC 5389 it reads. */
module Stun {
  import opened Bits
  import opened Wire
  import opened Wrappers

  const BINDING_RESPONSE: nat := 0x0101
  const ATTR_MAPPED_ADDRESS: nat := 0x0001
  const ATTR_XOR_MAPPED_ADDRESS: nat := 0x0020
  const HEADER_SIZE: nat := 20
  const IPV4: Byte := 0x01
  const U16_SIZE: nat := 0x1_0000

  /** The magic cookie 0x2112A442 in network order, and its upper half. */
  const COOKIE: Bytes := [0x21, 0x12, 0xA4, 0x42]
  const COOKIE_HIGH: nat := 0x2112

  type U16 = x: nat | x < U16_SIZE witness 0

  /** An IPv4 socket address. */
  datatype Address = Address(a: Byte, b: Byte, c: Byte, d: Byte, port: U16)

  datatype StunError =
    | TooShort
    | WrongType
    | WrongCookie
    | WrongTransaction
    | Truncated
    | AddressTooShort
    | UnsupportedFamily(family: Byte)
    | NoAddress

  type Answer = Result<Address, StunError>

  function ReadU16(s: Bytes): (x: U16)
    requires |s| == 2
  {
    (s[0] as nat) * 0x100 + s[1]
  }

  function XorU16(x: U16, y: U16): (z: U16)
  {
    U16IsPow2();
    XorBound(x, y, 16);
    Xor(x, y)
  }

  lemma U16IsPow2()
    ensures Pow2(16) == U16_SIZE
  {
    assert Pow2(4) == 16;
    assert Pow2(8) == 256;
    assert Pow2(12) == 4096;
  }

  function ParseMapped(s: Bytes): (r: Answer)
  {
    if |s| < 8 then Failure(AddressTooShort)
    else if s[1] != IPV4 then Failure(UnsupportedFamily(s[1]))
    else Success(Address(s[4], s[5], s[6], s[7], ReadU16(s[2..4])))
  }

  function ParseXorMapped(s: Bytes): (r: Answer)
  {
    if |s| < 8 then Failure(AddressTooShort)
    else if s[1] != IPV4 then Failure(UnsupportedFamily(s[1]))
    else
      Success(Address(XorByte(s[4], COOKIE[0]), XorByte(s[5], COOKIE[1]), XorByte(s[6], COOKIE[2]),
                      XorByte(s[7], COOKIE[3]), XorU16(ReadU16(s[2..4]), COOKIE_HIGH)))
  }

  /** Length rounded up to a multiple of four: the source clears the two low bits of `len + 3`. */
  function Padded(len: nat): (n: nat)
    ensures len <= n < len + 4 && n % 4 == 0
  {
    (len + 3) / 4 * 4
  }

  /** The attribute walk as a recursion over the bytes not yet read. */
  function Walk(s: Bytes): (r: Answer)
  {
    if |s| < 4 then Failure(NoAddress)
    else
      var kind, len := ReadU16(s[0..2]), ReadU16(s[2..4]);
      if 4 + len > |s| then Failure(NoAddress)
      else if kind == ATTR_XOR_MAPPED_ADDRESS then ParseXorMapped(s[4..4 + len])
      else if kind == ATTR_MAPPED_ADDRESS then ParseMapped(s[4..4 + len])
      else if 4 + Padded(len) > |s| then Failure(NoAddress)
      else Walk(s[4 + Padded(len)..])
  }

  function CheckHeader(data: Bytes, txn: Bytes): (r: Result<nat, StunError>)
    requires |txn| == 12
    ensures r.Success? ==> HEADER_SIZE + r.value <= |data|
  {
    if |data| < HEADER_SIZE then Failure(TooShort)
    else if ReadU16(data[0..2]) != BINDING_RESPONSE then Failure(WrongType)
    else if data[4..8] != COOKIE then Failure(WrongCookie)
    else if data[8..20] != txn then Failure(WrongTransaction)
    else if |data| < HEADER_SIZE + ReadU16(data[2..4]) then Failure(Truncated)
    else Success(ReadU16(data[2..4]))
  }

  function Parse(data: Bytes, txn: Bytes): (r: Answer)
    requires |txn| == 12
  {
    match CheckHeader(data, txn)
    case Failure(e) => Failure(e)
    case Success(len) => Walk(data[HEADER_SIZE..HEADER_SIZE + len])
  }

  lemma SliceOfSlice(s: Bytes, lo: nat, hi: nat, i: nat, j: nat)
    requires lo <= hi <= |s| && i <= j <= hi - lo
    ensures s[lo..hi][i..j] == s[lo + i..lo + j]
  {
    assert forall k :: 0 <= k < j - i ==> s[lo..hi][i..j][k] == s[lo + i + k];
  }

  /** `parse_binding_response`: the offset loop over the datagram. */
  method ParseBindingResponse(data: Bytes, txn: Bytes) returns (r: Answer)
    requires |txn| == 12
    ensures r == Parse(data, txn)
  {
    hide ParseMapped, ParseXorMapped, ReadU16, Padded;
    if |data| < HEADER_SIZE {
      return Failure(TooShort);
    }
    if ReadU16(data[0..2]) != BINDING_RESPONSE {
      return Failure(WrongType);
    }
    if data[4..8] != COOKIE {
      return Failure(WrongCookie);
    }
    if data[8..20] != txn {
      return Failure(WrongTransaction);
    }
    var len := ReadU16(data[2..4]);
    if |data| < HEADER_SIZE + len {
      return Failure(Truncated);
    }
    var offset, end := HEADER_SIZE, HEADER_SIZE + len;
    while offset + 4 <= end
      invariant HEADER_SIZE <= offset
      invariant Walk(data[HEADER_SIZE..end]) == if offset <= end then Walk(data[offset..end]) else Failure(NoAddress)
      decreases end - offset
    {
      ghost var rest := data[offset..end];
      var kind := ReadU16(data[offset..offset + 2]);
      var size := ReadU16(data[offset + 2..offset + 4]);
      SliceOfSlice(data, offset, end, 0, 2);
      SliceOfSlice(data, offset, end, 2, 4);
      offset := offset + 4;
      if offset + size > end {
        return Failure(NoAddress);
      }
      SliceOfSlice(data, offset - 4, end, 4, 4 + size);
      if kind == ATTR_XOR_MAPPED_ADDRESS {
        return ParseXorMapped(data[offset..offset + size]);
      } else if kind == ATTR_MAPPED_ADDRESS {
        return ParseMapped(data[offset..offset + size]);
      }
      if offset + Padded(size) <= end {
        SliceOfSlice(data, offset - 4, end, 4 + Padded(size), |rest|);
        assert rest[4 + Padded(size)..] == rest[4 + Padded(size)..|rest|];
      }
      offset := offset + Padded(size);
    }
    return Failure(NoAddress);
  }

  // ---------- Messages, per sections 6, 15, 15.1 and 15.2 of RFC 5389 ----------

  datatype Attribute =
    | Unknown(kind: U16, value: Bytes, padding: Bytes)
    | Mapped(address: Address, reserved: Byte)
    | XorMapped(address: Address, reserved: Byte)

  /** Section 15: the value is padded, with arbitrary bytes, to a multiple of four. */
  predicate WellFormed(t: Attribute)
  {
    t.Unknown? ==>
      && t.kind != ATTR_MAPPED_ADDRESS && t.kind != ATTR_XOR_MAPPED_ADDRESS
      && |t.value| < U16_SIZE && |t.value| + |t.padding| == Padded(|t.value|)
  }

  function WriteU16(x: U16): (s: Bytes)
    ensures |s| == 2 && ReadU16(s) == x
  {
    [x / 0x100, x % 0x100]
  }

  /** Sections 15.1 and 15.2. */
  function EncodeAttribute(t: Attribute): (s: Bytes)
    requires WellFormed(t)
    ensures |s| >= 4
  {
    match t
    case Unknown(kind, value, padding) => WriteU16(kind) + WriteU16(|value|) + value + padding
    case Mapped(at, reserved) =>
      WriteU16(ATTR_MAPPED_ADDRESS) + WriteU16(8) + [reserved, IPV4] + WriteU16(at.port) + [at.a, at.b, at.c, at.d]
    case XorMapped(at, reserved) =>
      WriteU16(ATTR_XOR_MAPPED_ADDRESS) + WriteU16(8) + [reserved, IPV4] + WriteU16(XorU16(at.port, COOKIE_HIGH))
      + [XorByte(at.a, COOKIE[0]), XorByte(at.b, COOKIE[1]), XorByte(at.c, COOKIE[2]), XorByte(at.d, COOKIE[3])]
  }

  function EncodeAll(list: seq<Attribute>): (s: Bytes)
    requires forall i :: 0 <= i < |list| ==> WellFormed(list[i])
  {
    if list == [] then [] else EncodeAttribute(list[0]) + EncodeAll(list[1..])
  }

  function EncodeResponse(list: seq<Attribute>, txn: Bytes): (s: Bytes)
    requires forall i :: 0 <= i < |list| ==> WellFormed(list[i])
    requires |EncodeAll(list)| < U16_SIZE
  {
    WriteU16(BINDING_RESPONSE) + WriteU16(|EncodeAll(list)|) + COOKIE + txn + EncodeAll(list)
  }

  /** The first address in the list. */
  function FirstAddress(list: seq<Attribute>): (r: Answer)
  {
    if list == [] then Failure(NoAddress)
    else if list[0].Unknown? then FirstAddress(list[1..])
    else Success(list[0].address)
  }

  // ---------- The walk reads what was written ----------

  lemma XorU16Twice(x: U16, y: U16)
    ensures XorU16(XorU16(x, y), y) == x
  {
    XorTwice(x, y);
  }

  lemma XorByteTwice(x: Byte, y: Byte)
    ensures XorByte(XorByte(x, y), y) == x
  {
    XorTwice(x, y);
  }

  lemma XorMappedReads(at: Address, reserved: Byte, rest: Bytes)
    ensures Walk(EncodeAttribute(XorMapped(at, reserved)) + rest) == Success(at)
  {
    hide Xor, XorByte, XorU16, WriteU16, ReadU16;
    var s := EncodeAttribute(XorMapped(at, reserved)) + rest;
    assert s[0..2] == WriteU16(ATTR_XOR_MAPPED_ADDRESS) && s[2..4] == WriteU16(8);
    var body := s[4..12];
    SliceOfSlice(s, 4, 12, 2, 4);
    assert s[6..8] == WriteU16(XorU16(at.port, COOKIE_HIGH));
    XorU16Twice(at.port, COOKIE_HIGH);
    XorByteTwice(at.a, COOKIE[0]);
    XorByteTwice(at.b, COOKIE[1]);
    XorByteTwice(at.c, COOKIE[2]);
    XorByteTwice(at.d, COOKIE[3]);
  }

  lemma MappedReads(at: Address, reserved: Byte, rest: Bytes)
    ensures Walk(EncodeAttribute(Mapped(at, reserved)) + rest) == Success(at)
  {
    hide Xor, XorByte, XorU16, WriteU16, ReadU16;
    var s := EncodeAttribute(Mapped(at, reserved)) + rest;
    assert s[0..2] == WriteU16(ATTR_MAPPED_ADDRESS) && s[2..4] == WriteU16(8);
    var body := s[4..12];
    SliceOfSlice(s, 4, 12, 2, 4);
    assert s[6..8] == WriteU16(at.port);
  }

  lemma UnknownSkipped(t: Attribute, rest: Bytes)
    requires t.Unknown? && WellFormed(t)
    ensures Walk(EncodeAttribute(t) + rest) == Walk(rest)
  {
    hide WriteU16, ReadU16, Padded, ParseMapped, ParseXorMapped;
    var s := EncodeAttribute(t) + rest;
    assert s == WriteU16(t.kind) + WriteU16(|t.value|) + (t.value + t.padding + rest);
    assert s[0..2] == WriteU16(t.kind) && s[2..4] == WriteU16(|t.value|);
    assert |EncodeAttribute(t)| == 4 + Padded(|t.value|);
    assert s[4 + Padded(|t.value|)..] == rest;
  }

  /** Whatever follows it, a well-formed list is read up to its first address. */
  lemma {:induction false} WalkReads(list: seq<Attribute>, rest: Bytes)
    requires forall i :: 0 <= i < |list| ==> WellFormed(list[i])
    ensures Walk(EncodeAll(list) + rest) == if FirstAddress(list).Success? then FirstAddress(list) else Walk(rest)
  {
    hide Walk, EncodeAttribute;
    if list == [] {
      assert EncodeAll(list) + rest == rest;
    } else {
      var more := EncodeAll(list[1..]) + rest;
      assert EncodeAll(list) + rest == EncodeAttribute(list[0]) + more;
      match list[0]
      case Unknown(_, _, _) =>
        UnknownSkipped(list[0], more);
        WalkReads(list[1..], rest);
      case Mapped(at, reserved) => MappedReads(at, reserved, more);
      case XorMapped(at, reserved) => XorMappedReads(at, reserved, more);
    }
  }

  /** A response with any list of well-formed attributes gives its first address, or `NoAddress` if it has none;
      bytes after the message are not looked at. */
  lemma ResponseReads(list: seq<Attribute>, txn: Bytes, after: Bytes)
    requires |txn| == 12 && (forall i :: 0 <= i < |list| ==> WellFormed(list[i])) && |EncodeAll(list)| < U16_SIZE
    ensures Parse(EncodeResponse(list, txn) + after, txn) == FirstAddress(list)
  {
    hide Walk, EncodeAll, ReadU16, WriteU16;
    var body := EncodeAll(list);
    var data := EncodeResponse(list, txn) + after;
    assert data[0..2] == WriteU16(BINDING_RESPONSE) && data[2..4] == WriteU16(|body|);
    assert data[4..8] == COOKIE && data[8..20] == txn && data[20..20 + |body|] == body;
    WalkReads(list, []);
    assert body + [] == body;
    NothingLeft(list);
  }

  lemma NothingLeft(list: seq<Attribute>)
    ensures Walk([]) == Failure(NoAddress)
    ensures FirstAddress(list).Failure? ==> FirstAddress(list) == Failure(NoAddress)
  {
  }

  /** Unknown attributes followed by one address: that address comes back. */
  lemma {:induction false} UnknownsThenAddress(unknowns: seq<Attribute>, last: Attribute, more: seq<Attribute>)
    requires (forall i :: 0 <= i < |unknowns| ==> unknowns[i].Unknown?) && !last.Unknown?
    ensures FirstAddress(unknowns + [last] + more) == Success(last.address)
  {
    if unknowns != [] {
      UnknownsThenAddress(unknowns[1..], last, more);
      assert (unknowns + [last] + more)[1..] == unknowns[1..] + [last] + more;
    }
  }

  /** The first attribute of an address type decides, whatever its length and whatever follows: too short a value and
      another family than IPv4 are errors, and nothing after it is looked at. */
  lemma FirstAddressDecides(unknowns: seq<Attribute>, xored: bool, value: Bytes, rest: Bytes)
    requires forall i :: 0 <= i < |unknowns| ==> unknowns[i].Unknown? && WellFormed(unknowns[i])
    requires |value| < U16_SIZE
    ensures var kind := WriteU16(if xored then ATTR_XOR_MAPPED_ADDRESS else ATTR_MAPPED_ADDRESS);
            var r := Walk(EncodeAll(unknowns) + (kind + WriteU16(|value|) + value + rest));
            && (r == Failure(AddressTooShort) <==> |value| < 8)
            && (|value| >= 8 && value[1] != IPV4 ==> r == Failure(UnsupportedFamily(value[1])))
            && (|value| >= 8 && value[1] == IPV4 ==> r.Success?)
  {
    hide Xor, XorByte, XorU16, WriteU16, ReadU16, EncodeAll, EncodeAttribute;
    var kind := WriteU16(if xored then ATTR_XOR_MAPPED_ADDRESS else ATTR_MAPPED_ADDRESS);
    var s := kind + WriteU16(|value|) + value + rest;
    assert s[0..2] == kind && s[2..4] == WriteU16(|value|) && s[4..4 + |value|] == value;
    NoAddressAmong(unknowns);
    WalkReads(unknowns, s);
  }

  lemma {:induction false} NoAddressAmong(unknowns: seq<Attribute>)
    requires forall i :: 0 <= i < |unknowns| ==> unknowns[i].Unknown?
    ensures FirstAddress(unknowns).Failure?
  {
    if unknowns != [] {
      NoAddressAmong(unknowns[1..]);
    }
  }

  // ---------- What is read was written ----------

  /** An address attribute on the wire; one longer than eight bytes is read like one of eight. */
  function EncodeLong(t: Attribute, extra: Bytes): (s: Bytes)
    requires !t.Unknown? && 8 + |extra| < U16_SIZE
  {
    EncodeAttribute(t)[..2] + WriteU16(8 + |extra|) + EncodeAttribute(t)[4..] + extra
  }

  lemma WriteReadU16(s: Bytes)
    requires |s| == 2
    ensures WriteU16(ReadU16(s)) == s
  {
  }

  lemma XorMappedWasWritten(s: Bytes, len: nat)
    requires len < U16_SIZE && 4 + len <= |s| && ParseXorMapped(s[4..4 + len]).Success?
    requires s[0..2] == WriteU16(ATTR_XOR_MAPPED_ADDRESS) && s[2..4] == WriteU16(len)
    ensures len >= 8
    ensures s[..4 + len] == EncodeLong(XorMapped(ParseXorMapped(s[4..4 + len]).value, s[4]), s[12..4 + len])
  {
    hide Xor, XorByte, XorU16, WriteU16, ReadU16;
    var at := ParseXorMapped(s[4..4 + len]).value;
    SliceOfSlice(s, 4, 4 + len, 2, 4);
    XorU16Twice(ReadU16(s[6..8]), COOKIE_HIGH);
    WriteReadU16(s[6..8]);
    XorByteTwice(s[8], COOKIE[0]);
    XorByteTwice(s[9], COOKIE[1]);
    XorByteTwice(s[10], COOKIE[2]);
    XorByteTwice(s[11], COOKIE[3]);
    assert EncodeAttribute(XorMapped(at, s[4]))[4..] == [s[4], IPV4] + s[6..8] + [s[8], s[9], s[10], s[11]];
    assert s[4..12] == [s[4], s[5]] + s[6..8] + [s[8], s[9], s[10], s[11]];
    assert s[..4 + len] == s[0..2] + s[2..4] + s[4..12] + s[12..4 + len];
  }

  lemma MappedWasWritten(s: Bytes, len: nat)
    requires len < U16_SIZE && 4 + len <= |s| && ParseMapped(s[4..4 + len]).Success?
    requires s[0..2] == WriteU16(ATTR_MAPPED_ADDRESS) && s[2..4] == WriteU16(len)
    ensures len >= 8
    ensures s[..4 + len] == EncodeLong(Mapped(ParseMapped(s[4..4 + len]).value, s[4]), s[12..4 + len])
  {
    hide WriteU16, ReadU16;
    var at := ParseMapped(s[4..4 + len]).value;
    SliceOfSlice(s, 4, 4 + len, 2, 4);
    WriteReadU16(s[6..8]);
    assert EncodeAttribute(Mapped(at, s[4]))[4..] == [s[4], IPV4] + s[6..8] + [s[8], s[9], s[10], s[11]];
    assert s[4..12] == [s[4], s[5]] + s[6..8] + [s[8], s[9], s[10], s[11]];
    assert s[..4 + len] == s[0..2] + s[2..4] + s[4..12] + s[12..4 + len];
  }

  /** The unknown attribute at the front of the bytes. */
  function FirstUnknown(s: Bytes): (t: Attribute)
    requires |s| >= 4 && 4 + Padded(ReadU16(s[2..4])) <= |s|
  {
    var len := ReadU16(s[2..4]);
    Unknown(ReadU16(s[0..2]), s[4..4 + len], s[4 + len..4 + Padded(len)])
  }

  lemma UnknownWasWritten(s: Bytes)
    requires |s| >= 4 && 4 + Padded(ReadU16(s[2..4])) <= |s|
    requires ReadU16(s[0..2]) != ATTR_XOR_MAPPED_ADDRESS && ReadU16(s[0..2]) != ATTR_MAPPED_ADDRESS
    ensures WellFormed(FirstUnknown(s))
    ensures s == EncodeAttribute(FirstUnknown(s)) + s[4 + Padded(ReadU16(s[2..4]))..]
  {
    hide WriteU16, ReadU16, Padded;
    var len := ReadU16(s[2..4]);
    WriteReadU16(s[0..2]);
    WriteReadU16(s[2..4]);
    assert s == s[0..2] + s[2..4] + s[4..4 + len] + s[4 + len..4 + Padded(len)] + s[4 + Padded(len)..];
  }

  /** An address that comes out of the walk stood in the bytes: after unknown attributes, in an attribute of one of the
      two address types and of the IPv4 family. */
  lemma {:induction false} WalkWasWritten(s: Bytes)
    returns (unknowns: seq<Attribute>, last: Attribute, extra: Bytes)
    requires Walk(s).Success?
    ensures forall i :: 0 <= i < |unknowns| ==> unknowns[i].Unknown? && WellFormed(unknowns[i])
    ensures !last.Unknown? && last.address == Walk(s).value && 8 + |extra| < U16_SIZE
    ensures EncodeAll(unknowns) + EncodeLong(last, extra) <= s
    decreases |s|
  {
    hide ParseMapped, ParseXorMapped, ReadU16, WriteU16, Padded, EncodeLong, EncodeAttribute;
    var kind, len := ReadU16(s[0..2]), ReadU16(s[2..4]);
    WriteReadU16(s[0..2]);
    WriteReadU16(s[2..4]);
    if kind == ATTR_XOR_MAPPED_ADDRESS {
      XorMappedWasWritten(s, len);
      unknowns, last, extra := [], XorMapped(Walk(s).value, s[4]), s[12..4 + len];
    } else if kind == ATTR_MAPPED_ADDRESS {
      MappedWasWritten(s, len);
      unknowns, last, extra := [], Mapped(Walk(s).value, s[4]), s[12..4 + len];
    } else {
      var first, rest := FirstUnknown(s), s[4 + Padded(len)..];
      UnknownWasWritten(s);
      unknowns, last, extra := WalkWasWritten(rest);
      ConsEncoded(first, unknowns, EncodeLong(last, extra), rest);
      unknowns := [first] + unknowns;
    }
  }

  lemma ConsEncoded(first: Attribute, unknowns: seq<Attribute>, last: Bytes, rest: Bytes)
    requires WellFormed(first) && forall i :: 0 <= i < |unknowns| ==> WellFormed(unknowns[i])
    requires EncodeAll(unknowns) + last <= rest
    ensures EncodeAll([first] + unknowns) + last <= EncodeAttribute(first) + rest
  {
    EncodeCons(first, unknowns);
    hide *;
    Joined(EncodeAttribute(first), EncodeAll(unknowns), last, rest);
  }

  lemma EncodeCons(first: Attribute, unknowns: seq<Attribute>)
    requires WellFormed(first) && forall i :: 0 <= i < |unknowns| ==> WellFormed(unknowns[i])
    ensures EncodeAll([first] + unknowns) == EncodeAttribute(first) + EncodeAll(unknowns)
  {
    hide EncodeAttribute, WellFormed;
    assert ([first] + unknowns)[1..] == unknowns;
  }

  lemma Joined(a: Bytes, b: Bytes, c: Bytes, rest: Bytes)
    requires b + c <= rest
    ensures a + b + c <= a + rest
  {
    assert a + b + c == a + (b + c);
  }

  /** An answer is given only to a binding success response that carries the cookie and the request's transaction id,
      and it is the address written in that response, after unknown attributes only. */
  lemma AnswerWasWritten(data: Bytes, txn: Bytes) returns (unknowns: seq<Attribute>, last: Attribute, extra: Bytes)
    requires |txn| == 12 && Parse(data, txn).Success?
    ensures |data| >= HEADER_SIZE && data[0..2] == [0x01, 0x01] && data[4..8] == COOKIE && data[8..20] == txn
    ensures HEADER_SIZE + ReadU16(data[2..4]) <= |data|
    ensures forall i :: 0 <= i < |unknowns| ==> unknowns[i].Unknown? && WellFormed(unknowns[i])
    ensures !last.Unknown? && last.address == Parse(data, txn).value && 8 + |extra| < U16_SIZE
    ensures EncodeAll(unknowns) + EncodeLong(last, extra) <= data[HEADER_SIZE..HEADER_SIZE + ReadU16(data[2..4])]
  {
    hide Walk, EncodeAll, EncodeLong;
    unknowns, last, extra := WalkWasWritten(data[HEADER_SIZE..HEADER_SIZE + ReadU16(data[2..4])]);
  }
}
