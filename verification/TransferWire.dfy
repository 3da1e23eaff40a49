/** Binary form of the transfer messages: `crates/ceky-protocol/src/transfer.rs`. */
module TransferWire {
  import opened Bits
  import opened Wire
  import opened Wrappers

  const VERSION: Byte := 1
  const MAX_NAME: nat := 255
  const HASH_SIZE: nat := 32

  type Id = s: Bytes | |s| == 16 witness seq(16, _ => 0)
  type Hash = s: Bytes | |s| == HASH_SIZE witness seq(HASH_SIZE, _ => 0)

  datatype Offer = Offer(id: Id, name: Bytes, fileSize: U64, chunkSize: U32, totalChunks: U32, hash: Hash)

  datatype Accept = Accept(id: Id, resume: bool, missing: Bytes)

  datatype Chunk = Chunk(id: Id, index: U32, hash: Hash, data: Bytes)

  datatype WireError = TooShort | BadVersion(version: Byte) | BadField | BadName

  // ---------- Offers ----------

  const OFFER_FIXED: nat := 67

  function EncodeOffer(o: Offer): (s: Bytes)
    ensures |s| == OFFER_FIXED + |o.name|
  {
    [VERSION] + o.id + ToBE(o.fileSize, 8) + ToBE(o.chunkSize, 4) + ToBE(o.totalChunks, 4) + o.hash
    + ToBE(|o.name| % 0x1_0000, 2) + o.name
  }

  /** `utf8` tells which names are valid UTF-8. */
  function DecodeOffer(utf8: Bytes -> bool, s: Bytes): (r: Result<Offer, WireError>)
  {
    if |s| < OFFER_FIXED then Failure(TooShort)
    else if s[0] != VERSION then Failure(BadVersion(s[0]))
    else
      var n := FromBE(s[65..67]);
      if n > MAX_NAME then Failure(BadField)
      else if |s| < OFFER_FIXED + n then Failure(TooShort)
      else if !utf8(s[67..67 + n]) then Failure(BadName)
      else if FromBE(s[25..29]) == 0 then Failure(BadField)
      else
        OfferFits(s);
        Success(Offer(s[1..17], s[67..67 + n], FromBE(s[17..25]), FromBE(s[25..29]), FromBE(s[29..33]), s[33..65]))
  }

  lemma OfferFits(s: Bytes)
    requires |s| >= OFFER_FIXED
    ensures FromBE(s[17..25]) < U64_SIZE && FromBE(s[25..29]) < U32_SIZE && FromBE(s[29..33]) < U32_SIZE
  {
    Pow256Constants();
    ToFromBE(s[17..25]);
    ToFromBE(s[25..29]);
    ToFromBE(s[29..33]);
  }

  lemma OfferParts(o: Offer)
    ensures var s := EncodeOffer(o);
            && s[0] == VERSION && s[1..17] == o.id && s[17..25] == ToBE(o.fileSize, 8)
            && s[25..29] == ToBE(o.chunkSize, 4) && s[29..33] == ToBE(o.totalChunks, 4) && s[33..65] == o.hash
            && s[65..67] == ToBE(|o.name| % 0x1_0000, 2) && s[67..] == o.name
  {
    hide ToBE;
  }

  /** What the sender's `FileOffer::new` checks, and the text being text, is what the round trip needs. */
  lemma OfferRoundTripIff(utf8: Bytes -> bool, o: Offer)
    ensures DecodeOffer(utf8, EncodeOffer(o)) == Success(o) <==> o.chunkSize > 0 && |o.name| <= MAX_NAME && utf8(o.name)
  {
    hide ToBE, FromBE, EncodeOffer;
    var s := EncodeOffer(o);
    OfferParts(o);
    Pow256Constants();
    FromToBE(o.fileSize, 8);
    FromToBE(o.chunkSize, 4);
    FromToBE(o.totalChunks, 4);
    FromToBE(|o.name| % 0x1_0000, 2);
    if |o.name| <= MAX_NAME {
      assert s[67..67 + |o.name|] == s[67..];
    } else if DecodeOffer(utf8, s).Success? {
      assert |DecodeOffer(utf8, s).value.name| <= MAX_NAME;
    }
  }

  /** A payload that decodes is the encoding of the result, followed by bytes that are ignored. */
  lemma OfferIsEncoded(utf8: Bytes -> bool, s: Bytes)
    requires DecodeOffer(utf8, s).Success?
    ensures EncodeOffer(DecodeOffer(utf8, s).value) <= s
  {
    hide ToBE, FromBE;
    Pow256Constants();
    ToFromBE(s[17..25]);
    ToFromBE(s[25..29]);
    ToFromBE(s[29..33]);
    ToFromBE(s[65..67]);
    var n := OFFER_FIXED + FromBE(s[65..67]);
    assert s[..n] == [s[0]] + s[1..17] + s[17..25] + s[25..29] + s[29..33] + s[33..65] + s[65..67] + s[67..n];
  }

  // ---------- Acceptances ----------

  const ACCEPT_FIXED: nat := 22

  function NewAccept(id: Id, missing: Bytes): (r: Accept)
  {
    Accept(id, missing != [], missing)
  }

  function EncodeAccept(a: Accept): (s: Bytes)
    ensures |s| == ACCEPT_FIXED + |a.missing|
  {
    [VERSION] + a.id + [if a.resume then 1 else 0] + ToBE(|a.missing| % U32_SIZE, 4) + a.missing
  }

  function DecodeAccept(s: Bytes): (r: Result<Accept, WireError>)
  {
    if |s| < ACCEPT_FIXED then Failure(TooShort)
    else if s[0] != VERSION then Failure(BadVersion(s[0]))
    else
      var n := FromBE(s[18..22]);
      if s[17] == 0 && n != 0 then Failure(BadField)
      else if |s| < ACCEPT_FIXED + n then Failure(TooShort)
      else Success(Accept(s[1..17], s[17] != 0, s[22..22 + n]))
  }

  lemma AcceptParts(a: Accept)
    ensures var s := EncodeAccept(a);
            && s[0] == VERSION && s[1..17] == a.id && s[17] == (if a.resume then 1 else 0)
            && s[18..22] == ToBE(|a.missing| % U32_SIZE, 4) && s[22..] == a.missing
  {
    hide ToBE;
  }

  lemma AcceptRoundTripIff(a: Accept)
    ensures DecodeAccept(EncodeAccept(a)) == Success(a) <==>
            |a.missing| < U32_SIZE && (a.resume || a.missing == [])
  {
    hide ToBE, FromBE, EncodeAccept;
    var s := EncodeAccept(a);
    AcceptParts(a);
    Pow256Constants();
    FromToBE(|a.missing| % U32_SIZE, 4);
    if |a.missing| < U32_SIZE {
      assert s[22..22 + |a.missing|] == s[22..];
    } else if DecodeAccept(s).Success? {
      assert |DecodeAccept(s).value.missing| < U32_SIZE;
    }
  }

  /** So what `FileAccept::new` builds comes back whenever the bitmap is shorter than 4 GiB. */
  lemma NewAcceptRoundTrip(id: Id, missing: Bytes)
    requires |missing| < U32_SIZE
    ensures DecodeAccept(EncodeAccept(NewAccept(id, missing))) == Success(NewAccept(id, missing))
  {
    hide EncodeAccept, DecodeAccept;
    AcceptRoundTripIff(NewAccept(id, missing));
  }

  /** A payload that decodes is the encoding of the result, followed by bytes that are ignored, except that any
      non-zero resume byte is read like 1. */
  lemma AcceptIsEncoded(s: Bytes)
    requires DecodeAccept(s).Success?
    ensures |s| >= ACCEPT_FIXED && EncodeAccept(DecodeAccept(s).value) <= s[17 := if s[17] == 0 then 0 else 1]
  {
    hide ToBE, FromBE;
    Pow256Constants();
    ToFromBE(s[18..22]);
    var n := ACCEPT_FIXED + FromBE(s[18..22]);
    var t := s[17 := if s[17] == 0 then 0 else 1];
    assert t[..n] == [s[0]] + s[1..17] + [t[17]] + s[18..22] + s[22..n];
  }

  // ---------- Chunks ----------

  const CHUNK_FIXED: nat := 53

  function EncodeChunk(c: Chunk): (s: Bytes)
    ensures |s| == CHUNK_FIXED + |c.data|
  {
    [VERSION] + c.id + ToBE(c.index, 4) + c.hash + c.data
  }

  function DecodeChunk(s: Bytes): (r: Result<Chunk, WireError>)
  {
    if |s| < CHUNK_FIXED then Failure(TooShort)
    else if s[0] != VERSION then Failure(BadVersion(s[0]))
    else
      ChunkFits(s);
      Success(Chunk(s[1..17], FromBE(s[17..21]), s[21..53], s[53..]))
  }

  lemma ChunkFits(s: Bytes)
    requires |s| >= CHUNK_FIXED
    ensures FromBE(s[17..21]) < U32_SIZE
  {
    Pow256Constants();
    ToFromBE(s[17..21]);
  }

  /** Chunks and the payloads that decode to them correspond one to one. */
  lemma ChunkIff(c: Chunk, s: Bytes)
    ensures DecodeChunk(s) == Success(c) <==> s == EncodeChunk(c)
  {
    hide ToBE, FromBE;
    Pow256Constants();
    if s == EncodeChunk(c) {
      FromToBE(c.index, 4);
      assert s[0] == VERSION && s[1..17] == c.id && s[17..21] == ToBE(c.index, 4);
      assert s[21..53] == c.hash && s[53..] == c.data;
    } else if DecodeChunk(s).Success? {
      ToFromBE(s[17..21]);
      assert s == [s[0]] + s[1..17] + s[17..21] + s[21..53] + s[53..];
    }
  }
}
