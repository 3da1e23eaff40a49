/** `StoredEntry` and its binary form: `crates/ceky-dht/src/storage.rs`. */
module StoredEntries {
  import opened Bits
  import opened Wire
  import opened Wrappers
  import opened PeerIds

  type Key = PeerId

  datatype StoredEntry = StoredEntry(key: Key, value: Bytes, publisher: PeerId, expiresAt: U64)

  datatype DecodeError = TooShortForEntry | TooShortForValue

  const FIXED: nat := 76

  predicate Expired(e: StoredEntry, now: nat)
  {
    e.expiresAt <= now
  }

  /** Key, publisher, expiry, value length as a `u32`, value. */
  function Encode(e: StoredEntry): (s: Bytes)
    ensures |s| == FIXED + |e.value|
  {
    e.key + e.publisher + ToBE(e.expiresAt, 8) + ToBE(|e.value| % U32_SIZE, 4) + e.value
  }

  function Decode(s: Bytes): (r: Result<StoredEntry, DecodeError>)
  {
    if |s| < FIXED then Failure(TooShortForEntry)
    else
      var len := FromBE(s[72..76]);
      if |s| < FIXED + len then Failure(TooShortForValue)
      else
        ExpiryFits(s);
        Success(StoredEntry(s[0..32], s[76..76 + len], s[32..64], FromBE(s[64..72])))
  }

  lemma ExpiryFits(s: Bytes)
    requires |s| >= FIXED
    ensures FromBE(s[64..72]) < U64_SIZE
  {
    Pow256Constants();
    ToFromBE(s[64..72]);
  }

  lemma EncodedFields(e: StoredEntry)
    ensures var s := Encode(e);
            && s[0..32] == e.key && s[32..64] == e.publisher && s[76..] == e.value
            && s[64..72] == ToBE(e.expiresAt, 8) && s[72..76] == ToBE(|e.value| % U32_SIZE, 4)
  {
    hide ToBE;
  }

  /** What comes back from the encoding: the entry with its value cut at the length modulo 2^32. */
  lemma DecodeEncode(e: StoredEntry)
    ensures Decode(Encode(e)) == Success(e.(value := e.value[..|e.value| % U32_SIZE]))
  {
    hide ToBE, FromBE, Encode;
    var s := Encode(e);
    var len := |e.value| % U32_SIZE;
    EncodedFields(e);
    Pow256Constants();
    FromToBE(e.expiresAt, 8);
    FromToBE(len, 4);
    assert s[76..76 + len] == s[76..][..len];
  }

  /** The round trip returns the entry exactly when the value is shorter than 4 GiB. */
  lemma RoundTripIff(e: StoredEntry)
    ensures Decode(Encode(e)) == Success(e) <==> |e.value| < U32_SIZE
  {
    hide Encode, Decode;
    DecodeEncode(e);
    assert |e.value[..|e.value| % U32_SIZE]| == |e.value| % U32_SIZE;
    if |e.value| < U32_SIZE {
      assert e.value[..|e.value| % U32_SIZE] == e.value;
    }
  }

  /** A payload that decodes is the encoding of the result, followed by bytes that are ignored. */
  lemma EncodeDecode(s: Bytes)
    requires Decode(s).Success?
    ensures var e := Decode(s).value; |e.value| < U32_SIZE && Encode(e) <= s
  {
    hide ToBE, FromBE;
    var e := Decode(s).value;
    Pow256Constants();
    ToFromBE(s[64..72]);
    ToFromBE(s[72..76]);
    var n := FIXED + |e.value|;
    assert s[..n] == s[0..32] + s[32..64] + s[64..72] + s[72..76] + s[76..n];
  }
}
