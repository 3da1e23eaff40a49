# Verified model of ceky-p2p

A Dafny model of the protocol cores of ceky-p2p, a peer-to-peer node written in Rust, with proofs about every
input, every interleaving or every run of each core.

| part | modules | what is proved |
|---|---|---|
| file transfer | `Chunking`, `FileHash`, `Transfer`, `TransferRun`, `CleanTransfer`, `EarlyCompletion`, `StalledTransfer`, `OneRejection`, `TransferWire` | credit conservation, no chunk forgotten, termination with an explicit bound, exactly when the received file equals the sent one, exactly when a transfer can still finish, exactly what one rejected chunk costs, and an offer stands for one file |
| secure channel | `Replay`, `Session`, `Noise`, `KeyBinding`, `Dispatch`, `SecureChannel`, `ByteChannel`, `Draining`, `Crypto` | the replay bitmap is a set of nonces, nonces are distinct under concurrency, the handshake agrees through the node's dispatch, its keys and its hash stand for one set of secrets and messages, exactly what the node lets through, exactly which texts arrive, in order, down to the bytes in any pieces, and that from every state they can |
| frame codec | `Frames`, `Codec` | the resumable decoder equals a one-shot parser under every fragmentation, and the checksum covers the whole frame |
| Kademlia | `PeerIds`, `Nearest`, `Routing`, `Lookups` | bucket geometry, table invariants over all runs, lookups as a batch top-k |
| store | `StoredEntries`, `Store`, `StoreRefinement`, `StoreHistory`, `StoreCalls`, `LastPut` | for which entries every interleaving answers like a map of last puts, both ways, and exactly which rows there are, which a collection drops, and when a removed key stays away |
| STUN | `Stun` | the attribute walk returns exactly the encoded address, and only an address that was encoded |

`Bits`, `Wire`, `Sequences` and `Wrappers` hold bit operations on words, big- and little-endian integers, a sequence
helper and result types.

## How the model is built

Code that changes fields in place is a class (`ReplayWindow`, `SecureSession`, `TransferManager`, `FrameCodec`,
`NoiseHandshake`, `NodeLoop`, `IterativeLookup`, `RoutingTable`, `PersistentStore`). Its methods are proved equal
to a step function on values, and the theorems are about that function. Concurrency and networks are transition
systems: a run is any sequence of steps, a step that is not enabled changes nothing, and the invariant lemmas
quantify over all runs. Fixed-width arithmetic is written out: `u32` offsets and totals, `u64` counters that wrap,
bytes and words as bounded naturals.

SHA-256, CRC32C, ChaCha20-Poly1305 and X25519 are function values. Where needed they carry only their algebra:
opening inverts sealing, the two sides of a key agreement agree, hashes have 32 bytes, continuing a CRC is the CRC of
the concatenation. That a hash function has no known collisions is not assumed: the lemmas on what keys and hashes
stand for compute a collision from any exception. Random keys, the clock, the
file system's answers to reads and the database's content at start are parameters. The AEAD seal is total.
Theorems about sessions carry the source's own limits: nonces end at 2^48-1 and the counter wraps at 2^64, so the
channel theorems are about runs of fewer than 2^48-1 steps and the link theorems about fewer than 2^64 encryptions.

Where code and documentation disagree the model follows the code:

- The credit window is 50 (`crates/ceky-transfer/src/manager.rs:180`), not the 16 of `README.md:79`.
- The frame header has 21 bytes, not the 20 that `crates/ceky-protocol/src/lib.rs:13` and
  `crates/ceky-protocol/src/types.rs:202` mention.
- A bucket number is `byte * 8 + bit` of the leading difference, most significant byte first, not a logarithm of
  the distance as `crates/ceky-dht/src/routing.rs:9-12` says.
- The handshake is not the one of the Noise specification, and no conformance is claimed.

One place is read as meant, not as written. `handle_chunk_ack` calls `pump_send` while it still holds the map
entry (`crates/ceky-transfer/src/manager.rs:341-354`, taken again at `:362`), and such guards cannot be taken
twice. The model takes the nested call as a plain sequential one.

Properties one might expect and that fail are stated with the run that breaks them and the exact condition:

- Completion of a transfer counts deliveries, so a chunk can be counted twice while another is missing. At any time
  the file is right if and only if the disk held the missing chunks already (`TransferRun.FileRightIff`). If one
  copy of chunk i is rejected, completion has every chunk if and only if there are at most i + 50 chunks, whatever
  the interleaving (`OneRejection.OneRejectionIff`), and every file of more than 50 chunks has a run that loses its
  end (`OneRejection.LosesTheEnd`). Two rejections can spoil a file of three chunks (`EarlyCompletion`).
- A transfer can stop: every file has such a run (`StalledTransfer.StuckRun`). A transfer under way can still finish
  if and only if the chunks rejected and the spoilt chunks in flight are fewer than 50
  (`StalledTransfer.CanFinishIff`). The transfer of an empty file never completes
  (`CleanTransfer.EmptyFileNeverCompletes`).
- Chunk count and offsets are computed in 32 bits (`Chunking.BoundExamples`). The slices sent make up every file of a
  length if and only if both fit (`Chunking.RejoinsIff`).
- Each side greets the other with its peer id in an encrypted Ping, and the node has code to learn the id from it
  (`crates/ceky-node/src/node.rs:477-495`). The transport's reader swallows every Ping, so the greeting never arrives
  (`SecureChannel.GreetingNeverArrives`).
- A text of more than 16 MiB less 16 bytes is sealed and queued, but the encoder refuses its frame and the transport's
  writer ends there (`crates/ceky-transport/src/tcp.rs:184-187`). Neither it nor anything sent after it arrives
  (`SecureChannel.OversizeEnds`). Everything arrives if and only if every text up to the last one fits
  (`SecureChannel.AllArriveIff`).
- The store answers like a map of last puts if and only if no two visible entries share a key
  (`LastPut.ReliableIff`): a get that fills the cache late brings back an overwritten entry
  (`LastPut.LateFillReturnsOlder`).
- A removed key can come back without a new put: an earlier put still on its way to the database, or a get about to
  fill the cache, restores it. It stays away if and only if there is none (`StoreCalls.RemovedForGoodIff`).
- Renewing a key with a later expiry lets the collector drop the fresh row (`StoreRefinement.RenewedEntryDropped`). A
  row is dropped if and only if some flushed put of its key, not collected since, is due
  (`StoreHistory.RowDroppedIff`).

`dafny verify dfyconfig.toml` checks the whole project.

## Model

| member | source | states |
|---|---|---|
| `Replay.FreshIff` | crates/ceky-crypto/src/session.rs:61-91 | The acceptance rule unfolded: new iff never presented before and above the largest nonce presented less 256, stated over the whole history of calls |
| `Replay.PresentedButRejected` | crates/ceky-crypto/src/session.rs:77-81 | A presented nonce that was never accepted lies below the window for good |
| `Replay.ShiftedMoves` | crates/ceky-crypto/src/session.rs:93-124 | The word and bit loops together move every one of the 256 bits by exactly the amount, for every amount, losing those pushed out and filling with zero |
| `Replay.ReplayWindow.ShiftLeft` | crates/ceky-crypto/src/session.rs:93-124 | The in-place reverse loops compute that shift |
| `Replay.ReplayWindow.constructor` | crates/ceky-crypto/src/session.rs:53-58 | The zeroed window stands for the empty history |
| `Replay.ReplayWindow.CheckAndMark` | crates/ceky-crypto/src/session.rs:61-91 | The bitmap keeps agreeing with the set of accepted nonces and the answer is exactly membership in that specification |
| `Replay.RunWindow` | crates/ceky-crypto/src/session.rs:61-124 | For every sequence of nonces, every answer of the real window is the specification's |
| `Replay.AcceptedAtMostOnce` | crates/ceky-crypto/src/session.rs:82-89 | A second presentation of a nonce is never accepted |
| `Replay.ReorderingWithinWindow` | crates/ceky-crypto/src/session.rs:61-91 | All of a sequence is accepted iff its nonces are distinct and none is 256 or more behind an earlier one |
| `Crypto.BuildNonceInjective` | crates/ceky-crypto/src/session.rs:262-266 | Different counters give different 12-byte nonces |
| `Session.SecureSession.FromKeys` | crates/ceky-crypto/src/session.rs:129-148 | A new session starts at counter zero with an empty window and the given keys |
| `Session.SecureSession.Encrypt` | crates/ceky-crypto/src/session.rs:155-199 | One counter value is consumed by every call, failing ones too, and the packet is sealed under exactly that value or refused past 2^48-1 |
| `Session.SecureSession.Decrypt` | crates/ceky-crypto/src/session.rs:202-258 | The nonce is recorded before authentication; the result is replay exactly when it was not fresh, else what opening gives; the receive maximum moves only on success |
| `Session.ExchangeInOrder` | crates/ceky-crypto/src/session.rs:155-258 | For any delivery order with repetitions, each delivery opens to its own plaintext iff it is in time, else it is reported as a replay |
| `Session.LinkSafety` | crates/ceky-crypto/src/session.rs:155-266 | In every interleaving of concurrent encrypts and decrypts: nonces at most 2^48-1, no two packets share an AEAD nonce, no nonce is delivered twice, and a delivered packet gives the text of the call that made it |
| `Session.PacketDelivered` | crates/ceky-crypto/src/session.rs:202-227 | In every reachable state a genuine packet is delivered iff its nonce was not presented and is less than 256 behind all presented ones |
| `Session.NoncesDistinctIff` | crates/ceky-crypto/src/session.rs:156 | The first n draws of the wrapping counter are distinct iff n is at most 2^64 |
| `Chunking.SetMissingAt` | crates/ceky-protocol/src/transfer.rs:450-471 | Setting one bit changes that index and no other, and is ignored beyond the bitmap |
| `Chunking.AllMissingIsMissing` | crates/ceky-protocol/src/transfer.rs:446-457 | An all-ones bitmap of `bitmap_len` bytes marks every index missing |
| `Chunking.MissingFromIsFilter` | crates/ceky-protocol/src/transfer.rs:450-457 | The scan lists exactly the missing indices of a range, increasing |
| `Chunking.ClearedStep` | crates/ceky-protocol/src/transfer.rs:459-471 | Clearing a bit raises the count of cleared bits by one iff it was set and in range |
| `Chunking.OffsetExact` | crates/ceky-transfer/src/manager.rs:366-373 | Within the 32-bit bound the wrapping offset is the true one and lies inside the file |
| `Chunking.SliceBytes` | crates/ceky-transfer/src/manager.rs:366-373 | Every byte of the file is in exactly the slice of its chunk, at its place |
| `Chunking.OffsetsExactIff` | crates/ceky-transfer/src/manager.rs:366 | The 32-bit count and all 32-bit offsets are the true ones iff both fit, for every length and chunk size |
| `Chunking.BoundExamples` | crates/ceky-protocol/src/transfer.rs:473-479 | A length whose last offset wraps to 0, and one whose chunks are counted as none |
| `Chunking.RejoinsIff` | crates/ceky-transfer/src/manager.rs:364-373 | The slices of all chunks sent make up the file, for every file of a length, iff count and offsets fit in 32 bits |
| `FileHash.FillBuffer` | crates/ceky-transfer/src/merkle.rs:28-36 | Under any schedule of short, interrupted and failing reads the buffer is the next bytes of the file, full unless the file ends |
| `FileHash.CalculateFileHash` | crates/ceky-transfer/src/merkle.rs:22-50 | The hash is independent of the read schedule and fails only if a read fails |
| `FileHash.PiecesAreSentSlices` | crates/ceky-transfer/src/merkle.rs:22-50 | The pieces hashed are, one by one, the slices the sender transmits, and their number is `compute_total_chunks` |
| `FileHash.RootHashBinds` | crates/ceky-transfer/src/merkle.rs:22-50 | Two different files, of any lengths and chunk sizes, have different root hashes, or a collision of the hash function is computed from them |
| `Transfer.PumpIsFilter` | crates/ceky-transfer/src/manager.rs:361-399 | For any bitmap the loop emits the first min(credits, missing) missing indices from the cursor and leaves the exact remainder of both |
| `Transfer.PumpStops` | crates/ceky-transfer/src/manager.rs:364 | It stops only for want of credits or chunks and never moves the cursor back |
| `Transfer.GrantsAnySplit` | crates/ceky-transfer/src/manager.rs:212-233 | Any split of credits over updates emits the same indices and leaves the same credits as one grant |
| `Transfer.OfferBinds` | crates/ceky-transfer/src/manager.rs:97-98 | The offers of two different files carry different hashes, or the hash function collides |
| `Transfer.SendsWhatIsAccepted` | crates/ceky-transfer/src/manager.rs:199-233 | After an acceptance with any bitmap a grant sends the first min(credits, marked) chunks that the bitmap marks from the cursor on, with their bytes and hashes |
| `Transfer.RejectedIsResent` | crates/ceky-transfer/src/manager.rs:340-358 | A rejected chunk goes out again before any other, with the rejection if there are credits and else with the next grant, whatever the bitmap said of it |
| `Transfer.TransferManager.constructor` | crates/ceky-transfer/src/manager.rs:41-48 | No transfers and nothing queued |
| `Transfer.TransferManager.OfferFile` | crates/ceky-transfer/src/manager.rs:70-130 | I/O failure, chunk size zero and a long name are refused in that order without any change; else the new entry and the offer, from whose size, chunk size and count the receiver of `TransferRun` builds its file |
| `Transfer.TransferManager.HandleOffer` | crates/ceky-transfer/src/manager.rs:133-196 | An I/O failure changes nothing; else the receiving entry over the file cut or extended with zeros to the offered size, the acceptance of everything and the 50 credits |
| `Transfer.TransferManager.HandleAccept` | crates/ceky-transfer/src/manager.rs:199-209 | Succeeds iff the id names a sending entry; only that entry changes |
| `Transfer.TransferManager.HandleCreditUpdate` | crates/ceky-transfer/src/manager.rs:212-233 | Credits are added modulo 2^32 and the send loop runs; other entries and ids are untouched |
| `Transfer.TransferManager.HandleChunkAck` | crates/ceky-transfer/src/manager.rs:340-358 | A bad hash marks the chunk missing and rewinds the cursor, then the send loop runs; other entries are untouched |
| `Transfer.TransferManager.PumpSend` | crates/ceky-transfer/src/manager.rs:361-405 | The loop over the entry's credits and cursor queues exactly the frames of the filter's indices |
| `Transfer.TransferManager.HandleChunk` | crates/ceky-transfer/src/manager.rs:236-337 | The in-place steps (hash test, offset, overwrite, bit, counter, sends, removal) give the entry, the frames in order and the result that the per-transfer verdict prescribes, and touch no other entry |
| `TransferRun.StoreOk` | crates/ceky-transfer/src/manager.rs:264-271 | Storing an intact chunk puts its bytes in place, inside the file sized by the offer; every byte stays the source's or, while its chunk is missing, the disk's |
| `TransferRun.HandleResponds` | crates/ceky-transfer/src/manager.rs:340-405 | What any frame from the receiver makes the sender send and keep |
| `TransferRun.RunInv` | crates/ceky-transfer/src/manager.rs:133-405 | The protocol invariant holds in every run of sender, channels and receiver, whatever data or hashes of chunks are corrupted |
| `TransferRun.CreditConservation` | crates/ceky-transfer/src/manager.rs:178-193 | In every reachable state credits + chunks in flight + credit units in flight + chunks consumed without a credit = 50, so nothing exceeds the window and no addition overflows |
| `TransferRun.NoChunkForgotten` | crates/ceky-transfer/src/manager.rs:340-399 | While the receiver waits, every chunk is ahead of the cursor, in flight, being nacked, or held |
| `TransferRun.AtRest` | crates/ceky-transfer/src/manager.rs:244-305 | A run with empty channels has finished, or has lost all 50 credits to rejected chunks; `StalledTransfer.CanFinishIff` is the exact condition |
| `TransferRun.CompletionIff` | crates/ceky-transfer/src/manager.rs:271-304 | At completion every bit is clear iff no delivery was a repeat, and the file is the sender's iff the disk held the missing chunks already |
| `TransferRun.FileRightIff` | crates/ceky-transfer/src/manager.rs:264-271 | In every reachable state the file is the sender's iff the disk agreed with it wherever a chunk is marked missing |
| `TransferRun.PotentialStep` | crates/ceky-transfer/src/manager.rs:236-405 | A potential drops at every delivery and never rises |
| `TransferRun.RunsTerminate` | crates/ceky-transfer/src/manager.rs:236-405 | No run makes more than 255 deliveries per chunk plus 3, whatever data or hashes of chunks are corrupted; the index, which the hash does not cover, is not |
| `CleanTransfer.CleanRunIsFaithful` | crates/ceky-transfer/src/manager.rs:236-405 | Without corruption chunks go out once each in order, the received count is the number of cleared bits, and at completion the files are equal |
| `CleanTransfer.CleanRunNeverStuck` | crates/ceky-transfer/src/manager.rs:178-233 | Without corruption a run whose channels are empty has completed with the right file |
| `CleanTransfer.EmptyFileNeverCompletes` | crates/ceky-transfer/src/manager.rs:302-304 | No run of an empty file completes |
| `EarlyCompletion.CompletesEarly` | crates/ceky-transfer/src/manager.rs:340-358 | For every three-chunk file a run that rejects chunk 0 twice completes with chunk 0 never stored |
| `EarlyCompletion.WrongFileExample` | crates/ceky-transfer/src/manager.rs:302-304 | A concrete three-byte file and run to a new file that completes with other content |
| `StalledTransfer.StuckRun` | crates/ceky-transfer/src/manager.rs:244-261 | Every transfer has a run after which nothing is in flight, nothing was stored, and no continuation finishes |
| `StalledTransfer.DoomedForever` | crates/ceky-transfer/src/manager.rs:236-405 | Once 50 credits are burnt or about to be, every continuation leaves the receiver's entry as it is |
| `StalledTransfer.FinishFrom` | crates/ceky-transfer/src/manager.rs:236-405 | From every other state under way, plain deliveries finish the transfer |
| `StalledTransfer.CanFinishIff` | crates/ceky-transfer/src/manager.rs:236-405 | A transfer under way has a finishing continuation iff rejected and spoilt chunks are fewer than 50 |
| `OneRejection.CursorAtRejection` | crates/ceky-transfer/src/manager.rs:340-358 | The one rejection, of chunk i, always finds the cursor at min(total, i + 50) |
| `OneRejection.OneRejectionLoses` | crates/ceky-transfer/src/manager.rs:244-405 | In every run with one corrupted copy of chunk i: it cannot stop before completion, and then exactly the chunks from max(i + 50, total - 49) on are missing |
| `OneRejection.OneRejectionIff` | crates/ceky-transfer/src/manager.rs:244-405 | Completion then has every chunk iff total <= i + 50, whatever the interleaving, and the file is right iff the disk held the rest |
| `OneRejection.LosesTheEnd` | crates/ceky-transfer/src/manager.rs:340-358 | Every file of more than 50 chunks has a run with a single rejection that completes without its last chunk |
| `TransferWire.OfferRoundTripIff` | crates/ceky-protocol/src/transfer.rs:61-140 | An offer survives the wire iff its chunk size is positive and its name is valid text of at most 255 bytes |
| `TransferWire.OfferIsEncoded` | crates/ceky-protocol/src/transfer.rs:102-140 | Whatever decodes is an encoding followed by ignored bytes |
| `TransferWire.AcceptRoundTripIff` | crates/ceky-protocol/src/transfer.rs:160-195 | An acceptance survives iff its bitmap is under 4 GiB and empty unless flagged as resume |
| `TransferWire.AcceptIsEncoded` | crates/ceky-protocol/src/transfer.rs:172-195 | What decodes starts with the encoding of the result, any non-zero resume byte counting as 1 |
| `TransferWire.NewAcceptRoundTrip` | crates/ceky-protocol/src/transfer.rs:151-195 | What the constructor builds survives for every bitmap under 4 GiB |
| `TransferWire.ChunkIff` | crates/ceky-protocol/src/transfer.rs:264-296 | Chunks and the payloads that decode to them correspond one to one |
| `Frames.TypeByteRoundTrip` | crates/ceky-protocol/src/types.rs:53-88 | Every message type comes back from its byte |
| `Frames.ByteTypeRoundTrip` | crates/ceky-protocol/src/types.rs:53-88 | Every known byte comes back from its type |
| `Codec.FrameCodec.DecodeNext` | crates/ceky-protocol/src/codec.rs:103-178 | The decoding loop computes the two-state step on state and buffer |
| `Codec.FrameCodec.EncodeFrame` | crates/ceky-protocol/src/codec.rs:184-215 | Appends the frame's encoding, or refuses it and leaves the output alone |
| `Codec.DecodeIsFirstFrame` | crates/ceky-protocol/src/codec.rs:103-178 | In every consistent state one call agrees with a stateless parse of the first frame, consumes exactly it, and keeps the pending header at the front of the buffer |
| `Codec.FirstFrameStable` | crates/ceky-protocol/src/codec.rs:57-96 | Once decided, a first frame or an error is not changed by later bytes |
| `Codec.ErrorSticks` | crates/ceky-protocol/src/codec.rs:112-162 | After an error every later call gives the same error, whatever arrives |
| `Codec.ParseAppend` | crates/ceky-protocol/src/codec.rs:103-178 | Parsing a stream in two parts is parsing it whole |
| `Codec.Drain` | crates/ceky-protocol/src/codec.rs:103-178 | Calling the decoder until it stops yields the parse of the buffer and keeps its unread rest |
| `Codec.ReadStream` | crates/ceky-protocol/src/codec.rs:103-178 | For any stream and any split into reads, the frames and final status are those of the one-shot parser |
| `Codec.ParseEncoded` | crates/ceky-protocol/src/codec.rs:184-215 | Encoded frames of at most 16 MiB parse back to themselves with checksums filled in |
| `Codec.LengthWraps` | crates/ceky-protocol/src/codec.rs:185-188 | A payload of 4 GiB or more whose length modulo 2^32 is small is encoded, and not read back |
| `Codec.ParsedIsEncoded` | crates/ceky-protocol/src/codec.rs:57-96 | Conversely, an accepted stream is exactly the encodings of its frames and the unread rest |
| `Codec.ChecksumCoversFrame` | crates/ceky-protocol/src/codec.rs:40-54 | A frame that is all there is accepted iff its checksum field is the CRC of all its other bytes, header and payload; else the mismatch is the error |
| `Codec.HeaderAcceptedIff` | crates/ceky-protocol/src/codec.rs:57-96 | 21 bytes decode to a header iff they are its wire form; an error names the first wrong field and its value |
| `Codec.SendAndReceive` | crates/ceky-protocol/src/codec.rs:103-215 | Sender and fragmented receiver end to end |
| `Noise.HmacSha256` | crates/ceky-crypto/src/noise.rs:590-620 | The pad loops compute HMAC as in section 2 of RFC 2104 |
| `Noise.NoiseHandshake.constructor` | crates/ceky-crypto/src/noise.rs:116-145 | Both roles start from the same hash and chaining key |
| `Noise.NoiseHandshake.CreateMessage1` | crates/ceky-crypto/src/noise.rs:195-226 | State and result of the first message step, wrong role and wrong state included |
| `Noise.NoiseHandshake.ProcessMessage1` | crates/ceky-crypto/src/noise.rs:229-289 | State and result of reading message 1 and writing message 2; what they are made of is `KeyBinding.Write2Stands` |
| `Noise.NoiseHandshake.ProcessMessage2` | crates/ceky-crypto/src/noise.rs:292-374 | State and result of reading message 2 and writing message 3; `KeyBinding.Read2Stands` and `KeyBinding.Write3Stands` say of what |
| `Noise.NoiseHandshake.ProcessMessage3` | crates/ceky-crypto/src/noise.rs:377-497 | State and result of reading message 3; `KeyBinding.Read3Stands` says of what |
| `Noise.Message1Agrees` | crates/ceky-crypto/src/noise.rs:195-243 | After message 1 both sides hold the same hash and chaining key |
| `Noise.Message2Agrees` | crates/ceky-crypto/src/noise.rs:229-343 | Message 2 opens, gives the responder's static key, and hash and chaining key agree |
| `Noise.Message3Agrees` | crates/ceky-crypto/src/noise.rs:292-497 | Message 3 opens, gives the initiator's static key, and each side's send key is the other's receive key |
| `KeyBinding.HmacBinds` | crates/ceky-crypto/src/noise.rs:590-620 | Equal HMACs under 32-byte keys have equal keys and data, or yield a collision |
| `KeyBinding.HkdfIsRfc5869` | crates/ceky-crypto/src/noise.rs:157-171 | The derivation is Extract and Expand of RFC 5869 with empty info and 64 bytes of output |
| `KeyBinding.HkdfBinds` | crates/ceky-crypto/src/noise.rs:157-171 | Equal outputs of two derivations have the same salt, input and place among the outputs, or yield a collision |
| `KeyBinding.ChainBinds` | crates/ceky-crypto/src/noise.rs:157-171 | Equal chaining keys come from the same inputs in the same order, or yield a collision |
| `KeyBinding.TranscriptBinds` | crates/ceky-crypto/src/noise.rs:148-154 | Equal handshake hashes come from the same messages in the same order, or yield a collision |
| `KeyBinding.Write2Stands` | crates/ceky-crypto/src/noise.rs:229-289 | Message 2 is the ephemeral key, the static key sealed under `ee` and an empty box sealed under `ee` and `es`, each bound to everything before it |
| `KeyBinding.Read2Stands` | crates/ceky-crypto/src/noise.rs:292-343 | Reading it opens the same boxes with the same keys and the same bound messages |
| `KeyBinding.Write3Stands` | crates/ceky-crypto/src/noise.rs:344-374 | Message 3 is the static key sealed under the next key; the session keys are derived after `se` is mixed in, the first for sending |
| `KeyBinding.Read3Stands` | crates/ceky-crypto/src/noise.rs:377-497 | Reading it opens that box, and the session keys come in the other order |
| `KeyBinding.SessionKeyBinds` | crates/ceky-crypto/src/noise.rs:195-497 | Two finished handshakes of any roles that hold the same session key hold it for the same direction and have the same `ee`, `es` and `se`, or yield a collision |
| `KeyBinding.HandshakeHashBinds` | crates/ceky-crypto/src/noise.rs:195-497 | Two finished handshakes with the same handshake hash have seen the same three messages, or yield a collision |
| `Dispatch.NodeLoop.HandleEvent` | crates/ceky-node/src/node.rs:336-424 | Removing, advancing and putting back entries give the peer map and the frames sent; data is handed over iff the frame is let through, in the terms of `DataOutIff` |
| `Dispatch.EntryMoves` | crates/ceky-node/src/node.rs:358-420 | For every event and peer: where an entry may move, that Secure survives stray handshake frames, and that other peers' entries are untouched |
| `Dispatch.SecureOnlyThroughHandshake` | crates/ceky-node/src/node.rs:358-420 | In every event history an entry is Secure only after WaitMsg2, or WaitMsg1 then WaitMsg3 |
| `Dispatch.DataOutIff` | crates/ceky-node/src/node.rs:421-424 | For every table and event: data comes out iff the frame is no handshake, its sender secure, its encryption flag set, its request id never presented and less than 256 behind all presented ones, and its payload opens to that data |
| `Dispatch.HistoryStep` | crates/ceky-crypto/src/session.rs:202-230 | A frame is presented to its sender's window whether or not it opens; keys, counter and other windows stay |
| `Dispatch.NoReplayReachesApplication` | crates/ceky-node/src/node.rs:421-424 | In every event history, while a peer stays secure, each request id hands over data at most once |
| `SecureChannel.RunInv` | crates/ceky-node/src/node.rs:232-424 | The stage invariant holds in every run of two nodes, their transport writers and readers, with unrelated peers' events interleaved |
| `SecureChannel.HandshakeSucceeds` | crates/ceky-node/src/node.rs:336-424 | When nothing but heartbeats is in flight both entries are Secure with mirrored keys and the other's static key |
| `SecureChannel.ChannelDelivers` | crates/ceky-transport/src/tcp.rs:180-231 | Each node decrypts, in order and once each, a prefix of the texts that precede the first oversize one and are not sent as Ping or Pong, and all of those once nothing else is in flight |
| `SecureChannel.PostedIs` | crates/ceky-transport/src/tcp.rs:182-190 | What gets past the writer is exactly what precedes the first text too large for a frame |
| `SecureChannel.AllArriveIff` | crates/ceky-transport/src/tcp.rs:180-231 | At rest a node has every text that was no heartbeat iff each of them and all before it have at most 16 MiB less 16 bytes |
| `SecureChannel.OversizeEnds` | crates/ceky-transport/src/tcp.rs:182-190 | After an oversize text, whatever happens, the peer gets nothing but what was sent before it |
| `SecureChannel.GreetingNeverArrives` | crates/ceky-transport/src/tcp.rs:207-223 | Each side's first text is its id in a Ping, and no node's window is ever shown its number or that of any Ping or Pong |
| `SecureChannel.KeptIs` | crates/ceky-transport/src/tcp.rs:207-231 | The texts that get through are exactly those of other types, in order |
| `ByteChannel.WriteOk` | crates/ceky-transport/src/tcp.rs:182-190 | Writing a frame as bytes, or ending at one the encoder refuses, leaves the frames in flight as they were |
| `ByteChannel.TakeOk` | crates/ceky-transport/src/tcp.rs:200-231 | However the stream was cut, the decoder never fails and takes the next frame or waits |
| `ByteChannel.RunSimulates` | crates/ceky-transport/src/tcp.rs:155-260 | Every run over byte streams in arbitrary pieces is a run of the frame channel |
| `ByteChannel.BytesDeliver` | crates/ceky-transport/src/tcp.rs:155-260 | So through encoder, byte stream, decoder, reader, window and cipher the same texts arrive, and both ends are secure once drained |
| `Draining.Progress` | crates/ceky-transport/src/tcp.rs:184-260 | In any state with something to accept, handle or read, doing so lowers a weight of the frames in flight and the handshake steps to come |
| `Draining.CanDrain` | crates/ceky-transport/src/tcp.rs:184-260 | From every reachable state of the byte channel, reading and handling alone drain it in at most three steps per unit of weight |
| `Draining.EverythingCanArrive` | crates/ceky-node/src/node.rs:336-424 | So from every reachable state both sides can become secure and get every text posted, without a further send |
| `PeerIds.ComputeXorDistance` | crates/ceky-crypto/src/identity.rs:40-46 | The byte loop computes the XOR distance |
| `PeerIds.FindBucketIndex` | crates/ceky-crypto/src/identity.rs:51-60 | The early-return loop computes the bucket number, none exactly for equal ids |
| `PeerIds.BucketIsLeadingDiff` | crates/ceky-crypto/src/identity.rs:51-60 | The bucket is i iff the leading differing bit is bit i mod 8 of byte i div 8 |
| `PeerIds.LexIsNumeric` | crates/ceky-dht/src/routing.rs:328 | Comparing distance arrays is comparing the numbers they spell |
| `PeerIds.DistanceInjective` | crates/ceky-crypto/src/identity.rs:40-46 | Distances to one target tell ids apart |
| `PeerIds.SameBucketIsCloser` | crates/ceky-crypto/src/identity.rs:40-60 | Two ids in one bucket are closer to each other than either is to the local id |
| `PeerIds.TargetInBucket` | crates/ceky-dht/src/bootstrap.rs:132-162 | The local id with bit i flipped is in bucket i, whatever its lower bytes become; so every bucket is reached |
| `PeerIds.GenerateBucketFillTargets` | crates/ceky-dht/src/bootstrap.rs:132-162 | Target number i falls in bucket i * 256 / lookups |
| `PeerIds.StaleTargetsInBuckets` | crates/ceky-dht/src/bootstrap.rs:213-233 | Each refresh target falls in its stale bucket |
| `Nearest.SortBySorts` | crates/ceky-dht/src/routing.rs:328 | The sort yields an ascending permutation |
| `Nearest.NearestUnique` | crates/ceky-dht/src/operations.rs:111-115 | At most one list is the nearest n of a set |
| `Nearest.NearestInsert` | crates/ceky-dht/src/operations.rs:96-116 | Insert and truncate keeps the nearest n, also for an element dropped earlier |
| `Routing.FindEvictionCandidate` | crates/ceky-dht/src/routing.rs:126-152 | The scan finds the first of the lowest-scored dead or suspect peers, none iff there are none |
| `Routing.InsertOrUpdate` | crates/ceky-dht/src/routing.rs:97-123 | The four outcomes of a bucket insertion |
| `Routing.RoutingTable.constructor` | crates/ceky-dht/src/routing.rs:207-217 | 256 empty buckets, which are valid |
| `Routing.RoutingTable.Insert` | crates/ceky-dht/src/routing.rs:235-276 | Answer and new table, invariant kept |
| `Routing.RoutingTable.Remove` | crates/ceky-dht/src/routing.rs:279-291 | Returns what `get` would; afterwards the id is not found and the counter is lower by one iff it was |
| `Routing.RoutingTable.Mark` | crates/ceky-dht/src/routing.rs:365-376 | Changes state and perhaps score of that entry; `MarkMembers` says what stays |
| `Routing.RoutingTable.EvictDead` | crates/ceky-dht/src/routing.rs:379-392 | The bucket loop drops what it should, counts it, and never underflows the counter |
| `Routing.RoutingTable.FindClosest` | crates/ceky-dht/src/routing.rs:315-335 | The nested loops, sort and take return the nearest usable peers |
| `Routing.RunValid` | crates/ceky-dht/src/routing.rs:235-392 | Every run of insertions, removals, marks and evictions keeps the invariant |
| `Routing.ReachableTables` | crates/ceky-dht/src/routing.rs:197-392 | In every reachable table ids are unique, the local id is absent, and the counter is the sum of bucket sizes, at most 5120 |
| `Routing.GetIff` | crates/ceky-dht/src/routing.rs:294-300 | A peer is in the table iff `get` of its id returns it |
| `Routing.BucketFullIff` | crates/ceky-dht/src/routing.rs:270-274 | Insertion fails iff the id is new and its bucket holds 20 usable peers, and then changes nothing |
| `Routing.InsertMembers` | crates/ceky-dht/src/routing.rs:97-123 | As a set of peers the table loses exactly the displaced entry and gains exactly the new one |
| `Routing.DisplacedIsWorst` | crates/ceky-dht/src/routing.rs:115-152 | A displaced other peer is dead or suspect, the lowest-scored such in a full bucket |
| `Routing.UsableLeavesOnlyByRemove` | crates/ceky-dht/src/routing.rs:235-392 | No operation but its own removal takes a usable peer out |
| `Routing.InsertedStays` | crates/ceky-dht/src/routing.rs:235-392 | In every run a peer accepted as new stays in the table, usable, until it is removed or marked suspect or dead |
| `Routing.RemoveMembers` | crates/ceky-dht/src/routing.rs:279-291 | Exactly the peer with the id goes, all others stay as they are, and the counter follows |
| `Routing.MarkMembers` | crates/ceky-dht/src/routing.rs:365-376 | The entry gets the state and, if given, the score; every other member and an absent id stay as they are |
| `Routing.EvictDeadMembers` | crates/ceky-dht/src/routing.rs:379-392 | Exactly the dead peers go |
| `Routing.ClosestIsNearest` | crates/ceky-dht/src/routing.rs:315-335 | The result is strictly sorted, has min(count, usable) peers, and no usable outsider is closer |
| `Lookups.IterativeLookup.constructor` | crates/ceky-dht/src/operations.rs:78-93 | Seeds are added one by one to an empty lookup |
| `Lookups.IterativeLookup.Add` | crates/ceky-dht/src/operations.rs:96-116 | Push, sort and truncate compute the step, duplicates ignored |
| `Lookups.IterativeLookup.ProcessResponses` | crates/ceky-dht/src/operations.rs:142-163 | The loop adds all responses in order |
| `Lookups.IterativeLookup.NextToQuery` | crates/ceky-dht/src/operations.rs:119-139 | The batch, the queried set, the round and the converged flag |
| `Lookups.IterativeLookup.Result` | crates/ceky-dht/src/operations.rs:171-182 | After any run so far, the 20 nearest ids offered, as a prefix of the known entries, with the two counters |
| `Lookups.KnownIsNearest` | crates/ceky-dht/src/operations.rs:96-163 | After any run the known ids are the 60 nearest distinct ids ever offered, strictly sorted |
| `Lookups.OrderDoesNotMatter` | crates/ceky-dht/src/operations.rs:96-163 | Runs that offered the same ids know the same list, whatever the order, repetition and queries |
| `Lookups.AddressesWereOffered` | crates/ceky-dht/src/operations.rs:102-107 | Every known entry has an address it was offered with |
| `Lookups.ResultIsNearest` | crates/ceky-dht/src/operations.rs:171-182 | The result is the 20 nearest ids ever offered |
| `Lookups.BatchIsNearestUnqueried` | crates/ceky-dht/src/operations.rs:119-127 | A batch is the three nearest known ids never queried |
| `Lookups.BatchesDisjoint` | crates/ceky-dht/src/operations.rs:119-139 | Over a whole run no id is queried twice, and both counters are exact |
| `Lookups.RoundsBounded` | crates/ceky-dht/src/operations.rs:119-139 | At most one non-empty round per distinct id offered |
| `Lookups.EmptyBatchIff` | crates/ceky-dht/src/operations.rs:128-130 | A batch is empty iff every known peer has been queried |
| `Lookups.EmptyBatchMeansDone` | crates/ceky-dht/src/operations.rs:128-182 | Then the 20 nearest ids ever offered have all been queried |
| `StoredEntries.DecodeEncode` | crates/ceky-dht/src/storage.rs:53-93 | What comes back from the encoding, with the value cut at its length modulo 2^32 |
| `StoredEntries.RoundTripIff` | crates/ceky-dht/src/storage.rs:53-93 | The round trip is exact iff the value is under 4 GiB |
| `StoredEntries.EncodeDecode` | crates/ceky-dht/src/storage.rs:64-93 | Whatever decodes is an encoding followed by ignored bytes |
| `Store.PersistentStore.constructor` | crates/ceky-dht/src/storage.rs:113-139 | An opened store has an empty cache and queue over the database's content |
| `Store.PersistentStore.Put` | crates/ceky-dht/src/storage.rs:261-265 | Cache and queue change, the database does not |
| `Store.PersistentStore.GatherBatch` | crates/ceky-dht/src/storage.rs:145-162 | The batch is a prefix of the queue of at most 100 entries, nothing lost or reordered |
| `Store.PersistentStore.WriteBatch` | crates/ceky-dht/src/storage.rs:168-189 | The transaction loop writes all index entries and all rows, and the last entry of each key in the batch is the row |
| `Store.PersistentStore.Collect` | crates/ceky-dht/src/storage.rs:204-247 | Exactly the due index entries go, with the rows and cache entries of their keys |
| `Store.PersistentStore.Get` | crates/ceky-dht/src/storage.rs:268-294 | Answer from the cache or the decoded row, none if expired or malformed, and the cache is filled only after a disk hit |
| `Store.PersistentStore.Remove` | crates/ceky-dht/src/storage.rs:297-314 | Cache entry and row go, the index entry stays |
| `Store.RunSound` | crates/ceky-dht/src/storage.rs:142-314 | In every interleaving, re-puts, removals and restarts included, each row has its expiry in the index |
| `Store.NoExpiredRowLeft` | crates/ceky-dht/src/storage.rs:209-247 | So a collection begun at a time leaves no row expired by then |
| `Store.RowSurvivesIff` | crates/ceky-dht/src/storage.rs:217-240 | A row survives a collection iff no index entry of its key, fresh or stale, is due |
| `Store.LastOfBatch` | crates/ceky-dht/src/storage.rs:175-181 | After a batch a key has the row of its last entry in the batch |
| `Store.NotInBatch` | crates/ceky-dht/src/storage.rs:175-181 | A key that the batch does not have keeps its old row |
| `Store.ReadsBackLast` | crates/ceky-dht/src/storage.rs:175-181 | A disk lookup then gives that entry, its value cut at the length modulo 2^32, unless expired |
| `StoreHistory.IndexIsHistory` | crates/ceky-dht/src/storage.rs:175-240 | In every run the expiry index holds exactly the flushed puts that no later collection has reached |
| `StoreHistory.RowDroppedIff` | crates/ceky-dht/src/storage.rs:217-240 | A collection drops a row, expired or not, iff some flushed put of its key, never collected, is due |
| `StoreHistory.CacheDroppedIff` | crates/ceky-dht/src/storage.rs:235-238 | A collection that begins evicts a cached entry iff the same holds of its key |
| `StoreHistory.RowIsLastCommit` | crates/ceky-dht/src/storage.rs:168-314 | In every interleaving the row of a key is what the last step that committed or deleted it left |
| `StoreHistory.QueueConserved` | crates/ceky-dht/src/storage.rs:142-189 | In every interleaving what was written, batched and queued is, in order, what was handed to the writer; only a restart loses the unwritten |
| `StoreHistory.RowIsLastWritten` | crates/ceky-dht/src/storage.rs:168-189 | A key that is neither collected nor removed has the row of the last entry written for it, however entries were batched |
| `StoreCalls.RemovalAlone` | crates/ceky-dht/src/storage.rs:297-314 | The steps of a removal that nothing interrupts do what the call does and leave everything else |
| `StoreCalls.PutAlone` | crates/ceky-dht/src/storage.rs:261-265 | The same for a put |
| `StoreCalls.GetAlone` | crates/ceky-dht/src/storage.rs:268-294 | The same for a get that misses the cache: its answer, the fill, and no trace of the call |
| `StoreCalls.RemovedForGoodIff` | crates/ceky-dht/src/storage.rs:142-314 | An absent key stays away in every continuation without a new put of it iff no earlier put or get of it is under way with an entry in hand; otherwise there is a run that brings it back |
| `StoreRefinement.StepRefines` | crates/ceky-dht/src/storage.rs:142-294 | Each step keeps the relation to the map, if a key is always put with the same entry and nothing is removed |
| `StoreRefinement.GetAnswersLikeMap` | crates/ceky-dht/src/storage.rs:142-294 | In every such interleaving each get answers as the map did at a moment within the call |
| `StoreRefinement.UninterruptedGet` | crates/ceky-dht/src/storage.rs:268-294 | An uninterrupted get gives exactly the map's answer |
| `StoreRefinement.RenewedEntryDropped` | crates/ceky-dht/src/storage.rs:235-238 | For every entry and later renewal, the run after which the unexpired renewal is in neither cache nor table |
| `LastPut.LateFillReturnsOlder` | crates/ceky-dht/src/storage.rs:279-289 | For any two unexpired entries of a key, the run in which a get fills the cache after a newer put, so that the next get returns the older |
| `LastPut.ReliableIff` | crates/ceky-dht/src/storage.rs:142-294 | For every set of visible entries: all interleavings of their puts answer like a map of last puts iff no two share a key |
| `StoreRefinement.CollectionSteps` | crates/ceky-dht/src/storage.rs:204-247 | The collector's separate steps, in any order, add up to `Collect` |
| `Stun.ParseBindingResponse` | crates/ceky-nat/src/stun.rs:187-261 | The offset loop stays in bounds, ends, and computes the recursive reading of the attributes with every error case |
| `Stun.WalkReads` | crates/ceky-nat/src/stun.rs:228-261 | A well-formed attribute list is read up to its first address, whatever follows |
| `Stun.ResponseReads` | crates/ceky-nat/src/stun.rs:187-314 | Any response built per sections 6, 15, 15.1 and 15.2 of RFC 5389 gives its first IPv4 address and port, or reports that there is none |
| `Stun.UnknownsThenAddress` | crates/ceky-nat/src/stun.rs:232-256 | Unknown attributes before the address do not matter |
| `Stun.FirstAddressDecides` | crates/ceky-nat/src/stun.rs:239-314 | The first attribute of an address type decides: too short a value or another family than IPv4 is the error, else there is an address |
| `Stun.WalkWasWritten` | crates/ceky-nat/src/stun.rs:228-261 | An address that comes out of the walk stands in the bytes, after well-formed unknown attributes, in an IPv4 attribute of one of the two types |
| `Stun.AnswerWasWritten` | crates/ceky-nat/src/stun.rs:187-314 | An answer needs type 0x0101, the cookie and the transaction id, and is the address written in the message |

## Left out

- Sockets, tasks, timeouts, the HTTP and WebSocket API, the command line, configuration, metrics and logging.
- The insides of SHA-256, CRC32C, X25519, Ed25519 and ChaCha20-Poly1305, and `Identity::verify_peer_binding`.
- Memory maps, redb and DashMap: byte sequences, maps and sets whose transactions succeed; failing writes are not modelled.
- Failing sends on the transport: `send_to` always queues the frame, also behind one at which the writer has ended.
- Texts of 4 GiB less 16 bytes or more: beyond that the encoder's length field wraps (`Codec.LengthWraps`).
- The 16 MiB frame limit in `TransferRun`: chunk sizes and bitmaps are taken to fit; the node offers files in chunks of 1000 bytes.
- What the node does with decrypted data after it is let through, except that its Ping and Pong branches are never reached.
- Corruption of a chunk's index, which its hash does not cover: chunks travel inside authenticated frames.
- Connection counters of the transport's reader.
- Comparing the received file with the offered root hash, and resuming from a partial bitmap: the code does neither.
- FileReject, FileCancel, FileChunkAck, FileComplete and CreditUpdate payloads: fixed fields only.
- The file name of an offer: `Transfer.TransferManager.OfferFile` sees only its length.
- Score formulas, supernode tiers and NAT classification: the score is a real number given with each mark.
- Last-seen times in the routing table, which nothing modelled reads.
- The order in which redb lists due index entries: `Store.PersistentStore.Collect` takes them in any order.
- Garbage-collection and batch timers: any step may come at any time.
- Relay accounting, connection pools, heartbeats, hole punching, identity files and hexadecimal helpers.
- Replay.ReplayWindow.ShiftLeft: the loops for words and for bits are two methods of their own.
- FileHash.CalculateFileHash: the inner read loop is the method `FillBuffer`.
- Store.PersistentStore.GatherBatch: called only when an entry has arrived, as the source waits for one.
