/** The transfer manager: `crates/ceky-transfer/src/manager.rs` and `state.rs`.

  Value functions say what each handler does to one transfer. `TransferManager` is the object with its
  table of active transfers and its outgoing queue; each of its methods is proved to apply the value
  function to the entry it names and to leave every other entry alone.
 */
module Transfer {
  import opened Bits
  import opened Wire
  import opened Wrappers
  import opened Chunking
  import FileHash
  import TransferWire

  /** Credits granted with the acceptance of an offer. */
  const WINDOW: U32 := 50

  type HashFn = FileHash.HashFn
  type TransferId = nat
  type Addr = nat

  datatype Chunk = Chunk(index: U32, hash: Bytes, data: Bytes)

  datatype AckStatus = AckOk | BadHash | Cancelled

  datatype Frame =
    | FileOffer(fileSize: U64, chunkSize: U32, totalChunks: U32, fileHash: Bytes)
    | FileAccept(missing: Bytes)
    | CreditUpdate(credits: U32)
    | FileChunk(chunk: Chunk)
    | FileChunkAck(index: U32, status: AckStatus)
    | FileComplete

  datatype Sender = Sender(
    peer: Addr, file: Bytes, bitfield: Bytes, credits: U32, chunkSize: U32, totalChunks: U32, cursor: U32)

  datatype Receiver = Receiver(
    peer: Addr, file: Bytes, bitfield: Bytes, chunkSize: U32, totalChunks: U32, received: U32)

  // ---------- Sending side ----------

  function NewSender(peer: Addr, file: Bytes, chunkSize: U32): (s: Sender)
  {
    var total := TotalChunks(|file|, chunkSize);
    Sender(peer, file, AllMissing(total), 0, chunkSize, total, 0)
  }

  /** The offer that announces a file. */
  function OfferOf(hash: HashFn, file: Bytes, chunkSize: U32): (f: Frame)
    requires |file| < U64_SIZE
  {
    FileOffer(|file|, chunkSize, TotalChunks(|file|, chunkSize), FileHash.RootHash(hash, file, chunkSize))
  }

  function MakeChunk(hash: HashFn, s: Sender, index: U32): (c: Chunk)
  {
    var data := Slice(s.file, s.chunkSize, index);
    Chunk(index, hash(data), data)
  }

  /** What the send loop did: the credits and cursor it ends with and the indices it sent. */
  datatype Taken = Taken(credits: U32, cursor: U32, indices: seq<U32>)

  /** The loop of `pump_send`: take missing chunks from the cursor on, one credit each. */
  function Take(bitfield: Bytes, total: U32, credits: U32, cursor: U32): (r: Taken)
    decreases total - cursor
  {
    if credits == 0 || cursor >= total then Taken(credits, cursor, [])
    else if IsMissing(bitfield, cursor) then
      var r := Take(bitfield, total, credits - 1, cursor + 1);
      r.(indices := [cursor] + r.indices)
    else Take(bitfield, total, credits, cursor + 1)
  }

  function PumpTake(s: Sender): (r: Taken)
  {
    Take(s.bitfield, s.totalChunks, s.credits, s.cursor)
  }

  function Pump(s: Sender): (t: Sender)
  {
    s.(credits := PumpTake(s).credits, cursor := PumpTake(s).cursor)
  }

  function ChunkFrames(hash: HashFn, s: Sender, indices: seq<U32>): (frames: seq<Frame>)
    ensures |frames| == |indices|
  {
    seq(|indices|, i requires 0 <= i < |indices| => FileChunk(MakeChunk(hash, s, indices[i])))
  }

  datatype Handled = Handled(sender: Sender, frames: seq<Frame>)

  function PumpFrames(hash: HashFn, s: Sender): (r: Handled)
  {
    Handled(Pump(s), ChunkFrames(hash, s, PumpTake(s).indices))
  }

  /** What a frame from the peer does to a sending entry. */
  function SenderHandle(hash: HashFn, s: Sender, f: Frame): (r: Handled)
  {
    match f
    case FileAccept(missing) => Handled(s.(bitfield := missing), [])
    case CreditUpdate(n) => PumpFrames(hash, Fund(s, n))
    case FileChunkAck(index, status) => PumpFrames(hash, if status == BadHash then Rewind(s, index) else s)
    case _ => Handled(s, [])
  }

  /** `credits += n` on `u32`. */
  function Fund(s: Sender, n: U32): (t: Sender)
  {
    s.(credits := (s.credits + n) % U32_SIZE)
  }

  /** A rejected chunk is marked missing again and the cursor goes back to it. */
  function Rewind(s: Sender, index: U32): (t: Sender)
  {
    s.(bitfield := SetMissing(s.bitfield, index, true), cursor := if index < s.cursor then index else s.cursor)
  }

  // ---------- Receiving side ----------

  /** `set_len`: a file cut, or extended with zeros. */
  function SetLen(file: Bytes, size: nat): (r: Bytes)
    ensures |r| == size
    ensures forall k :: 0 <= k < size ==> r[k] == if k < |file| then file[k] else 0
  {
    if size <= |file| then file[..size] else file + seq(size - |file|, _ => 0)
  }

  /** The entry made for an offer, given what the destination held before. */
  function NewReceiver(peer: Addr, disk: Bytes, fileSize: U64, chunkSize: U32, totalChunks: U32): (r: Receiver)
  {
    Receiver(peer, SetLen(disk, fileSize), AllMissing(totalChunks), chunkSize, totalChunks, 0)
  }

  function Overwrite(file: Bytes, start: nat, data: Bytes): (r: Bytes)
    requires start + |data| <= |file|
    ensures |r| == |file|
    ensures forall k :: 0 <= k < |file| ==> r[k] == if start <= k < start + |data| then data[k - start] else file[k]
  {
    file[..start] + data + file[start + |data|..]
  }

  datatype Verdict = Rejected | OutOfRange | Stored(receiver: Receiver)

  /** The checks of `handle_chunk`, in their order, and the new entry when both pass. */
  function Judge(hash: HashFn, r: Receiver, c: Chunk): (v: Verdict)
  {
    if hash(c.data) != c.hash then Rejected
    else
      var start := Offset(c.index, r.chunkSize);
      if start + |c.data| > |r.file| then OutOfRange
      else Stored(r.(file := Overwrite(r.file, start, c.data),
                     bitfield := SetMissing(r.bitfield, c.index, false),
                     received := (r.received + 1) % U32_SIZE))
  }

  predicate IsComplete(r: Receiver)
  {
    r.received == r.totalChunks
  }

  /** The frames `handle_chunk` sends back. */
  function Replies(c: Chunk, v: Verdict): (frames: seq<Frame>)
  {
    match v
    case Rejected => [FileChunkAck(c.index, BadHash)]
    case OutOfRange => []
    case Stored(r) =>
      [FileChunkAck(c.index, AckOk), CreditUpdate(1)] + if IsComplete(r) then [FileComplete] else []
  }

  function OfferReplies(totalChunks: U32): (frames: seq<Frame>)
  {
    [FileAccept(AllMissing(totalChunks)), CreditUpdate(WINDOW)]
  }

  /** An offer stands for one file: the hashes in the offers of two different files differ, unless the hash function
      collides on inputs computed from the files. */
  lemma OfferBinds(hash: HashFn, size: nat, a: Bytes, b: Bytes, sizeA: U32, sizeB: U32) returns (x: Bytes, y: Bytes)
    requires size > 0 && (forall x :: |hash(x)| == size)
    requires |a| < U64_SIZE && |b| < U64_SIZE && sizeA > 0 && sizeB > 0
    requires OfferOf(hash, a, sizeA).fileHash == OfferOf(hash, b, sizeB).fileHash && a != b
    ensures FileHash.Collides(hash, x, y)
  {
    x, y := FileHash.RootHashBinds(hash, size, a, b, sizeA, sizeB);
  }

  // ---------- pump_send is a filter ----------

  /** `r` took the first `min(credits, missing)` indices of the increasing list of missing indices from
      `cursor` on; the credits left over are the exact remainder, and what is still missing ahead of the new
      cursor is the rest of the list. */
  ghost predicate TookFirst(bitfield: Bytes, total: nat, credits: nat, cursor: nat, r: Taken)
  {
    var missing := MissingFrom(bitfield, cursor, total);
    var n := |r.indices|;
    && n <= |missing| && r.indices == missing[..n]
    && r.credits + n == credits
    && (r.credits == 0 || n == |missing|)
    && MissingFrom(bitfield, r.cursor, total) == missing[n..]
  }

  lemma {:induction false} PumpIsFilter(bitfield: Bytes, total: U32, credits: U32, cursor: U32)
    ensures TookFirst(bitfield, total, credits, cursor, Take(bitfield, total, credits, cursor))
    decreases total - cursor
  {
    hide IsMissing;
    if credits > 0 && cursor < total {
      if IsMissing(bitfield, cursor) {
        PumpIsFilter(bitfield, total, credits - 1, cursor + 1);
        var rest := Take(bitfield, total, credits - 1, cursor + 1);
        ConsTakeDrop(cursor, MissingFrom(bitfield, cursor + 1, total), |rest.indices|);
      } else {
        PumpIsFilter(bitfield, total, credits, cursor + 1);
      }
    }
  }

  /** `pump_send` stops only for want of credits or of chunks, and never moves the cursor back. */
  lemma {:induction false} PumpStops(bitfield: Bytes, total: U32, credits: U32, cursor: U32)
    ensures var r := Take(bitfield, total, credits, cursor);
            && (r.credits == 0 || r.cursor >= total)
            && cursor <= r.cursor && (r.cursor <= total || r.cursor == cursor)
    decreases total - cursor
  {
    hide IsMissing;
    if credits > 0 && cursor < total {
      PumpStops(bitfield, total, if IsMissing(bitfield, cursor) then credits - 1 else credits, cursor + 1);
    }
  }

  lemma ConsTakeDrop(x: nat, rest: seq<nat>, n: nat)
    requires n <= |rest|
    ensures ([x] + rest)[..n + 1] == [x] + rest[..n]
    ensures ([x] + rest)[n + 1..] == rest[n..]
  {
  }

  /** Credit updates handled one after another; the indices sent by all of them. */
  function TakeGrants(bitfield: Bytes, total: U32, credits: U32, cursor: U32, grants: seq<U32>): (r: Taken)
    decreases |grants|
  {
    if grants == [] then Taken(credits, cursor, [])
    else
      var first := Take(bitfield, total, (credits + grants[0]) % U32_SIZE, cursor);
      var rest := TakeGrants(bitfield, total, first.credits, first.cursor, grants[1..]);
      rest.(indices := first.indices + rest.indices)
  }

  function Total(grants: seq<U32>): (n: nat)
  {
    if grants == [] then 0 else grants[0] + Total(grants[1..])
  }

  /** However a total of credits is split over updates, the same indices are sent: the first
      `min(total, missing)` of the list of missing ones, with the exact remainder left. */
  lemma {:induction false} GrantsAnySplit(bitfield: Bytes, total: U32, credits: U32, cursor: U32, grants: seq<U32>)
    requires credits + Total(grants) < U32_SIZE
    requires credits == 0 || cursor >= total
    ensures TookFirst(bitfield, total, credits + Total(grants), cursor,
                      TakeGrants(bitfield, total, credits, cursor, grants))
    decreases |grants|
  {
    if grants != [] {
      var funded: U32 := credits + grants[0];
      GrantsUnfold(bitfield, total, credits, cursor, grants, funded);
      hide TookFirst, TakeGrants, Take;
      var first := Take(bitfield, total, funded, cursor);
      var rest := TakeGrants(bitfield, total, first.credits, first.cursor, grants[1..]);
      PumpIsFilter(bitfield, total, funded, cursor);
      PumpStops(bitfield, total, funded, cursor);
      TookFirstBound(bitfield, total, funded, cursor, first);
      GrantsAnySplit(bitfield, total, first.credits, first.cursor, grants[1..]);
      TookFirstTwice(bitfield, total, funded, cursor, first, Total(grants[1..]), rest);
    } else {
      NothingTaken(bitfield, total, credits, cursor);
    }
  }

  lemma GrantsUnfold(bitfield: Bytes, total: U32, credits: U32, cursor: U32, grants: seq<U32>, funded: U32)
    requires grants != [] && funded == credits + grants[0]
    ensures var first := Take(bitfield, total, funded, cursor);
            var rest := TakeGrants(bitfield, total, first.credits, first.cursor, grants[1..]);
            TakeGrants(bitfield, total, credits, cursor, grants) == rest.(indices := first.indices + rest.indices)
  {
    assert (credits + grants[0]) % U32_SIZE == funded;
  }

  lemma TookFirstBound(bitfield: Bytes, total: nat, credits: nat, cursor: nat, r: Taken)
    requires TookFirst(bitfield, total, credits, cursor, r)
    ensures r.credits <= credits
  {
  }

  lemma NothingTaken(bitfield: Bytes, total: U32, credits: U32, cursor: U32)
    requires credits == 0 || cursor >= total
    ensures TookFirst(bitfield, total, credits, cursor, Taken(credits, cursor, []))
  {
    PumpIsFilter(bitfield, total, credits, cursor);
  }

  lemma TookFirstTwice(
    bitfield: Bytes, total: nat, credits: nat, cursor: nat, first: Taken, more: nat, rest: Taken)
    requires TookFirst(bitfield, total, credits, cursor, first)
    requires TookFirst(bitfield, total, first.credits + more, first.cursor, rest)
    ensures TookFirst(bitfield, total, credits + more, cursor, rest.(indices := first.indices + rest.indices))
  {
    hide MissingFrom;
    var missing, n, k := MissingFrom(bitfield, cursor, total), |first.indices|, |rest.indices|;
    assert missing[..n] + missing[n..][..k] == missing[..n + k];
    assert missing[n..][k..] == missing[n + k..];
  }

  // ---------- Acceptances and rejections ----------

  /** The frames carry exactly these chunks of the sender's file, in order. */
  ghost predicate Carry(hash: HashFn, s: Sender, frames: seq<Frame>, indices: seq<nat>)
  {
    && |frames| == |indices|
    && forall k :: 0 <= k < |frames| ==>
         && frames[k].FileChunk? && frames[k].chunk.index == indices[k]
         && frames[k].chunk.data == Slice(s.file, s.chunkSize, indices[k])
         && frames[k].chunk.hash == hash(frames[k].chunk.data)
  }

  /** A resumed transfer sends what the acceptance marks missing and nothing else: after the bitmap has arrived, a grant
      sends the first of the chunks it marks from the cursor on, as many as there are credits. */
  lemma SendsWhatIsAccepted(hash: HashFn, s: Sender, missing: Bytes, n: U32)
    requires s.credits + n < U32_SIZE
    ensures var accepted := SenderHandle(hash, s, FileAccept(missing));
            var granted := SenderHandle(hash, accepted.sender, CreditUpdate(n));
            var all, sent := MissingFrom(missing, s.cursor, s.totalChunks), |granted.frames|;
            && accepted.frames == [] && sent == (if |all| < s.credits + n then |all| else s.credits + n)
            && Carry(hash, s, granted.frames, all[..sent])
            && granted.sender.credits == s.credits + n - sent
  {
    hide IsMissing, Slice, MissingFrom, Take;
    PumpIsFilter(missing, s.totalChunks, s.credits + n, s.cursor);
  }

  /** A chunk that was sent and is rejected is sent again, before any other, as soon as there is a credit: with the
      rejection itself or with the next grant, and whatever the bitmap said of it. */
  lemma RejectedIsResent(hash: HashFn, s: Sender, index: U32, n: U32)
    requires index < s.cursor && index < s.totalChunks && index / 8 < |s.bitfield|
    requires 0 < n && s.credits + n < U32_SIZE
    ensures var rejected := SenderHandle(hash, s, FileChunkAck(index, BadHash));
            var granted := SenderHandle(hash, rejected.sender, CreditUpdate(n));
            var sent := rejected.frames + granted.frames;
            sent != [] && Carry(hash, s, sent[..1], [index]) && (s.credits > 0 ==> rejected.frames != [])
  {
    hide IsMissing, Slice, SetMissing;
    SetMissingAt(s.bitfield, index, true, index);
  }

  // ---------- The manager ----------

  datatype TransferState = Sending(sender: Sender) | Receiving(receiver: Receiver)

  datatype TransferError = Io | NotFound | InvalidState | HashMismatch

  datatype Outgoing = Outgoing(peer: Addr, id: TransferId, frame: Frame)

  function Tagged(peer: Addr, id: TransferId, frames: seq<Frame>): (out: seq<Outgoing>)
  {
    seq(|frames|, i requires 0 <= i < |frames| => Outgoing(peer, id, frames[i]))
  }

  lemma TaggedSnoc(hash: HashFn, s: Sender, id: TransferId, done: seq<U32>, index: U32)
    ensures Tagged(s.peer, id, ChunkFrames(hash, s, done + [index]))
         == Tagged(s.peer, id, ChunkFrames(hash, s, done))
          + [Outgoing(s.peer, id, FileChunk(MakeChunk(hash, s, index)))]
  {
  }

  type Table = map<TransferId, TransferState>

  /** The table and queue after a frame was handled by the sending entry `id`, if there is one. */
  ghost predicate SenderHandled(
    hash: HashFn, before: Table, queue: seq<Outgoing>, id: TransferId, f: Frame, after: Table, queue': seq<Outgoing>)
  {
    if id in before && before[id].Sending? then
      var h := SenderHandle(hash, before[id].sender, f);
      after == before[id := Sending(h.sender)] && queue' == queue + Tagged(h.sender.peer, id, h.frames)
    else after == before && queue' == queue
  }

  class TransferManager {
    const hash: HashFn
    var active: Table
    var queue: seq<Outgoing>

    constructor (hash: HashFn)
      ensures this.hash == hash && active == map[] && queue == []
    {
      this.hash := hash;
      active, queue := map[], [];
    }

    /** `offer_file`: the bytes of the file, unless it cannot be opened, read and mapped, and a fresh transfer id are
        given. */
    method OfferFile(peer: Addr, id: TransferId, file: Option<Bytes>, nameLength: nat, chunkSize: U32)
      returns (r: Result<TransferId, TransferError>)
      requires file.Some? ==> |file.value| < U64_SIZE
      modifies this
      ensures r == if file.None? then Failure(Io)
                   else if chunkSize == 0 || nameLength > TransferWire.MAX_NAME then Failure(InvalidState)
                   else Success(id)
      ensures r.Failure? ==> active == old(active) && queue == old(queue)
      ensures r.Success? ==>
                && active == old(active)[id := Sending(NewSender(peer, file.value, chunkSize))]
                && queue == old(queue) + [Outgoing(peer, id, OfferOf(hash, file.value, chunkSize))]
    {
      if file.None? {
        return Failure(Io);
      }
      var bytes := file.value;
      var fileHash := FileHash.RootHash(hash, bytes, chunkSize);
      var total := TotalChunks(|bytes|, chunkSize);
      if chunkSize == 0 || nameLength > TransferWire.MAX_NAME {
        return Failure(InvalidState);
      }
      active := active[id := Sending(Sender(peer, bytes, AllMissing(total), 0, chunkSize, total, 0))];
      queue := queue + [Outgoing(peer, id, FileOffer(|bytes|, chunkSize, total, fileHash))];
      return Success(id);
    }

    /** `handle_offer`; `disk` is what the destination holds, nothing if it is created now, unless it cannot be
        opened, sized and mapped. */
    method HandleOffer(peer: Addr, id: TransferId, offer: Frame, disk: Option<Bytes>)
      returns (r: Result<(), TransferError>)
      requires offer.FileOffer?
      modifies this
      ensures r == if disk.None? then Failure(Io) else Success(())
      ensures r.Failure? ==> active == old(active) && queue == old(queue)
      ensures r.Success? ==>
                && active == old(active)[id := Receiving(NewReceiver(peer, disk.value, offer.fileSize, offer.chunkSize,
                                                                     offer.totalChunks))]
                && queue == old(queue) + Tagged(peer, id, OfferReplies(offer.totalChunks))
    {
      if disk.None? {
        return Failure(Io);
      }
      var file := SetLen(disk.value, offer.fileSize);
      var bitfield := AllMissing(offer.totalChunks);
      active := active[id := Receiving(Receiver(peer, file, bitfield, offer.chunkSize, offer.totalChunks, 0))];
      queue := queue + [Outgoing(peer, id, FileAccept(AllMissing(offer.totalChunks)))];
      queue := queue + [Outgoing(peer, id, CreditUpdate(WINDOW))];
      return Success(());
    }

    method HandleAccept(id: TransferId, missing: Bytes) returns (r: Result<(), TransferError>)
      modifies this
      ensures r.Success? <==> id in old(active) && old(active)[id].Sending?
      ensures r.Failure? ==> r.error == NotFound
      ensures SenderHandled(hash, old(active), old(queue), id, FileAccept(missing), active, queue)
    {
      if id in active && active[id].Sending? {
        active := active[id := Sending(active[id].sender.(bitfield := missing))];
        return Success(());
      }
      return Failure(NotFound);
    }

    method HandleCreditUpdate(id: TransferId, credits: U32)
      modifies this
      ensures SenderHandled(hash, old(active), old(queue), id, CreditUpdate(credits), active, queue)
    {
      if id in active && active[id].Sending? {
        var s := active[id].sender;
        active := active[id := Sending(Fund(s, credits))];
      }
      PumpSend(id);
    }

    method HandleChunkAck(id: TransferId, index: U32, status: AckStatus)
      modifies this
      ensures SenderHandled(hash, old(active), old(queue), id, FileChunkAck(index, status), active, queue)
    {
      if id in active && active[id].Sending? {
        if status == BadHash {
          var s := active[id].sender;
          s := s.(bitfield := SetMissing(s.bitfield, index, true));
          if index < s.cursor {
            s := s.(cursor := index);
          }
          active := active[id := Sending(s)];
        }
        PumpSend(id);
      }
    }

    /** The send loop: it leaves the entry and the queue as `Pump` says. */
    method PumpSend(id: TransferId)
      modifies this
      ensures if id in old(active) && old(active)[id].Sending? then
                var h := PumpFrames(hash, old(active)[id].sender);
                active == old(active)[id := Sending(h.sender)]
                && queue == old(queue) + Tagged(h.sender.peer, id, h.frames)
              else active == old(active) && queue == old(queue)
    {
      hide IsMissing, Slice;
      if id !in active || !active[id].Sending? {
        return;
      }
      var s := active[id].sender;
      ghost var start, done: seq<U32> := s, [];
      while s.credits > 0 && s.cursor < s.totalChunks
        invariant active == old(active)
        invariant s == start.(credits := s.credits, cursor := s.cursor)
        invariant queue == old(queue) + Tagged(start.peer, id, ChunkFrames(hash, start, done))
        invariant PumpTake(start) == PumpTake(s).(indices := done + PumpTake(s).indices)
        decreases s.totalChunks - s.cursor
      {
        if IsMissing(s.bitfield, s.cursor) {
          var data := Slice(s.file, s.chunkSize, s.cursor);
          queue := queue + [Outgoing(s.peer, id, FileChunk(Chunk(s.cursor, hash(data), data)))];
          TaggedSnoc(hash, start, id, done, s.cursor);
          done := done + [s.cursor];
          s := s.(credits := s.credits - 1);
        }
        s := s.(cursor := s.cursor + 1);
      }
      active := active[id := Sending(s)];
    }

    /** `handle_chunk`: a completed transfer leaves the table. */
    method HandleChunk(id: TransferId, c: Chunk) returns (r: Result<(), TransferError>)
      modifies this
      ensures if id in old(active) && old(active)[id].Receiving? then
                var was := old(active)[id].receiver;
                var v := Judge(hash, was, c);
                && queue == old(queue) + Tagged(was.peer, id, Replies(c, v))
                && r == (if v.Rejected? then Failure(HashMismatch) else Success(()))
                && active == if v.Stored? then
                               if IsComplete(v.receiver) then old(active) - {id}
                               else old(active)[id := Receiving(v.receiver)]
                             else old(active)
              else
                && active == old(active) && queue == old(queue)
                && r == if id in old(active) then Success(()) else Failure(NotFound)
    {
      hide SetMissing, Offset;
      var completed, peer := false, None;
      if id !in active {
        return Failure(NotFound);
      }
      if active[id].Receiving? {
        var s := active[id].receiver;
        peer := Some(s.peer);
        if hash(c.data) != c.hash {
          queue := queue + [Outgoing(s.peer, id, FileChunkAck(c.index, BadHash))];
          return Failure(HashMismatch);
        }
        var start := Offset(c.index, s.chunkSize);
        var end := start + |c.data|;
        if end <= |s.file| {
          s := s.(file := s.file[..start] + c.data + s.file[end..]);
          s := s.(bitfield := SetMissing(s.bitfield, c.index, false));
          s := s.(received := (s.received + 1) % U32_SIZE);
          active := active[id := Receiving(s)];
          queue := queue + [Outgoing(s.peer, id, FileChunkAck(c.index, AckOk))];
          queue := queue + [Outgoing(s.peer, id, CreditUpdate(1))];
          if s.received == s.totalChunks {
            completed := true;
          }
        }
      }
      if completed {
        active := active - {id};
        queue := queue + [Outgoing(peer.value, id, FileComplete)];
      }
      return Success(());
    }
  }
}
