/** One transfer from offer to completion: sender, receiver and the two FIFO channels between them.

  The step functions are those the managers' methods are proved against. The network delivers the head of
  either channel, and may replace data and hash of a chunk in flight in a way its hash shows; the index, which
  the hash does not cover, stays. A run is any sequence of such steps; a clean run has no corruption.
 */
module TransferRun {
  import opened Bits
  import opened Wire
  import opened Chunking
  import opened Transfer
  import TransferWire

  const PEER: Addr := 0
  const HASH_SIZE: nat := TransferWire.HASH_SIZE

  /** A file offered with a chunk size, and the file, of any length, that the receiver has in its place
      beforehand. */
  datatype Job = Job(hash: HashFn, file: Bytes, chunkSize: U32, disk: Bytes)
  {
    function Total(): (n: U32)
    {
      TotalChunks(|file|, chunkSize)
    }

    /** The receiver's file once it has the length of the source. */
    function Prior(): (r: Bytes)
      ensures |r| == |file|
    {
      SetLen(disk, |file|)
    }

    ghost predicate Ok()
    {
      && chunkSize > 0 && 0 < |file| < U64_SIZE && Fits(|file|, chunkSize)
      && forall x :: |hash(x)| == HASH_SIZE
    }
  }

  /** The receiver's entry: not yet offered, in the table, or removed on completion with this content. */
  datatype Entry = Waiting | Active(receiver: Receiver) | Finished(receiver: Receiver)

  datatype Net = Net(
    sender: Sender, entry: Entry, down: seq<Frame>, up: seq<Frame>,
    /** Indices of all chunks sent so far, in order. */
    sent: seq<nat>,
    /** Chunks the receiver consumed without granting a credit. */
    wasted: nat,
    /** Chunks stored although their bit was already clear. */
    repeats: nat)

  datatype Step = DeliverDown | DeliverUp | Corrupt(at: nat, hash: Bytes, data: Bytes)

  function Start(job: Job): (s: Net)
    requires |job.file| < U64_SIZE
  {
    Net(NewSender(PEER, job.file, job.chunkSize), Waiting,
        [OfferOf(job.hash, job.file, job.chunkSize)], [], [], 0, 0)
  }

  /** The receiver's node handles a frame. */
  function Receive(job: Job, s: Net, f: Frame): (t: Net)
  {
    match f
    case FileOffer(fileSize, chunkSize, total, _) =>
      s.(entry := Active(NewReceiver(PEER, job.disk, fileSize, chunkSize, total)), up := s.up + OfferReplies(total))
    case FileChunk(c) =>
      if !s.entry.Active? then s.(wasted := s.wasted + 1)
      else
        var r := s.entry.receiver;
        var v := Judge(job.hash, r, c);
        if !v.Stored? then s.(wasted := s.wasted + 1, up := s.up + Replies(c, v))
        else s.(entry := if IsComplete(v.receiver) then Finished(v.receiver) else Active(v.receiver),
                up := s.up + Replies(c, v),
                repeats := if IsMissing(r.bitfield, c.index) then s.repeats else s.repeats + 1)
    case _ => s
  }

  function ChunkIndex(f: Frame): (i: nat)
  {
    if f.FileChunk? then f.chunk.index else 0
  }

  function ChunkIndices(frames: seq<Frame>): (indices: seq<nat>)
    ensures |indices| == |frames|
  {
    seq(|frames|, i requires 0 <= i < |frames| => ChunkIndex(frames[i]))
  }

  /** The sender's node handles a frame. */
  function Respond(job: Job, s: Net, f: Frame): (t: Net)
  {
    var h := SenderHandle(job.hash, s.sender, f);
    s.(sender := h.sender, down := s.down + h.frames, sent := s.sent + ChunkIndices(h.frames))
  }

  function Apply(job: Job, s: Net, step: Step): (t: Net)
  {
    match step
    case DeliverDown => if s.down == [] then s else Receive(job, s.(down := s.down[1..]), s.down[0])
    case DeliverUp => if s.up == [] then s else Respond(job, s.(up := s.up[1..]), s.up[0])
    case Corrupt(at, hash, data) =>
      if at < |s.down| && s.down[at].FileChunk? && |hash| == HASH_SIZE && job.hash(data) != hash
      then s.(down := s.down[at := FileChunk(Chunk(s.down[at].chunk.index, hash, data))])
      else s
  }

  function Run(job: Job, steps: seq<Step>): (s: Net)
    requires |job.file| < U64_SIZE
  {
    if steps == [] then Start(job) else Apply(job, Run(job, steps[..|steps| - 1]), steps[|steps| - 1])
  }

  // ---------- Queues ----------

  function Credit(f: Frame): (n: nat)
  {
    if f.CreditUpdate? then f.credits else 0
  }

  /** Credit units in flight. */
  function Units(q: seq<Frame>): (n: nat)
  {
    if q == [] then 0 else Credit(q[0]) + Units(q[1..])
  }

  lemma {:induction false} UnitsConcat(a: seq<Frame>, b: seq<Frame>)
    ensures Units(a + b) == Units(a) + Units(b)
  {
    if a == [] {
      assert a + b == b;
    } else {
      UnitsConcat(a[1..], b);
      assert (a + b)[1..] == a[1..] + b;
    }
  }

  /** A frame the receiver may send to the sender. */
  ghost predicate UpFrame(job: Job, f: Frame)
  {
    match f
    case FileAccept(missing) => forall i: nat :: i < job.Total() ==> IsMissing(missing, i)
    case CreditUpdate(_) => true
    case FileChunkAck(index, status) => index < job.Total() && !status.Cancelled?
    case FileComplete => true
    case _ => false
  }

  /** A chunk in flight: of this file, and either intact or visibly corrupt. */
  ghost predicate DownFrame(job: Job, f: Frame)
  {
    && f.FileChunk? && f.chunk.index < job.Total()
    && (job.hash(f.chunk.data) == f.chunk.hash ==> f.chunk.data == Slice(job.file, job.chunkSize, f.chunk.index))
  }

  // ---------- Sender ----------

  ghost predicate SenderOk(job: Job, s: Sender)
  {
    && s.file == job.file && s.chunkSize == job.chunkSize && s.totalChunks == job.Total()
    && s.cursor <= job.Total()
    && (forall i: nat :: i < job.Total() ==> IsMissing(s.bitfield, i))
    && (s.credits == 0 || s.cursor == job.Total())
  }

  /** With every bit set, the loop sends consecutive chunks until credits or chunks run out. */
  lemma {:induction false} TakeConsecutive(bitfield: Bytes, total: U32, credits: U32, cursor: U32)
    requires cursor <= total
    requires forall i: nat :: i < total ==> IsMissing(bitfield, i)
    ensures var r := Take(bitfield, total, credits, cursor);
            && r.cursor == cursor + |r.indices| <= total
            && r.credits == credits - |r.indices|
            && (r.credits == 0 || r.cursor == total)
            && forall k :: 0 <= k < |r.indices| ==> r.indices[k] == cursor + k
    decreases total - cursor
  {
    hide IsMissing;
    if credits > 0 && cursor < total {
      TakeConsecutive(bitfield, total, credits - 1, cursor + 1);
    }
  }

  /** The sender as a frame leaves it just before the pump. */
  function Prepared(s: Sender, f: Frame): (t: Sender)
  {
    match f
    case FileAccept(missing) => s.(bitfield := missing)
    case CreditUpdate(n) => Fund(s, n)
    case FileChunkAck(index, status) => if status == BadHash then Rewind(s, index) else s
    case _ => s
  }

  lemma PreparedOk(job: Job, s: Sender, f: Frame)
    requires SenderOk(job, s) && UpFrame(job, f) && s.credits + Credit(f) < U32_SIZE
    ensures var p := Prepared(s, f);
            && p.file == job.file && p.chunkSize == job.chunkSize && p.totalChunks == job.Total()
            && p.credits == s.credits + Credit(f)
            && p.cursor == (if f.FileChunkAck? && f.status == BadHash && f.index < s.cursor then f.index else s.cursor)
            && (forall i: nat :: i < job.Total() ==> IsMissing(p.bitfield, i))
  {
    hide IsMissing, SetMissing;
    if f.FileChunkAck? && f.status == BadHash {
      forall i: nat | i < job.Total() ensures IsMissing(Prepared(s, f).bitfield, i) {
        SetMissingAt(s.bitfield, f.index, true, i);
      }
    }
  }

  /** What handling one frame does, with all the bookkeeping the invariants need: the cursor moves past
      exactly the chunks that are put on the channel, each with the bytes of its slice. */
  ghost predicate Responded(job: Job, s: Sender, f: Frame, t: Sender, frames: seq<Frame>)
  {
    var from := if f.FileChunkAck? && f.status == BadHash && f.index < s.cursor then f.index else s.cursor;
    && SenderOk(job, t)
    && t.cursor == from + |frames|
    && t.credits + |frames| == s.credits + Credit(f)
    && forall k :: 0 <= k < |frames| ==>
         && frames[k].FileChunk? && frames[k].chunk.index == from + k
         && frames[k].chunk.data == Slice(job.file, job.chunkSize, from + k)
         && frames[k].chunk.hash == job.hash(frames[k].chunk.data)
  }

  lemma HandleResponds(job: Job, s: Sender, f: Frame)
    requires SenderOk(job, s) && UpFrame(job, f) && s.credits + Credit(f) < U32_SIZE
    ensures Responded(job, s, f, SenderHandle(job.hash, s, f).sender, SenderHandle(job.hash, s, f).frames)
  {
    hide IsMissing, SetMissing, Slice, Take;
    PreparedOk(job, s, f);
    var p := Prepared(s, f);
    if f.CreditUpdate? || f.FileChunkAck? {
      TakeConsecutive(p.bitfield, p.totalChunks, p.credits, p.cursor);
    }
  }

  // ---------- Receiver ----------

  /** Every byte is the source's byte, or the disk's as long as its chunk is marked missing. */
  ghost predicate Held(job: Job, r: Receiver)
    requires job.chunkSize > 0
  {
    && |r.file| == |job.file|
    && forall k: nat :: k < |job.file| ==> HeldByte(job, r, k)
  }

  ghost predicate HeldByte(job: Job, r: Receiver, k: nat)
    requires job.chunkSize > 0 && k < |job.file| == |r.file|
  {
    r.file[k] == if IsMissing(r.bitfield, ChunkOf(k, job.chunkSize)) then job.Prior()[k] else job.file[k]
  }

  ghost predicate ReceiverOk(job: Job, r: Receiver, repeats: nat)
    requires job.Ok()
  {
    && r.chunkSize == job.chunkSize && r.totalChunks == job.Total()
    && |r.bitfield| == BitmapLen(job.Total())
    && Held(job, r)
    && r.received == Cleared(r.bitfield, job.Total()) + repeats
  }

  lemma NewReceiverOk(job: Job)
    requires job.Ok()
    ensures job.Total() > 0
    ensures ReceiverOk(job, NewReceiver(PEER, job.disk, |job.file|, job.chunkSize, job.Total()), 0)
  {
    hide IsMissing, ChunkOf, TotalChunks, Fits, AllMissing;
    TotalPositive(|job.file|, job.chunkSize);
    var r := NewReceiver(PEER, job.disk, |job.file|, job.chunkSize, job.Total());
    forall i: nat | i < job.Total() ensures IsMissing(r.bitfield, i) {
      AllMissingIsMissing(job.Total(), i);
    }
    ClearedAllMissing(r.bitfield, job.Total());
    forall k: nat | k < |job.file| ensures HeldByte(job, r, k) {
      ByteInChunk(|job.file|, job.chunkSize, k);
    }
  }

  /** An intact chunk is always stored, inside the file, and the receiver's invariant survives. */
  lemma StoreOk(job: Job, r: Receiver, repeats: nat, c: Chunk)
    requires job.Ok() && ReceiverOk(job, r, repeats) && r.received < job.Total()
    requires DownFrame(job, FileChunk(c)) && job.hash(c.data) == c.hash
    ensures var v := Judge(job.hash, r, c);
            && v.Stored? && v.receiver.received == r.received + 1
            && v.receiver.bitfield == SetMissing(r.bitfield, c.index, false)
            && ReceiverOk(job, v.receiver, if IsMissing(r.bitfield, c.index) then repeats else repeats + 1)
  {
    hide IsMissing, SetMissing, TotalChunks, Fits, ChunkOf, Offset, Slice;
    SliceBytes(job.file, job.chunkSize, c.index, 0);
    var t := Judge(job.hash, r, c).receiver;
    ClearedStep(r.bitfield, c.index, job.Total());
    forall k: nat | k < |job.file| ensures HeldByte(job, t, k) {
      assert HeldByte(job, r, k);
      SetMissingAt(r.bitfield, c.index, false, ChunkOf(k, job.chunkSize));
      SliceBytes(job.file, job.chunkSize, c.index, k);
    }
  }

  /** The bytes of chunks marked missing happen to be the source's already. */
  ghost predicate DiskCovers(job: Job, bitfield: Bytes)
    requires job.chunkSize > 0
  {
    forall k: nat :: k < |job.file| && IsMissing(bitfield, ChunkOf(k, job.chunkSize)) ==> job.Prior()[k] == job.file[k]
  }

  lemma FileIff(job: Job, r: Receiver)
    requires job.Ok() && Held(job, r)
    ensures r.file == job.file <==> DiskCovers(job, r.bitfield)
  {
    hide IsMissing, ChunkOf, TotalChunks, Fits;
    if r.file == job.file {
      forall k: nat | k < |job.file| && IsMissing(r.bitfield, ChunkOf(k, job.chunkSize))
        ensures job.Prior()[k] == job.file[k]
      {
        assert HeldByte(job, r, k);
      }
    }
    if DiskCovers(job, r.bitfield) {
      forall k: nat | k < |job.file| ensures r.file[k] == job.file[k] {
        assert HeldByte(job, r, k);
      }
    }
  }

  lemma NothingMissing(job: Job, bitfield: Bytes)
    requires job.Ok() && forall i: nat :: i < job.Total() ==> !IsMissing(bitfield, i)
    ensures DiskCovers(job, bitfield)
  {
    hide IsMissing, ChunkOf, TotalChunks, Fits;
    forall k: nat | k < |job.file| ensures !IsMissing(bitfield, ChunkOf(k, job.chunkSize)) {
      ByteInChunk(|job.file|, job.chunkSize, k);
    }
  }

  // ---------- The invariant of every run ----------

  /** Chunk `i` is still to be sent, or in flight, or reported bad, or already stored. */
  ghost predicate Remembered(s: Net, i: nat)
  {
    || i >= s.sender.cursor
    || i in ChunkIndices(s.down)
    || FileChunkAck(i, BadHash) in s.up
    || (s.entry.Active? && !IsMissing(s.entry.receiver.bitfield, i))
  }

  /** Before the offer arrives nothing has happened. */
  ghost predicate BeforeOffer(job: Job, s: Net)
    requires job.Ok()
  {
    s == Start(job)
  }

  /** Credits held by the sender, chunks in flight, credits in flight and credits burnt add up to 50. */
  ghost predicate Conserved(s: Net)
  {
    s.sender.credits + |s.down| + Units(s.up) + s.wasted == WINDOW
  }

  ghost predicate Inv(job: Job, s: Net)
    requires job.Ok()
  {
    if s.entry.Waiting? then BeforeOffer(job, s)
    else
      && SenderOk(job, s.sender)
      && (forall k :: 0 <= k < |s.down| ==> DownFrame(job, s.down[k]))
      && (forall k :: 0 <= k < |s.up| ==> UpFrame(job, s.up[k]))
      && Conserved(s)
      && ReceiverOk(job, s.entry.receiver, s.repeats)
      && (s.entry.Active? ==> s.entry.receiver.received < job.Total()
                              && forall i: nat :: i < job.Total() ==> Remembered(s, i))
      && (s.entry.Finished? ==> s.entry.receiver.received == job.Total())
  }

  /** The offer gives the receiver's file the length of the source. */
  lemma OfferArrives(job: Job)
    requires |job.file| < U64_SIZE
    ensures Apply(job, Start(job), DeliverDown)
         == Start(job).(entry := Active(NewReceiver(PEER, job.disk, |job.file|, job.chunkSize, job.Total())),
                        down := [], up := OfferReplies(job.Total()))
  {
    hide NewReceiver, NewSender, OfferReplies, TotalChunks;
    var replies := OfferReplies(job.Total());
    assert [] + replies == replies;
  }

  lemma OfferStep(job: Job)
    requires job.Ok()
    ensures Inv(job, Apply(job, Start(job), DeliverDown))
  {
    hide IsMissing, TotalChunks, AllMissing, Fits, ReceiverOk, Apply;
    OfferArrives(job);
    NewReceiverOk(job);
    forall i: nat | i < job.Total() ensures IsMissing(AllMissing(job.Total()), i) {
      AllMissingIsMissing(job.Total(), i);
    }
    var q := OfferReplies(job.Total());
    assert Units(q) == Credit(q[0]) + (Credit(q[1]) + Units(q[1..][1..]));
  }

  lemma IndicesTail(q: seq<Frame>, i: nat)
    requires q != [] && i in ChunkIndices(q)
    ensures i == ChunkIndex(q[0]) || i in ChunkIndices(q[1..])
  {
    var k :| 0 <= k < |q| && ChunkIndices(q)[k] == i;
    if k > 0 {
      assert ChunkIndices(q[1..])[k - 1] == i;
    }
  }

  lemma IndicesPrefix(a: seq<Frame>, b: seq<Frame>, i: nat)
    requires i in ChunkIndices(a)
    ensures i in ChunkIndices(a + b)
  {
    var k :| 0 <= k < |a| && ChunkIndices(a)[k] == i;
    assert ChunkIndices(a + b)[k] == i;
  }

  lemma IndicesSuffix(a: seq<Frame>, b: seq<Frame>, k: nat)
    requires k < |b|
    ensures ChunkIndex(b[k]) in ChunkIndices(a + b)
  {
    assert ChunkIndices(a + b)[|a| + k] == ChunkIndex(b[k]);
  }

  /** A chunk reaches the receiver's node. */
  lemma ChunkStep(job: Job, s: Net)
    requires job.Ok() && Inv(job, s) && !s.entry.Waiting? && s.down != []
    ensures Inv(job, Apply(job, s, DeliverDown))
  {
    hide IsMissing, SetMissing, ReceiverOk, SenderOk, Judge;
    var c := s.down[0].chunk;
    assert DownFrame(job, s.down[0]);
    var t := Apply(job, s, DeliverDown);
    if s.entry.Active? {
      var r := s.entry.receiver;
      var v := Judge(job.hash, r, c);
      VerdictOk(job, r, s.repeats, c);
      UnitsConcat(s.up, Replies(c, v));
      RepliesUnits(c, v);
      assert forall k :: 0 <= k < |Replies(c, v)| ==> UpFrame(job, Replies(c, v)[k]);
      if t.entry.Active? {
        forall i: nat | i < job.Total() ensures Remembered(t, i) {
          RememberedAfterChunk(job, s, t, v, i);
        }
      }
    }
  }

  lemma RepliesUnits(c: Chunk, v: Verdict)
    ensures Units(Replies(c, v)) == if v.Stored? then 1 else 0
  {
    var q := Replies(c, v);
    if v.Stored? {
      assert Units(q) == Credit(q[0]) + (Credit(q[1]) + Units(q[1..][1..]));
      assert q[1..][1..] == (if IsComplete(v.receiver) then [FileComplete] else []);
    }
  }

  /** The verdict on a chunk in flight: rejected if its hash fails, stored otherwise; never out of range. */
  lemma VerdictOk(job: Job, r: Receiver, repeats: nat, c: Chunk)
    requires job.Ok() && ReceiverOk(job, r, repeats) && r.received < job.Total() && DownFrame(job, FileChunk(c))
    ensures var v := Judge(job.hash, r, c);
            && (v.Rejected? <==> job.hash(c.data) != c.hash) && !v.OutOfRange?
            && (v.Stored? ==>
                  && v.receiver.received == r.received + 1 && v.receiver.totalChunks == job.Total()
                  && v.receiver.bitfield == SetMissing(r.bitfield, c.index, false)
                  && ReceiverOk(job, v.receiver, if IsMissing(r.bitfield, c.index) then repeats else repeats + 1)
                  && !IsMissing(v.receiver.bitfield, c.index))
  {
    hide IsMissing, SetMissing, Slice;
    if job.hash(c.data) == c.hash {
      StoreOk(job, r, repeats, c);
      SetMissingAt(r.bitfield, c.index, false, c.index);
    }
  }

  lemma RememberedAfterChunk(job: Job, s: Net, t: Net, v: Verdict, i: nat)
    requires s.entry.Active? && t.entry.Active? && s.down != [] && s.down[0].FileChunk? && i < job.Total()
    requires v == Judge(job.hash, s.entry.receiver, s.down[0].chunk) && !v.OutOfRange?
    requires t.down == s.down[1..] && t.sender == s.sender && t.up == s.up + Replies(s.down[0].chunk, v)
    requires t.entry.receiver == if v.Stored? then v.receiver else s.entry.receiver
    requires v.Stored? ==> v.receiver.bitfield == SetMissing(s.entry.receiver.bitfield, s.down[0].chunk.index, false)
                           && !IsMissing(v.receiver.bitfield, s.down[0].chunk.index)
    requires Remembered(s, i)
    ensures Remembered(t, i)
  {
    hide IsMissing, SetMissing, Judge;
    var c := s.down[0].chunk;
    if i in ChunkIndices(s.down) {
      IndicesTail(s.down, i);
      if i == c.index && v.Rejected? {
        assert Replies(c, v)[0] == FileChunkAck(i, BadHash);
        assert t.up[|s.up|] == FileChunkAck(i, BadHash);
      }
    }
    if FileChunkAck(i, BadHash) in s.up {
      assert FileChunkAck(i, BadHash) in t.up;
    }
    if v.Stored? {
      SetMissingAt(s.entry.receiver.bitfield, c.index, false, i);
    }
  }

  /** A frame reaches the sender's node. */
  lemma UpStep(job: Job, s: Net)
    requires job.Ok() && Inv(job, s) && !s.entry.Waiting? && s.up != []
    ensures Inv(job, Apply(job, s, DeliverUp))
    ensures Responded(job, s.sender, s.up[0], SenderHandle(job.hash, s.sender, s.up[0]).sender,
                      SenderHandle(job.hash, s.sender, s.up[0]).frames)
  {
    hide IsMissing, ReceiverOk, SenderHandle, Slice;
    var f := s.up[0];
    var h := SenderHandle(job.hash, s.sender, f);
    assert UpFrame(job, f);
    assert Units(s.up) == Credit(f) + Units(s.up[1..]);
    HandleResponds(job, s.sender, f);
    var t := Apply(job, s, DeliverUp);
    forall k | 0 <= k < |t.down| ensures DownFrame(job, t.down[k]) {
      if k >= |s.down| {
        assert t.down[k] == h.frames[k - |s.down|];
      }
    }
    if t.entry.Active? {
      forall i: nat | i < job.Total() ensures Remembered(t, i) {
        RememberedAfterUp(job, s, t, h.frames, i);
      }
    }
  }

  lemma RememberedAfterUp(job: Job, s: Net, t: Net, frames: seq<Frame>, i: nat)
    requires s.up != [] && Remembered(s, i) && i < job.Total()
    requires Responded(job, s.sender, s.up[0], t.sender, frames)
    requires t.down == s.down + frames && t.up == s.up[1..] && t.entry == s.entry
    ensures Remembered(t, i)
  {
    hide IsMissing, SenderOk, Slice;
    var f := s.up[0];
    var cursor := s.sender.cursor;
    var from := if f.FileChunkAck? && f.status == BadHash && f.index < cursor then f.index else cursor;
    if from <= i < t.sender.cursor {
      IndicesSuffix(s.down, frames, i - from);
    } else if i in ChunkIndices(s.down) {
      IndicesPrefix(s.down, frames, i);
    } else if FileChunkAck(i, BadHash) in s.up {
      var k :| 0 <= k < |s.up| && s.up[k] == FileChunkAck(i, BadHash);
      if k > 0 {
        assert t.up[k - 1] == FileChunkAck(i, BadHash);
      }
    }
  }

  lemma CorruptStep(job: Job, s: Net, at: nat, hash: Bytes, data: Bytes)
    requires job.Ok() && Inv(job, s) && !s.entry.Waiting?
    ensures Inv(job, Apply(job, s, Corrupt(at, hash, data)))
    ensures Apply(job, s, Corrupt(at, hash, data)) == s.(down := Apply(job, s, Corrupt(at, hash, data)).down)
    ensures |Apply(job, s, Corrupt(at, hash, data)).down| == |s.down|
  {
    hide IsMissing, ReceiverOk, SenderOk, Slice;
    var t := Apply(job, s, Corrupt(at, hash, data));
    assert ChunkIndices(t.down) == ChunkIndices(s.down);
    forall k | 0 <= k < |t.down| ensures DownFrame(job, t.down[k]) {
      assert DownFrame(job, s.down[k]);
    }
    if s.entry.Active? {
      forall i: nat | i < job.Total() ensures Remembered(t, i) {
        assert Remembered(s, i);
      }
    }
  }

  lemma StepInv(job: Job, s: Net, step: Step)
    requires job.Ok() && Inv(job, s)
    ensures Inv(job, Apply(job, s, step))
  {
    if s.entry.Waiting? {
      if step.DeliverDown? {
        OfferStep(job);
      }
    } else {
      match step
      case DeliverDown => if s.down != [] { ChunkStep(job, s); }
      case DeliverUp => if s.up != [] { UpStep(job, s); }
      case Corrupt(at, hash, data) => CorruptStep(job, s, at, hash, data);
    }
  }

  lemma {:induction false} RunInv(job: Job, steps: seq<Step>)
    requires job.Ok()
    ensures Inv(job, Run(job, steps))
  {
    if steps != [] {
      RunInv(job, steps[..|steps| - 1]);
      StepInv(job, Run(job, steps[..|steps| - 1]), steps[|steps| - 1]);
    }
  }

  // ---------- Theorems about every run ----------

  /** Credit conservation, corruption and rewinds included: from the handling of the offer on, credits held
      plus chunks in flight plus credits in flight plus chunks consumed without a grant is 50. Hence at most 50
      chunks are outstanding, at most 50 are ever rejected, and `credits` cannot overflow. */
  lemma CreditConservation(job: Job, steps: seq<Step>)
    requires job.Ok()
    ensures var s := Run(job, steps);
            !s.entry.Waiting? ==>
              && s.sender.credits + |s.down| + Units(s.up) + s.wasted == WINDOW
              && |s.down| <= WINDOW && s.wasted <= WINDOW
              && (s.up != [] ==> s.sender.credits + Credit(s.up[0]) <= WINDOW)
  {
    RunInv(job, steps);
  }

  /** No chunk is forgotten while the receiving entry exists, whatever was corrupted. */
  lemma NoChunkForgotten(job: Job, steps: seq<Step>, i: nat)
    requires job.Ok() && i < job.Total() && Run(job, steps).entry.Active?
    ensures var s := Run(job, steps);
            || i >= s.sender.cursor
            || i in ChunkIndices(s.down)
            || FileChunkAck(i, BadHash) in s.up
            || !IsMissing(s.entry.receiver.bitfield, i)
  {
    hide IsMissing, Inv;
    InvRemembers(job, steps, i);
  }

  lemma InvRemembers(job: Job, steps: seq<Step>, i: nat)
    requires job.Ok() && i < job.Total() && Run(job, steps).entry.Active?
    ensures Remembered(Run(job, steps), i)
  {
    hide IsMissing, Remembered;
    RunInv(job, steps);
  }

  /** A run that has come to rest has finished, unless all 50 credits were burnt by rejected chunks. */
  lemma AtRest(job: Job, steps: seq<Step>)
    requires job.Ok() && Run(job, steps).down == [] && Run(job, steps).up == []
    ensures var s := Run(job, steps);
            s.entry.Finished? || (s.entry.Active? && s.wasted == WINDOW && s.sender.credits == 0)
  {
    hide IsMissing;
    RunInv(job, steps);
    var s := Run(job, steps);
    if s.entry.Active? && s.sender.credits > 0 {
      forall i: nat | i < job.Total() ensures !IsMissing(s.entry.receiver.bitfield, i) {
        assert Remembered(s, i);
      }
      ClearedAll(s.entry.receiver.bitfield, job.Total());
    }
  }

  /** The file on disk, at any time: it is the source if and only if the disk already agreed with it wherever a
      chunk is marked missing. */
  lemma FileRightIff(job: Job, steps: seq<Step>)
    requires job.Ok() && !Run(job, steps).entry.Waiting?
    ensures var r := Run(job, steps).entry.receiver; r.file == job.file <==> DiskCovers(job, r.bitfield)
  {
    hide IsMissing;
    RunInv(job, steps);
    FileIff(job, Run(job, steps).entry.receiver);
  }

  /** Completion counts deliveries, so a finished transfer has all its chunks if and only if every stored chunk
      was still marked missing when it arrived; and the file on disk is the source if and only if the chunks that
      are missing were there beforehand. */
  lemma CompletionIff(job: Job, steps: seq<Step>)
    requires job.Ok() && Run(job, steps).entry.Finished?
    ensures var s := Run(job, steps);
            && ((forall i: nat :: i < job.Total() ==> !IsMissing(s.entry.receiver.bitfield, i)) <==> s.repeats == 0)
            && (s.entry.receiver.file == job.file <==> DiskCovers(job, s.entry.receiver.bitfield))
            && (s.repeats == 0 ==> s.entry.receiver.file == job.file)
  {
    hide IsMissing, DiskCovers;
    RunInv(job, steps);
    var s := Run(job, steps);
    ClearedAll(s.entry.receiver.bitfield, job.Total());
    FileIff(job, s.entry.receiver);
    if s.repeats == 0 {
      NothingMissing(job, s.entry.receiver.bitfield);
    }
  }

  // ---------- Termination ----------

  function FrameWeight(f: Frame, total: nat): (n: nat)
  {
    if f.FileChunkAck? && f.status == BadHash then 5 * total + 1 else 1
  }

  function Weight(q: seq<Frame>, total: nat): (n: nat)
  {
    if q == [] then 0 else FrameWeight(q[0], total) + Weight(q[1..], total)
  }

  lemma {:induction false} WeightConcat(a: seq<Frame>, b: seq<Frame>, total: nat)
    ensures Weight(a + b, total) == Weight(a, total) + Weight(b, total)
  {
    if a == [] {
      assert a + b == b;
    } else {
      WeightConcat(a[1..], b, total);
      assert (a + b)[1..] == a[1..] + b;
    }
  }

  /** What the rewinds that are still affordable may cost. */
  function Budget(total: nat, wasted: nat): (n: nat)
    decreases WINDOW - wasted
  {
    if wasted >= WINDOW then 0 else 5 * total + Budget(total, wasted + 1)
  }

  lemma {:induction false} BudgetIs(total: nat, wasted: nat)
    requires wasted <= WINDOW
    ensures Budget(total, wasted) == (WINDOW - wasted) * (5 * total)
    decreases WINDOW - wasted
  {
    if wasted < WINDOW {
      BudgetIs(total, wasted + 1);
      assert (WINDOW - wasted) * (5 * total) == (WINDOW - wasted - 1) * (5 * total) + 5 * total;
    }
  }

  /** Falls with every delivery, in every run. */
  ghost function Potential(job: Job, s: Net): (n: int)
  {
    var total := job.Total();
    if s.entry.Waiting? then 5 * total + 3 + Budget(total, 0)
    else 5 * (total - s.sender.cursor) + 4 * |s.down| + Weight(s.up, total) + Budget(total, s.wasted)
  }

  /** Is there a message for the step to deliver? */
  predicate Delivers(s: Net, step: Step)
  {
    (step.DeliverDown? && s.down != []) || (step.DeliverUp? && s.up != [])
  }

  lemma OfferDrops(job: Job)
    requires job.Ok()
    ensures Potential(job, Apply(job, Start(job), DeliverDown)) < Potential(job, Start(job))
  {
    hide IsMissing, TotalChunks, AllMissing, Fits, Budget;
    var q := OfferReplies(job.Total());
    assert Apply(job, Start(job), DeliverDown).up == q;
    assert Weight(q, job.Total())
        == FrameWeight(q[0], job.Total()) + (FrameWeight(q[1], job.Total()) + Weight(q[1..][1..], job.Total()));
  }

  lemma ChunkDrops(job: Job, s: Net)
    requires job.Ok() && Inv(job, s) && !s.entry.Waiting? && s.down != []
    ensures Potential(job, Apply(job, s, DeliverDown)) < Potential(job, s)
  {
    hide IsMissing, SetMissing, ReceiverOk, SenderOk, Judge, TotalChunks, Fits, Slice, Budget, Weight, Units, Replies;
    var c, total := s.down[0].chunk, job.Total();
    assert DownFrame(job, s.down[0]);
    assert s.wasted < WINDOW;
    BudgetStep(total, s.wasted);
    if s.entry.Active? {
      var v := Judge(job.hash, s.entry.receiver, c);
      VerdictOk(job, s.entry.receiver, s.repeats, c);
      var q := Replies(c, v);
      WeightConcat(s.up, q, total);
      RepliesWeight(c, v, total);
    }
  }

  lemma BudgetStep(total: nat, wasted: nat)
    requires wasted < WINDOW
    ensures Budget(total, wasted) == 5 * total + Budget(total, wasted + 1)
  {
  }

  lemma RepliesWeight(c: Chunk, v: Verdict, total: nat)
    requires !v.OutOfRange?
    ensures Weight(Replies(c, v), total) <= if v.Stored? then 3 else 5 * total + 1
  {
    var q := Replies(c, v);
    if v.Stored? {
      var tail := if IsComplete(v.receiver) then [FileComplete] else [];
      assert q[1..][1..] == tail;
      assert Weight(q, total) == FrameWeight(q[0], total) + (FrameWeight(q[1], total) + Weight(tail, total));
    }
  }

  lemma UpDrops(job: Job, s: Net)
    requires job.Ok() && Inv(job, s) && !s.entry.Waiting? && s.up != []
    ensures Potential(job, Apply(job, s, DeliverUp)) < Potential(job, s)
  {
    hide IsMissing, ReceiverOk, SenderHandle, TotalChunks, Fits, Budget;
    UpStep(job, s);
    assert Weight(s.up, job.Total()) == FrameWeight(s.up[0], job.Total()) + Weight(s.up[1..], job.Total());
  }

  lemma PotentialStep(job: Job, s: Net, step: Step)
    requires job.Ok() && Inv(job, s)
    ensures Potential(job, Apply(job, s, step)) + (if Delivers(s, step) then 1 else 0) <= Potential(job, s)
  {
    hide IsMissing, ReceiverOk, SenderOk, Potential, TotalChunks, Fits;
    if s.entry.Waiting? {
      if step.DeliverDown? {
        OfferDrops(job);
      }
    } else if Delivers(s, step) {
      if step.DeliverDown? {
        ChunkDrops(job, s);
      } else {
        UpDrops(job, s);
      }
    } else if step.Corrupt? {
      CorruptKeeps(job, s, step);
    }
  }

  lemma CorruptKeeps(job: Job, s: Net, step: Step)
    requires step.Corrupt?
    ensures Potential(job, Apply(job, s, step)) == Potential(job, s)
  {
  }

  /** The number of messages delivered by a run. */
  ghost function Deliveries(job: Job, steps: seq<Step>): (n: nat)
    requires |job.file| < U64_SIZE
  {
    if steps == [] then 0
    else
      var before := steps[..|steps| - 1];
      Deliveries(job, before) + if Delivers(Run(job, before), steps[|steps| - 1]) then 1 else 0
  }

  lemma {:induction false} DeliveriesAndPotential(job: Job, steps: seq<Step>)
    requires job.Ok()
    ensures Deliveries(job, steps) + Potential(job, Run(job, steps)) <= Potential(job, Start(job))
  {
    hide IsMissing, ReceiverOk, SenderOk, Potential, TotalChunks, Fits, Inv;
    if steps != [] {
      var before := steps[..|steps| - 1];
      DeliveriesAndPotential(job, before);
      RunInv(job, before);
      PotentialStep(job, Run(job, before), steps[|steps| - 1]);
    }
  }

  /** Every run, whatever data or hashes are corrupted, delivers at most `255 * total + 3` messages: there is no endless
      retransmission. */
  lemma RunsTerminate(job: Job, steps: seq<Step>)
    requires job.Ok()
    ensures Deliveries(job, steps) <= 255 * job.Total() + 3
  {
    hide Run, Budget, Potential, TotalChunks, Fits, Deliveries;
    DeliveriesAndPotential(job, steps);
    PotentialNonNegative(job, steps);
    PotentialAtStart(job);
  }

  lemma PotentialNonNegative(job: Job, steps: seq<Step>)
    requires job.Ok()
    ensures Potential(job, Run(job, steps)) >= 0
  {
    hide IsMissing, ReceiverOk, TotalChunks, Fits, Run, Budget, Weight, Units;
    RunInv(job, steps);
  }

  lemma PotentialAtStart(job: Job)
    requires job.Ok()
    ensures Potential(job, Start(job)) == 255 * job.Total() + 3
  {
    hide Budget, TotalChunks, Fits;
    BudgetIs(job.Total(), 0);
  }
}
