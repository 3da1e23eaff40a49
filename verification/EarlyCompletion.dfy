/** Runs in which a transfer completes without the whole file.

  The first of three chunks is corrupted twice. After the first rejection the sender goes back and sends
  all three again; the receiver counts the second copy of chunk 1 as the third chunk and declares the
  transfer complete with chunk 0 never stored. `OneRejection` has the case of a single rejection.
 */
module EarlyCompletion {
  import opened Bits
  import opened Chunking
  import opened Transfer
  import opened TransferRun
  import opened CleanTransfer

  lemma RunSnoc(job: Job, steps: seq<Step>, step: Step)
    requires |job.file| < U64_SIZE
    ensures Run(job, steps + [step]) == Apply(job, Run(job, steps), step)
  {
    assert (steps + [step])[..|steps|] == steps;
  }

  /** Corruption of the next chunk that its hash shows: no data, and a hash that is wrong in one byte. */
  function Spoil(job: Job): (step: Step)
    requires |job.hash([])| == HASH_SIZE
  {
    var h := job.hash([]);
    Corrupt(0, h[0 := if h[0] == 0 then 1 else 0], [])
  }

  /** After offer, acceptance and credits: all three chunks are in flight and nothing else. */
  lemma AllSent(job: Job) returns (steps: seq<Step>)
    requires job.Ok() && job.Total() == 3
    ensures var s := Run(job, steps);
            && s.entry.Active? && s.entry.receiver.received == 0 && s.entry.receiver.file == job.Prior()
            && s.up == [] && |s.down| == 3 && CleanInv(job, s)
  {
    hide IsMissing, Slice, AllMissing, TotalChunks, Fits, SenderHandle;
    var offered := [DeliverDown];
    var accepted := offered + [DeliverUp];
    steps := accepted + [DeliverUp];
    RunSnoc(job, [], DeliverDown);
    assert [] + [DeliverDown] == offered;
    RunSnoc(job, offered, DeliverUp);
    RunSnoc(job, accepted, DeliverUp);
    RunInv(job, steps);
    CleanRunInv(job, steps);
    hide Run;
    AllInFlight(job, Run(job, steps));
  }

  /** With nothing on its way to the sender and few credits burnt, every chunk has been sent. */
  lemma AllInFlight(job: Job, s: Net)
    requires job.Ok() && job.Total() == 3 && Inv(job, s) && !s.entry.Waiting?
    requires Units(s.up) + s.wasted + |s.down| < 46
    ensures s.sender.cursor == 3
  {
  }

  /** The next chunk is spoilt and rejected. */
  lemma SpoiltChunk(job: Job, s: Net) returns (t: Net)
    requires job.Ok() && Inv(job, s) && s.entry.Active? && s.down != []
    ensures t == Apply(job, Apply(job, s, Spoil(job)), DeliverDown) && Inv(job, t)
    ensures t == s.(down := s.down[1..], wasted := s.wasted + 1,
                    up := s.up + [FileChunkAck(s.down[0].chunk.index, BadHash)])
  {
    hide IsMissing, ReceiverOk, SenderOk, Slice, TotalChunks, Fits;
    var m := Apply(job, s, Spoil(job));
    assert DownFrame(job, s.down[0]);
    StepInv(job, s, Spoil(job));
    StepInv(job, m, DeliverDown);
    t := Apply(job, m, DeliverDown);
  }

  /** The next chunk is intact and stored. */
  lemma StoredChunk(job: Job, s: Net, index: nat) returns (t: Net)
    requires job.Ok() && Inv(job, s) && s.entry.Active? && s.down != [] && Intact(job, s.down[0], index)
    ensures t == Apply(job, s, DeliverDown) && Inv(job, t)
    ensures var r, v := s.entry.receiver, Judge(job.hash, s.entry.receiver, s.down[0].chunk);
            && v.Stored? && v.receiver.received == r.received + 1 && v.receiver.totalChunks == job.Total()
            && v.receiver.bitfield == SetMissing(r.bitfield, index, false)
            && t.entry == (if r.received + 1 == job.Total() then Finished(v.receiver) else Active(v.receiver))
            && t.sender == s.sender && t.down == s.down[1..] && t.wasted == s.wasted
            && t.up == s.up + Replies(s.down[0].chunk, v)
            && Units(t.up) == Units(s.up) + 1
            && (index > 0 ==> v.receiver.file != [] && r.file != [] && v.receiver.file[0] == r.file[0])
  {
    if index > 0 {
      FirstByteKept(job, s.entry.receiver, s.repeats, s.down[0].chunk);
    }
    hide IsMissing, SetMissing, ReceiverOk, SenderOk, Slice, TotalChunks, Fits, Judge;
    assert DownFrame(job, s.down[0]);
    VerdictOk(job, s.entry.receiver, s.repeats, s.down[0].chunk);
    var v := Judge(job.hash, s.entry.receiver, s.down[0].chunk);
    RepliesUnits(s.down[0].chunk, v);
    UnitsConcat(s.up, Replies(s.down[0].chunk, v));
    StepInv(job, s, DeliverDown);
    t := Apply(job, s, DeliverDown);
  }

  /** Storing any chunk but the first leaves the first byte as it was. */
  lemma FirstByteKept(job: Job, r: Receiver, repeats: nat, c: Chunk)
    requires job.Ok() && ReceiverOk(job, r, repeats) && 0 < c.index < job.Total()
    ensures r.file != []
    ensures var v := Judge(job.hash, r, c);
            v.Stored? ==> v.receiver.file != [] && v.receiver.file[0] == r.file[0]
  {
    hide IsMissing, SetMissing, TotalChunks, Fits;
    OffsetExact(|job.file|, job.chunkSize, c.index);
    assert c.index * job.chunkSize >= 1 by {
      MulMonotone(1, c.index, job.chunkSize);
    }
  }

  /** Chunk 0 rejected, chunks 1 and 2 stored, the rejection on its way to the sender. */
  lemma FirstPass(job: Job) returns (steps: seq<Step>)
    requires job.Ok() && job.Total() == 3
    ensures var s := Run(job, steps);
            && Inv(job, s) && s.entry.Active? && s.entry.receiver.received == 2
            && s.entry.receiver.file != [] && s.entry.receiver.file[0] == job.Prior()[0]
            && IsMissing(s.entry.receiver.bitfield, 0)
            && s.down == [] && s.wasted == 1 && Units(s.up) == 2
            && s.up != [] && s.up[0] == FileChunkAck(0, BadHash)
  {
    hide IsMissing, SetMissing, ReceiverOk, SenderOk, Slice, TotalChunks, Fits, Judge, Run;
    var start := AllSent(job);
    RunInv(job, start);
    var s0 := Run(job, start);
    assert Intact(job, s0.down[0], 0) && Intact(job, s0.down[1], 1) && Intact(job, s0.down[2], 2);
    assert IsMissing(s0.entry.receiver.bitfield, 0);
    var s1 := SpoiltChunk(job, s0);
    var s2 := StoredChunk(job, s1, 1);
    var s3 := StoredChunk(job, s2, 2);
    SetMissingAt(s1.entry.receiver.bitfield, 1, false, 0);
    SetMissingAt(s2.entry.receiver.bitfield, 2, false, 0);
    steps := start + [Spoil(job)] + [DeliverDown] + [DeliverDown] + [DeliverDown];
    RunSnoc(job, start, Spoil(job));
    RunSnoc(job, start + [Spoil(job)], DeliverDown);
    RunSnoc(job, start + [Spoil(job)] + [DeliverDown], DeliverDown);
    RunSnoc(job, start + [Spoil(job)] + [DeliverDown] + [DeliverDown], DeliverDown);
    assert Run(job, steps) == s3;
  }

  /** Every three-chunk job has a run that completes with chunk 0 still marked missing and its first byte
      as the disk had it. */
  lemma CompletesEarly(job: Job) returns (steps: seq<Step>)
    requires job.Ok() && job.Total() == 3
    ensures var s := Run(job, steps);
            && s.entry.Finished? && IsMissing(s.entry.receiver.bitfield, 0)
            && s.entry.receiver.file != [] && s.entry.receiver.file[0] == job.Prior()[0]
            && (job.Prior()[0] != job.file[0] ==> s.entry.receiver.file != job.file)
  {
    hide IsMissing, SetMissing, ReceiverOk, Slice, TotalChunks, Fits, Judge, Run, SenderHandle;
    var pass := FirstPass(job);
    var s3 := Run(job, pass);
    AllInFlight(job, s3);
    UpStep(job, s3);
    var s4 := Apply(job, s3, DeliverUp);
    assert Units(s4.up) == 2;
    AllInFlight(job, s4);
    assert Intact(job, s4.down[1], 1);
    var s5 := SpoiltChunk(job, s4);
    var s6 := StoredChunk(job, s5, 1);
    SetMissingAt(s5.entry.receiver.bitfield, 1, false, 0);
    steps := pass + [DeliverUp] + [Spoil(job)] + [DeliverDown] + [DeliverDown];
    RunSnoc(job, pass, DeliverUp);
    RunSnoc(job, pass + [DeliverUp], Spoil(job));
    RunSnoc(job, pass + [DeliverUp] + [Spoil(job)], DeliverDown);
    RunSnoc(job, pass + [DeliverUp] + [Spoil(job)] + [DeliverDown], DeliverDown);
    assert Run(job, steps) == s6;
  }

  /** A concrete case: three one-byte chunks sent to a new file end as something else. */
  lemma WrongFileExample(hash: HashFn) returns (job: Job, steps: seq<Step>)
    requires forall x :: |hash(x)| == HASH_SIZE
    ensures job == Job(hash, [1, 2, 3], 1, []) && job.Ok()
    ensures Run(job, steps).entry.Finished? && Run(job, steps).entry.receiver.file != [1, 2, 3]
  {
    job := Job(hash, [1, 2, 3], 1, []);
    ThreeChunks(job);
    steps := CompletesEarly(job);
  }

  lemma ThreeChunks(job: Job)
    requires |job.file| == 3 && job.chunkSize == 1 && forall x :: |job.hash(x)| == HASH_SIZE
    ensures job.Ok() && job.Total() == 3
  {
  }
}
