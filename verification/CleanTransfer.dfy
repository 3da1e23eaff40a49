/** Runs in which no chunk is corrupted, and the transfer of an empty file. */
module CleanTransfer {
  import opened Chunking
  import opened Transfer
  import opened TransferRun

  ghost predicate Clean(steps: seq<Step>)
  {
    forall i :: 0 <= i < |steps| ==> !steps[i].Corrupt?
  }

  /** A chunk exactly as the sender made it. */
  ghost predicate Intact(job: Job, f: Frame, index: nat)
  {
    && f.FileChunk? && f.chunk.index == index
    && f.chunk.data == Slice(job.file, job.chunkSize, index) && f.chunk.hash == job.hash(f.chunk.data)
  }

  ghost predicate NoNack(f: Frame)
  {
    !(f.FileChunkAck? && f.status == BadHash)
  }

  /** The receiver has the chunks below `received`, the channel carries the next ones in order, and the
      sender continues where the channel ends. */
  ghost predicate CleanInv(job: Job, s: Net)
  {
    !s.entry.Waiting? ==>
      var n := s.entry.receiver.received;
      && s.wasted == 0 && s.repeats == 0
      && (forall k :: 0 <= k < |s.up| ==> NoNack(s.up[k]))
      && n + |s.down| == s.sender.cursor
      && (forall k :: 0 <= k < |s.down| ==> Intact(job, s.down[k], n + k))
      && (forall i: nat :: i < job.Total() ==> (IsMissing(s.entry.receiver.bitfield, i) <==> i >= n))
      && |s.sent| == s.sender.cursor && (forall i :: 0 <= i < |s.sent| ==> s.sent[i] == i)
  }

  lemma CleanOffer(job: Job)
    requires job.Ok()
    ensures CleanInv(job, Apply(job, Start(job), DeliverDown))
  {
    forall i: nat | i < job.Total() ensures IsMissing(AllMissing(job.Total()), i) {
      AllMissingIsMissing(job.Total(), i);
    }
    hide IsMissing, TotalChunks, AllMissing, Fits;
    assert Apply(job, Start(job), DeliverDown).up == OfferReplies(job.Total());
  }

  lemma CleanChunk(job: Job, s: Net)
    requires job.Ok() && Inv(job, s) && CleanInv(job, s) && !s.entry.Waiting? && s.down != []
    ensures CleanInv(job, Apply(job, s, DeliverDown))
  {
    hide IsMissing, SetMissing, ReceiverOk, SenderOk, Judge, TotalChunks, Fits, Slice, Units;
    assert Intact(job, s.down[0], s.entry.receiver.received);
    assert DownFrame(job, s.down[0]);
    CursorInRange(job, s);
    var r, c := s.entry.receiver, s.down[0].chunk;
    assert s.entry.Active?;
    VerdictOk(job, r, s.repeats, c);
    var t := Apply(job, s, DeliverDown);
    forall k | 0 <= k < |t.down| ensures Intact(job, t.down[k], r.received + 1 + k) {
      assert Intact(job, s.down[k + 1], r.received + (k + 1));
    }
    forall i: nat | i < job.Total() ensures IsMissing(t.entry.receiver.bitfield, i) <==> i >= r.received + 1 {
      SetMissingAt(r.bitfield, c.index, false, i);
      BitmapCovers(job, r, s.repeats, c.index);
    }
  }

  lemma CursorInRange(job: Job, s: Net)
    requires job.Ok() && Inv(job, s) && !s.entry.Waiting?
    ensures s.sender.cursor <= job.Total()
    ensures s.entry.Finished? ==> s.entry.receiver.received == job.Total()
  {
  }

  lemma BitmapCovers(job: Job, r: Receiver, repeats: nat, index: nat)
    requires job.Ok() && ReceiverOk(job, r, repeats) && index < job.Total()
    ensures index / 8 < |r.bitfield|
  {
  }

  lemma CleanUp(job: Job, s: Net)
    requires job.Ok() && Inv(job, s) && CleanInv(job, s) && !s.entry.Waiting? && s.up != []
    ensures CleanInv(job, Apply(job, s, DeliverUp))
  {
    hide IsMissing, ReceiverOk, SenderOk, SenderHandle, Slice, TotalChunks, Fits, Units;
    UpStep(job, s);
    assert NoNack(s.up[0]);
    var h := SenderHandle(job.hash, s.sender, s.up[0]);
    var t := Apply(job, s, DeliverUp);
    var n := s.entry.receiver.received;
    forall k | 0 <= k < |t.down| ensures Intact(job, t.down[k], n + k) {
      if k < |s.down| {
        assert Intact(job, s.down[k], n + k);
      } else {
        assert t.down[k] == h.frames[k - |s.down|];
      }
    }
  }

  lemma {:induction false} CleanRunInv(job: Job, steps: seq<Step>)
    requires job.Ok() && Clean(steps)
    ensures CleanInv(job, Run(job, steps))
  {
    hide IsMissing, ReceiverOk, SenderOk, TotalChunks, Fits;
    if steps != [] {
      var before := steps[..|steps| - 1];
      CleanRunInv(job, before);
      RunInv(job, before);
      var s := Run(job, before);
      if s.entry.Waiting? {
        CleanOffer(job);
      } else if s.down != [] && steps[|steps| - 1].DeliverDown? {
        CleanChunk(job, s);
      } else if s.up != [] && steps[|steps| - 1].DeliverUp? {
        CleanUp(job, s);
      }
    }
  }

  /** End-to-end correctness of clean runs: chunks are sent once each in increasing order, the count of received
      chunks is the number of cleared bits, and a completed transfer leaves the source file on disk. */
  lemma CleanRunIsFaithful(job: Job, steps: seq<Step>)
    requires job.Ok() && Clean(steps)
    ensures var s := Run(job, steps);
            && |s.sent| <= job.Total() && (forall i :: 0 <= i < |s.sent| ==> s.sent[i] == i)
            && (s.entry.Active? ==> s.entry.receiver.received == Cleared(s.entry.receiver.bitfield, job.Total()))
            && (s.entry.Finished? ==> s.entry.receiver.file == job.file && |s.sent| == job.Total())
  {
    hide IsMissing, ReceiverOk, SenderOk, TotalChunks, Fits, Units;
    CleanRunInv(job, steps);
    RunInv(job, steps);
    var s := Run(job, steps);
    if !s.entry.Waiting? {
      CursorInRange(job, s);
      ClearedPrefix(s.entry.receiver.bitfield, job.Total(), s.entry.receiver.received);
    }
    if s.entry.Finished? {
      CompletionIff(job, steps);
    }
  }

  /** Clean runs cannot get stuck: as long as the transfer is not finished some message is in flight.
      With `RunsTerminate`, every clean run that keeps delivering reaches the source file on disk. */
  lemma CleanRunNeverStuck(job: Job, steps: seq<Step>)
    requires job.Ok() && Clean(steps)
    ensures var s := Run(job, steps);
            s.down == [] && s.up == [] ==> s.entry.Finished? && s.entry.receiver.file == job.file
  {
    hide IsMissing, ReceiverOk, SenderOk, TotalChunks, Fits, Units;
    CleanRunInv(job, steps);
    CleanRunIsFaithful(job, steps);
    if Run(job, steps).down == [] && Run(job, steps).up == [] {
      AtRest(job, steps);
    }
  }

  // ---------- The empty file ----------

  predicate NothingToSend(s: Net)
  {
    s.sender.totalChunks == 0 && !s.entry.Finished? && forall i :: 0 <= i < |s.down| ==> s.down[i].FileOffer?
  }

  lemma NothingSent(job: Job, s: Sender, f: Frame)
    requires s.totalChunks == 0
    ensures SenderHandle(job.hash, s, f).frames == [] && SenderHandle(job.hash, s, f).sender.totalChunks == 0
  {
  }

  /** Completion is only looked for when a chunk arrives, so the transfer of an empty file never completes. */
  lemma {:induction false} EmptyFileNeverCompletes(job: Job, steps: seq<Step>)
    requires job.file == []
    ensures NothingToSend(Run(job, steps)) && !Run(job, steps).entry.Finished?
  {
    if steps == [] {
      assert NothingToSend(Start(job));
    } else {
      hide Apply;
      EmptyFileNeverCompletes(job, steps[..|steps| - 1]);
      NothingToSendStep(job, Run(job, steps[..|steps| - 1]), steps[|steps| - 1]);
    }
  }

  lemma NothingToSendStep(job: Job, s: Net, step: Step)
    requires NothingToSend(s)
    ensures NothingToSend(Apply(job, s, step))
  {
    hide SenderHandle, Judge, Replies, OfferReplies, NewReceiver;
    if step.DeliverUp? && s.up != [] {
      NothingSent(job, s.sender, s.up[0]);
    }
  }
}
