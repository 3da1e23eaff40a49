/** Transfers that can no longer finish.

  Every rejected chunk costs a credit for good, so a transfer stops once 50 are gone. `CanFinishIff` says from
  which states a transfer can still finish, whatever the network does from there on.
 */
module StalledTransfer {
  import opened Bits
  import opened Chunking
  import opened Transfer
  import opened TransferRun
  import opened CleanTransfer
  import opened EarlyCompletion

  /** A chunk in flight whose hash does not match. */
  predicate Spoilt(job: Job, f: Frame)
  {
    f.FileChunk? && job.hash(f.chunk.data) != f.chunk.hash
  }

  function SpoiltIn(job: Job, q: seq<Frame>): (n: nat)
    ensures n <= |q|
  {
    if q == [] then 0 else (if Spoilt(job, q[0]) then 1 else 0) + SpoiltIn(job, q[1..])
  }

  /** Credits that are gone or will be once what is in flight has arrived. */
  function Lost(job: Job, s: Net): (n: nat)
  {
    s.wasted + SpoiltIn(job, s.down)
  }

  lemma {:induction false} SpoiltConcat(job: Job, a: seq<Frame>, b: seq<Frame>)
    ensures SpoiltIn(job, a + b) == SpoiltIn(job, a) + SpoiltIn(job, b)
  {
    if a == [] {
      assert a + b == b;
    } else {
      SpoiltConcat(job, a[1..], b);
      assert (a + b)[1..] == a[1..] + b;
    }
  }

  lemma {:induction false} NoneSpoilt(job: Job, q: seq<Frame>)
    requires forall k :: 0 <= k < |q| ==> !Spoilt(job, q[k])
    ensures SpoiltIn(job, q) == 0
  {
    if q != [] {
      NoneSpoilt(job, q[1..]);
    }
  }

  /** Replacing a frame by a spoilt one does not lower the count. */
  lemma {:induction false} SpoiltMore(job: Job, q: seq<Frame>, at: nat, f: Frame)
    requires at < |q| && Spoilt(job, f)
    ensures SpoiltIn(job, q[at := f]) >= SpoiltIn(job, q)
  {
    if at == 0 {
      assert q[at := f][1..] == q[1..];
    } else {
      SpoiltMore(job, q[1..], at - 1, f);
      assert q[at := f][1..] == q[1..][at - 1 := f];
    }
  }

  /** While the transfer goes on, deliveries leave the loss as it is. */
  lemma DeliveryKeepsLost(job: Job, s: Net, step: Step)
    requires job.Ok() && Inv(job, s) && s.entry.Active? && !step.Corrupt?
    ensures Lost(job, Apply(job, s, step)) == Lost(job, s) && !Apply(job, s, step).entry.Waiting?
  {
    hide IsMissing, SetMissing, ReceiverOk, SenderOk, Judge, TotalChunks, Fits, Slice, SenderHandle, Units;
    if step.DeliverDown? && s.down != [] {
      assert DownFrame(job, s.down[0]);
      VerdictOk(job, s.entry.receiver, s.repeats, s.down[0].chunk);
    } else if step.DeliverUp? && s.up != [] {
      UpStep(job, s);
      var frames := SenderHandle(job.hash, s.sender, s.up[0]).frames;
      SpoiltConcat(job, s.down, frames);
      NoneSpoilt(job, frames);
    }
  }

  lemma CorruptionRaisesLost(job: Job, s: Net, step: Step)
    requires step.Corrupt?
    ensures Lost(job, Apply(job, s, step)) >= Lost(job, s) && Apply(job, s, step).entry == s.entry
  {
    var at := step.at;
    if at < |s.down| && s.down[at].FileChunk? && |step.hash| == HASH_SIZE && job.hash(step.data) != step.hash {
      SpoiltMore(job, s.down, at, FileChunk(Chunk(s.down[at].chunk.index, step.hash, step.data)));
    }
  }

  lemma LostBound(job: Job, s: Net)
    requires job.Ok() && Inv(job, s) && !s.entry.Waiting?
    ensures Lost(job, s) <= WINDOW
    ensures Lost(job, s) == WINDOW ==> SpoiltIn(job, s.down) == |s.down|
  {
    hide IsMissing, ReceiverOk, SenderOk, TotalChunks, Fits;
  }

  /** Once all 50 credits are lost they stay lost, and nothing more is stored. */
  lemma DoomedStep(job: Job, s: Net, step: Step)
    requires job.Ok() && Inv(job, s) && s.entry.Active? && Lost(job, s) == WINDOW
    ensures var t := Apply(job, s, step); t.entry == s.entry && Lost(job, t) == WINDOW
  {
    hide IsMissing, SetMissing, ReceiverOk, SenderOk, TotalChunks, Fits, Slice, SenderHandle, Units, Inv;
    LostBound(job, s);
    StepInv(job, s, step);
    if step.Corrupt? {
      CorruptionRaisesLost(job, s, step);
    } else {
      DeliveryKeepsLost(job, s, step);
      if step.DeliverDown? && s.down != [] {
        assert Spoilt(job, s.down[0]);
      }
    }
    LostBound(job, Apply(job, s, step));
  }

  lemma RunConcat(job: Job, steps: seq<Step>, more: seq<Step>, step: Step)
    requires |job.file| < U64_SIZE
    ensures Run(job, steps + (more + [step])) == Apply(job, Run(job, steps + more), step)
  {
    RunSnoc(job, steps + more, step);
    assert steps + (more + [step]) == steps + more + [step];
  }

  lemma {:induction false} DoomedForever(job: Job, steps: seq<Step>, more: seq<Step>)
    requires job.Ok() && Run(job, steps).entry.Active? && Lost(job, Run(job, steps)) == WINDOW
    ensures var t := Run(job, steps + more); t.entry == Run(job, steps).entry && Lost(job, t) == WINDOW
  {
    hide Run, Apply, Inv, Lost;
    if more == [] {
      assert steps + more == steps;
    } else {
      var n := |more| - 1;
      DoomedForever(job, steps, more[..n]);
      RunInv(job, steps + more[..n]);
      DoomedStep(job, Run(job, steps + more[..n]), more[n]);
      RunConcat(job, steps, more[..n], more[n]);
      assert more == more[..n] + [more[n]];
    }
  }

  lemma SomethingInFlight(job: Job, steps: seq<Step>)
    requires job.Ok() && Run(job, steps).entry.Active? && Lost(job, Run(job, steps)) < WINDOW
    ensures Run(job, steps).down != [] || Run(job, steps).up != []
  {
    hide Run, SpoiltIn;
    if Run(job, steps).down == [] && Run(job, steps).up == [] {
      AtRest(job, steps);
    }
  }

  /** With a credit left, plain deliveries finish the transfer. */
  lemma {:induction false} FinishFrom(job: Job, steps: seq<Step>) returns (more: seq<Step>)
    requires job.Ok() && Run(job, steps).entry.Active? && Lost(job, Run(job, steps)) < WINDOW
    ensures Run(job, steps + more).entry.Finished? && Clean(more)
    decreases Potential(job, Run(job, steps))
  {
    hide Run, Apply, Inv, Lost, Potential;
    var s := Run(job, steps);
    SomethingInFlight(job, steps);
    RunInv(job, steps);
    PotentialNonNegative(job, steps);
    var step := if s.down != [] then DeliverDown else DeliverUp;
    PotentialStep(job, s, step);
    DeliveryKeepsLost(job, s, step);
    RunSnoc(job, steps, step);
    if Run(job, steps + [step]).entry.Finished? {
      more := [step];
    } else {
      var rest := FinishFrom(job, steps + [step]);
      more := [step] + rest;
      assert steps + more == steps + [step] + rest;
    }
  }

  ghost predicate Finishes(job: Job, steps: seq<Step>, more: seq<Step>)
    requires |job.file| < U64_SIZE
  {
    Run(job, steps + more).entry.Finished?
  }

  /** A transfer under way has a finishing continuation if and only if the chunks rejected so far and the spoilt
      chunks in flight are fewer than 50. */
  lemma CanFinishIff(job: Job, steps: seq<Step>)
    requires job.Ok() && Run(job, steps).entry.Active?
    ensures (exists more :: Finishes(job, steps, more)) <==> Lost(job, Run(job, steps)) < WINDOW
  {
    hide Run, Lost, Inv;
    RunInv(job, steps);
    LostBound(job, Run(job, steps));
    if Lost(job, Run(job, steps)) < WINDOW {
      var more := FinishFrom(job, steps);
      assert Finishes(job, steps, more);
    } else {
      forall more ensures !Finishes(job, steps, more) {
        DoomedForever(job, steps, more);
      }
    }
  }

  // ---------- A run that stops ----------

  /** Spoil everything that arrives. */
  lemma {:induction false} Starve(job: Job, steps: seq<Step>) returns (more: seq<Step>)
    requires job.Ok() && Run(job, steps).entry.Active? && Run(job, steps).entry.receiver.received == 0
    ensures var s := Run(job, steps + more);
            s.entry.Active? && s.wasted == WINDOW && s.down == [] && s.up == [] && s.entry.receiver.received == 0
    decreases Potential(job, Run(job, steps))
  {
    hide Run, Apply, Inv, Potential;
    var s := Run(job, steps);
    RunInv(job, steps);
    PotentialNonNegative(job, steps);
    if s.down != [] {
      var spoil := Spoil(job);
      var t := SpoiltChunk(job, s);
      StepInv(job, s, spoil);
      PotentialStep(job, s, spoil);
      SpoilKeepsQueue(job, s);
      PotentialStep(job, Apply(job, s, spoil), DeliverDown);
      RunSnoc(job, steps, spoil);
      RunSnoc(job, steps + [spoil], DeliverDown);
      var rest := Starve(job, steps + [spoil] + [DeliverDown]);
      more := [spoil] + [DeliverDown] + rest;
      assert steps + more == steps + [spoil] + [DeliverDown] + rest;
    } else if s.up != [] {
      PotentialStep(job, s, DeliverUp);
      RunSnoc(job, steps, DeliverUp);
      UpKeepsEntry(job, s);
      var rest := Starve(job, steps + [DeliverUp]);
      more := [DeliverUp] + rest;
      assert steps + more == steps + [DeliverUp] + rest;
    } else {
      AtRest(job, steps);
      more := [];
      assert steps + more == steps;
    }
  }

  lemma SpoilKeepsQueue(job: Job, s: Net)
    requires |job.hash([])| == HASH_SIZE
    ensures |Apply(job, s, Spoil(job)).down| == |s.down|
  {
  }

  lemma UpKeepsEntry(job: Job, s: Net)
    ensures Apply(job, s, DeliverUp).entry == s.entry
  {
  }

  /** Every transfer can be stopped: a run after which nothing is in flight, the receiver waits, and no continuation
      finishes. */
  lemma StuckRun(job: Job) returns (steps: seq<Step>)
    requires job.Ok()
    ensures var s := Run(job, steps);
            s.entry.Active? && s.wasted == WINDOW && s.down == [] && s.up == [] && s.entry.receiver.received == 0
    ensures forall more :: !Finishes(job, steps, more)
  {
    hide IsMissing, AllMissing, TotalChunks, Fits, SpoiltIn;
    var offered := [DeliverDown];
    RunSnoc(job, [], DeliverDown);
    assert [] + [DeliverDown] == offered;
    var rest := Starve(job, offered);
    steps := offered + rest;
    CanFinishIff(job, steps);
  }
}
