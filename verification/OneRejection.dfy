/** Runs in which exactly one chunk is corrupted, once.

  The rejection of chunk `i` travels behind the credits of the chunks before it, so it always finds the sender's
  cursor at `min(total, i + 50)`. The sender goes back to `i` and sends everything from there again, while the
  receiver counts deliveries. Hence the transfer completes with every chunk if and only if `total <= i + 50`;
  otherwise the chunks from `max(i + 50, total - 49)` on are never stored.
 */
module OneRejection {
  import opened Bits
  import opened Wire
  import opened Chunking
  import opened Transfer
  import opened TransferRun
  import opened CleanTransfer
  import opened EarlyCompletion
  import opened StalledTransfer

  /** Step `p` corrupts a copy of chunk `i` in flight, and no other step corrupts anything. */
  ghost predicate SpoilsOne(job: Job, steps: seq<Step>, p: nat, i: nat)
    requires |job.file| < U64_SIZE
  {
    && p < |steps| && (forall q :: 0 <= q < |steps| && q != p ==> !steps[q].Corrupt?)
    && Hits(job, Run(job, steps[..p]), steps[p], i)
  }

  predicate Hits(job: Job, s: Net, step: Step, i: nat)
  {
    && step.Corrupt? && step.at < |s.down| && s.down[step.at].FileChunk? && s.down[step.at].chunk.index == i
    && |step.hash| == HASH_SIZE && job.hash(step.data) != step.hash
  }

  /** Where the cursor stands when the rejection arrives. */
  function Reached(job: Job, i: nat): (m: nat)
  {
    if job.Total() < i + WINDOW then job.Total() else i + WINDOW
  }

  /** After `n` deliveries: the next index of the first pass, and of the second. */
  function NextFirst(n: nat, m: nat): (a: nat)
  {
    if n + 1 < m then n + 1 else m
  }

  function NextAgain(n: nat, m: nat, i: nat): (q: nat)
  {
    if n + 1 < m then i else n + 1 - m + i
  }

  ghost predicate Acks(up: seq<Frame>)
  {
    forall k :: 0 <= k < |up| ==> NoNack(up[k])
  }

  predicate IsNack(f: Frame, i: nat)
  {
    f.FileChunkAck? && f.index == i && f.status == BadHash
  }

  ghost predicate MissingFromOn(job: Job, bitfield: Bytes, n: nat)
  {
    forall j: nat :: j < job.Total() ==> (IsMissing(bitfield, j) <==> j >= n)
  }

  ghost predicate MissingBoth(job: Job, bitfield: Bytes, i: nat, n: nat)
  {
    forall j: nat :: j < job.Total() ==> (IsMissing(bitfield, j) <==> j == i || j >= n)
  }

  /** The spoilt chunk is still in flight. */
  ghost predicate Phase1(job: Job, s: Net, i: nat)
  {
    && s.entry.Active? && s.wasted == 0 && Acks(s.up)
    && var n := s.entry.receiver.received;
       && n <= i < n + |s.down| == s.sender.cursor
       && (forall k :: 0 <= k < |s.down| && n + k != i ==> Intact(job, s.down[k], n + k))
       && Spoilt(job, s.down[i - n]) && s.down[i - n].chunk.index == i
       && MissingFromOn(job, s.entry.receiver.bitfield, n)
  }

  /** Its rejection is at position `p` of the way back, and the credits behind it are those of later chunks. */
  ghost predicate Phase2(job: Job, s: Net, i: nat, p: nat)
  {
    && s.entry.Active? && s.wasted == 1
    && p < |s.up| && IsNack(s.up[p], i) && Acks(s.up[..p]) && Acks(s.up[p + 1..])
    && var n := s.entry.receiver.received;
       && i <= n && n + 1 + |s.down| == s.sender.cursor
       && Units(s.up[p + 1..]) == n - i
       && (forall k :: 0 <= k < |s.down| ==> Intact(job, s.down[k], n + 1 + k))
       && MissingBoth(job, s.entry.receiver.bitfield, i, n + 1)
  }

  /** The index of the `k`th chunk in flight during the second pass. */
  function InFlight(n: nat, m: nat, i: nat, k: nat): (index: nat)
  {
    if NextFirst(n, m) + k < m then NextFirst(n, m) + k else NextAgain(n, m, i) + k - (m - NextFirst(n, m))
  }

  ghost predicate StillMissing(job: Job, bitfield: Bytes, n: nat, i: nat)
  {
    var m := Reached(job, i);
    var a, q := NextFirst(n, m), NextAgain(n, m, i);
    forall j: nat :: j < job.Total() ==> (IsMissing(bitfield, j) <==> (j == i == q) || (j >= a && j >= q))
  }

  /** The sender has gone back. */
  ghost predicate Phase3(job: Job, s: Net, i: nat)
  {
    && s.entry.Active? && s.wasted == 1 && Acks(s.up)
    && var n, m := s.entry.receiver.received, Reached(job, i);
       && i < m && i <= n
       && |s.down| == (m - NextFirst(n, m)) + (s.sender.cursor - NextAgain(n, m, i))
       && s.sender.cursor >= NextAgain(n, m, i)
       && (forall k :: 0 <= k < |s.down| ==> Intact(job, s.down[k], InFlight(n, m, i, k)))
       && StillMissing(job, s.entry.receiver.bitfield, n, i)
  }

  /** The transfer is complete, and the receiver's entry gone. */
  ghost predicate Phase4(job: Job, s: Net, i: nat)
  {
    s.entry.Finished? && StillMissing(job, s.entry.receiver.bitfield, job.Total(), i)
  }

  ghost predicate OneInv(job: Job, s: Net, i: nat)
  {
    Phase1(job, s, i) || (exists p :: Phase2(job, s, i, p)) || Phase3(job, s, i) || Phase4(job, s, i)
  }

  // ---------- Steps ----------

  lemma HitStep(job: Job, s: Net, step: Step, i: nat)
    requires job.Ok() && Inv(job, s) && CleanInv(job, s) && Hits(job, s, step, i)
    ensures Phase1(job, Apply(job, s, step), i)
  {
    hide IsMissing, ReceiverOk, SenderOk, TotalChunks, Fits, Slice, Units;
    assert !s.entry.Waiting?;
    CursorInRange(job, s);
    assert s.entry.Active?;
    var n := s.entry.receiver.received;
    assert Intact(job, s.down[step.at], n + step.at);
    var t := Apply(job, s, step);
    forall k | 0 <= k < |t.down| && n + k != i ensures Intact(job, t.down[k], n + k) {
      assert Intact(job, s.down[k], n + k);
    }
  }

  /** What storing the intact chunk at the head of the channel does. */
  lemma Stores(job: Job, s: Net, index: nat)
    requires job.Ok() && Inv(job, s) && s.entry.Active? && s.down != [] && Intact(job, s.down[0], index)
    ensures index < job.Total()
    ensures var t := Apply(job, s, DeliverDown);
            && !t.entry.Waiting? && t.sender == s.sender && t.down == s.down[1..] && t.wasted == s.wasted
            && t.entry.receiver.received == s.entry.receiver.received + 1
            && (t.entry.Finished? <==> s.entry.receiver.received + 1 == job.Total())
            && (forall j: nat :: j < job.Total() ==>
                  (IsMissing(t.entry.receiver.bitfield, j) <==> j != index && IsMissing(s.entry.receiver.bitfield, j)))
            && exists replies :: t.up == s.up + replies && Acks(replies) && Units(replies) == 1
  {
    hide IsMissing, SetMissing, ReceiverOk, SenderOk, Slice, TotalChunks, Fits, Judge, Units, Replies;
    assert DownFrame(job, s.down[0]);
    var c := s.down[0].chunk;
    var v := Judge(job.hash, s.entry.receiver, c);
    VerdictOk(job, s.entry.receiver, s.repeats, c);
    BitmapCovers(job, s.entry.receiver, s.repeats, index);
    var t := Apply(job, s, DeliverDown);
    forall j: nat | j < job.Total()
      ensures IsMissing(t.entry.receiver.bitfield, j) <==> j != index && IsMissing(s.entry.receiver.bitfield, j)
    {
      SetMissingAt(s.entry.receiver.bitfield, index, false, j);
    }
    RepliesUnits(c, v);
    RepliesAck(c, v);
    assert t.up == s.up + Replies(c, v);
  }

  lemma RepliesAck(c: Chunk, v: Verdict)
    requires v.Stored?
    ensures Acks(Replies(c, v))
  {
  }

  lemma Phase1Down(job: Job, s: Net, i: nat)
    requires job.Ok() && Inv(job, s) && Phase1(job, s, i)
    ensures OneInv(job, Apply(job, s, DeliverDown), i)
  {
    hide IsMissing, Inv, Slice, Phase2, Phase3, Receive, Respond, MissingFromOn;
    if s.entry.receiver.received < i {
      Phase1Store(job, s, i);
    } else {
      Phase1Reject(job, s, i);
    }
  }

  lemma Phase1Store(job: Job, s: Net, i: nat)
    requires job.Ok() && Inv(job, s) && Phase1(job, s, i) && s.entry.receiver.received < i
    ensures Phase1(job, Apply(job, s, DeliverDown), i)
  {
    hide IsMissing, ReceiverOk, SenderOk, TotalChunks, Fits, Slice, Units, Judge;
    var n, t := s.entry.receiver.received, Apply(job, s, DeliverDown);
    CursorInRange(job, s);
    assert Intact(job, s.down[0], n + 0);
    Stores(job, s, n);
    forall k | 0 <= k < |t.down| && n + 1 + k != i ensures Intact(job, t.down[k], n + 1 + k) {
      assert Intact(job, s.down[k + 1], n + (k + 1));
    }
  }

  lemma Phase1Reject(job: Job, s: Net, i: nat)
    requires Phase1(job, s, i) && s.entry.receiver.received == i
    ensures Phase2(job, Apply(job, s, DeliverDown), i, |s.up|)
  {
    hide IsMissing, TotalChunks, Slice, Units, Apply;
    var n, t := s.entry.receiver.received, Apply(job, s, DeliverDown);
    Rejects(job, s, i);
    NoUnits();
    assert t.up[|s.up| + 1..] == [] && t.up[..|s.up|] == s.up;
    forall k | 0 <= k < |t.down| ensures Intact(job, t.down[k], n + 1 + k) {
      assert Intact(job, s.down[k + 1], n + (k + 1));
    }
  }

  lemma NoUnits()
    ensures Units([]) == 0
  {
  }

  lemma Rejects(job: Job, s: Net, i: nat)
    requires s.entry.Active? && s.down != [] && Spoilt(job, s.down[0]) && s.down[0].chunk.index == i
    ensures Apply(job, s, DeliverDown)
         == s.(down := s.down[1..], wasted := s.wasted + 1, up := s.up + [FileChunkAck(i, BadHash)])
  {
  }

  /** A frame that is no rejection reaches the sender: it goes on where it was. */
  lemma GoesOn(job: Job, s: Net) returns (frames: seq<Frame>)
    requires job.Ok() && Inv(job, s) && !s.entry.Waiting? && s.up != [] && NoNack(s.up[0])
    ensures var t := Apply(job, s, DeliverUp);
            && t.entry == s.entry && t.up == s.up[1..] && t.down == s.down + frames && t.wasted == s.wasted
            && t.sender.cursor == s.sender.cursor + |frames|
            && forall k :: 0 <= k < |frames| ==> Intact(job, frames[k], s.sender.cursor + k)
  {
    hide IsMissing, ReceiverOk, SenderOk, TotalChunks, Fits, Slice, Units, SenderHandle;
    UpStep(job, s);
    frames := SenderHandle(job.hash, s.sender, s.up[0]).frames;
  }

  lemma Phase1Up(job: Job, s: Net, i: nat)
    requires job.Ok() && Inv(job, s) && Phase1(job, s, i) && s.up != []
    ensures OneInv(job, Apply(job, s, DeliverUp), i)
  {
    hide IsMissing, Inv, Slice, Apply, MissingFromOn;
    var frames := GoesOn(job, s);
    var n, t := s.entry.receiver.received, Apply(job, s, DeliverUp);
    forall k | 0 <= k < |t.down| && n + k != i ensures Intact(job, t.down[k], n + k) {
      if k < |s.down| {
        assert Intact(job, s.down[k], n + k);
      } else {
        assert Intact(job, frames[k - |s.down|], s.sender.cursor + (k - |s.down|));
      }
    }
    assert Phase1(job, t, i);
  }

  lemma Phase2Down(job: Job, s: Net, i: nat, p: nat)
    requires job.Ok() && Inv(job, s) && Phase2(job, s, i, p) && s.down != []
    ensures Phase2(job, Apply(job, s, DeliverDown), i, p)
  {
    hide IsMissing, ReceiverOk, SenderOk, TotalChunks, Fits, Slice, Units, Judge;
    var n, t := s.entry.receiver.received, Apply(job, s, DeliverDown);
    CursorInRange(job, s);
    assert Intact(job, s.down[0], n + 1 + 0);
    Stores(job, s, n + 1);
    var replies :| t.up == s.up + replies && Acks(replies) && Units(replies) == 1;
    UnitsConcat(s.up[p + 1..], replies);
    assert t.up[p + 1..] == s.up[p + 1..] + replies && t.up[..p] == s.up[..p];
    forall k | 0 <= k < |t.down| ensures Intact(job, t.down[k], n + 2 + k) {
      assert Intact(job, s.down[k + 1], n + 1 + (k + 1));
    }
  }

  lemma Phase2Up(job: Job, s: Net, i: nat, p: nat)
    requires job.Ok() && Inv(job, s) && Phase2(job, s, i, p) && p > 0
    ensures Phase2(job, Apply(job, s, DeliverUp), i, p - 1)
  {
    hide IsMissing, Inv, Slice, Apply, MissingBoth, Units;
    assert NoNack(s.up[..p][0]);
    var frames := GoesOn(job, s);
    var n, t := s.entry.receiver.received, Apply(job, s, DeliverUp);
    assert t.up[p..] == s.up[p + 1..] && t.up[..p - 1] == s.up[..p][1..];
    forall k | 0 <= k < |t.down| ensures Intact(job, t.down[k], n + 1 + k) {
      if k < |s.down| {
        assert Intact(job, s.down[k], n + 1 + k);
      } else {
        assert Intact(job, frames[k - |s.down|], s.sender.cursor + (k - |s.down|));
      }
    }
  }

  /** The rejection arrives with the cursor at `min(total, i + 50)`. */
  lemma CursorAtRejection(job: Job, s: Net, i: nat)
    requires job.Ok() && Inv(job, s) && Phase2(job, s, i, 0)
    ensures s.sender.cursor == Reached(job, i)
  {
    hide IsMissing, ReceiverOk, TotalChunks, Fits, Slice;
    assert Units(s.up) == Credit(s.up[0]) + Units(s.up[1..]);
  }

  lemma GoesBack(job: Job, s: Net, i: nat)
    requires job.Ok() && Inv(job, s) && Phase2(job, s, i, 0)
    ensures Phase3(job, Apply(job, s, DeliverUp), i)
  {
    hide IsMissing, ReceiverOk, SenderOk, TotalChunks, Fits, Slice, SenderHandle, Units, MissingBoth, Reached;
    CursorAtRejection(job, s, i);
    UpStep(job, s);
    var n, m, t := s.entry.receiver.received, Reached(job, i), Apply(job, s, DeliverUp);
    var frames := SenderHandle(job.hash, s.sender, s.up[0]).frames;
    assert t.up == s.up[0 + 1..];
    forall k | 0 <= k < |t.down| ensures Intact(job, t.down[k], InFlight(n, m, i, k)) {
      if k < |s.down| {
        assert Intact(job, s.down[k], n + 1 + k);
      } else {
        assert t.down[k] == frames[k - |s.down|];
      }
    }
    BothIsStill(job, s.entry.receiver.bitfield, n, i);
  }

  lemma BothIsStill(job: Job, bitfield: Bytes, n: nat, i: nat)
    requires MissingBoth(job, bitfield, i, n + 1) && n + 1 <= Reached(job, i) && i <= n
    ensures StillMissing(job, bitfield, n, i)
  {
    hide IsMissing, TotalChunks;
  }

  lemma Phase3Down(job: Job, s: Net, i: nat)
    requires job.Ok() && Inv(job, s) && Phase3(job, s, i) && s.down != []
    ensures OneInv(job, Apply(job, s, DeliverDown), i)
  {
    hide IsMissing, ReceiverOk, SenderOk, TotalChunks, Fits, Slice, Units, Judge, StillMissing, Reached;
    var n, m, t := s.entry.receiver.received, Reached(job, i), Apply(job, s, DeliverDown);
    var index := InFlight(n, m, i, 0);
    assert Intact(job, s.down[0], index);
    Stores(job, s, index);
    var replies :| t.up == s.up + replies && Acks(replies) && Units(replies) == 1;
    StillNext(job, s.entry.receiver.bitfield, t.entry.receiver.bitfield, n, i);
    if t.entry.Active? {
      forall k | 0 <= k < |t.down| ensures Intact(job, t.down[k], InFlight(n + 1, m, i, k)) {
        assert Intact(job, s.down[k + 1], InFlight(n, m, i, k + 1));
      }
      assert Phase3(job, t, i);
    } else {
      assert Phase4(job, t, i);
    }
  }

  lemma StillNext(job: Job, before: Bytes, after: Bytes, n: nat, i: nat)
    requires StillMissing(job, before, n, i) && i < Reached(job, i) && i <= n
    requires forall j: nat :: j < job.Total() ==>
               (IsMissing(after, j) <==> j != InFlight(n, Reached(job, i), i, 0) && IsMissing(before, j))
    ensures StillMissing(job, after, n + 1, i)
  {
    hide IsMissing, TotalChunks;
  }

  lemma Phase3Up(job: Job, s: Net, i: nat)
    requires job.Ok() && Inv(job, s) && Phase3(job, s, i) && s.up != []
    ensures Phase3(job, Apply(job, s, DeliverUp), i)
  {
    hide IsMissing, Inv, Slice, Apply, StillMissing, Reached;
    assert NoNack(s.up[0]);
    var frames := GoesOn(job, s);
    var n, m, t := s.entry.receiver.received, Reached(job, i), Apply(job, s, DeliverUp);
    forall k | 0 <= k < |t.down| ensures Intact(job, t.down[k], InFlight(n, m, i, k)) {
      if k < |s.down| {
        assert Intact(job, s.down[k], InFlight(n, m, i, k));
      } else {
        assert Intact(job, frames[k - |s.down|], s.sender.cursor + (k - |s.down|));
      }
    }
  }

  lemma Phase4Step(job: Job, s: Net, step: Step, i: nat)
    requires job.Ok() && Inv(job, s) && Phase4(job, s, i)
    ensures Phase4(job, Apply(job, s, step), i)
  {
    hide IsMissing, ReceiverOk, SenderOk, TotalChunks, Fits, Slice, Units, Judge, SenderHandle, StillMissing;
    if s.down != [] {
      assert DownFrame(job, s.down[0]);
    }
  }

  lemma OneStep(job: Job, s: Net, step: Step, i: nat)
    requires job.Ok() && Inv(job, s) && OneInv(job, s, i) && !step.Corrupt?
    ensures OneInv(job, Apply(job, s, step), i)
  {
    hide IsMissing, Inv, Slice, Phase3, Receive, Respond, MissingFromOn, MissingBoth;
    if Phase4(job, s, i) {
      Phase4Step(job, s, step, i);
    } else if Phase1(job, s, i) {
      if step.DeliverDown? {
        Phase1Down(job, s, i);
      } else if s.up != [] {
        Phase1Up(job, s, i);
      }
    } else if p :| Phase2(job, s, i, p) {
      if step.DeliverDown? && s.down != [] {
        Phase2Down(job, s, i, p);
      } else if step.DeliverUp? && p > 0 {
        Phase2Up(job, s, i, p);
      } else if step.DeliverUp? {
        GoesBack(job, s, i);
      }
    } else {
      if step.DeliverDown? && s.down != [] {
        Phase3Down(job, s, i);
      } else if step.DeliverUp? && s.up != [] {
        Phase3Up(job, s, i);
      }
    }
  }

  lemma {:induction false} OneRunInv(job: Job, steps: seq<Step>, p: nat, i: nat)
    requires job.Ok() && SpoilsOne(job, steps, p, i)
    ensures OneInv(job, Run(job, steps), i)
  {
    hide Inv, CleanInv, Apply, Phase1, Phase2, Phase3, Phase4, Hits;
    var n := |steps| - 1;
    RunInv(job, steps[..n]);
    if p == n {
      CleanRunInv(job, steps[..n]);
      HitStep(job, Run(job, steps[..n]), steps[n], i);
    } else {
      assert steps[..n][..p] == steps[..p];
      OneRunInv(job, steps[..n], p, i);
      OneStep(job, Run(job, steps[..n]), steps[n], i);
    }
  }

  // ---------- What one rejection does ----------

  /** In every run with one corrupted chunk `i`: the transfer cannot stop short of completion, and at completion the
      chunks missing are exactly those from `max(i + 50, total - 49)` on. */
  lemma OneRejectionLoses(job: Job, steps: seq<Step>, p: nat, i: nat)
    requires job.Ok() && SpoilsOne(job, steps, p, i)
    ensures var s := Run(job, steps);
            && (s.down == [] && s.up == [] ==> s.entry.Finished?)
            && (s.entry.Finished? ==> forall j: nat :: j < job.Total() ==>
                  (IsMissing(s.entry.receiver.bitfield, j) <==> j >= i + WINDOW && j + 49 >= job.Total()))
  {
    hide Run, IsMissing, TotalChunks, Fits, Slice, Intact;
    OneRunInv(job, steps, p, i);
    if Run(job, steps).down == [] && Run(job, steps).up == [] {
      AtRest(job, steps);
    }
  }

  /** So completion has every chunk if and only if `total <= i + 50`, whatever the interleaving; otherwise the file
      is right only if the disk held the lost chunks beforehand. */
  lemma OneRejectionIff(job: Job, steps: seq<Step>, p: nat, i: nat)
    requires job.Ok() && SpoilsOne(job, steps, p, i) && Run(job, steps).entry.Finished?
    ensures var r := Run(job, steps).entry.receiver;
            && ((forall j: nat :: j < job.Total() ==> !IsMissing(r.bitfield, j)) <==> job.Total() <= i + WINDOW)
            && (job.Total() <= i + WINDOW ==> r.file == job.file)
            && (r.file == job.file <==> DiskCovers(job, r.bitfield))
  {
    hide Run, IsMissing, TotalChunks, Fits, DiskCovers, SpoilsOne;
    OneRejectionLoses(job, steps, p, i);
    FileRightIff(job, steps);
    var r := Run(job, steps).entry.receiver;
    if job.Total() <= i + WINDOW {
      NothingMissing(job, r.bitfield);
    } else {
      assert IsMissing(r.bitfield, job.Total() - 1);
    }
  }

  // ---------- Every large transfer can lose its end ----------

  /** Deliveries alone bring every run to rest. */
  lemma {:induction false} Settle(job: Job, steps: seq<Step>) returns (more: seq<Step>)
    requires job.Ok()
    ensures Run(job, steps + more).down == [] && Run(job, steps + more).up == [] && Clean(more)
    decreases Potential(job, Run(job, steps))
  {
    hide Run, Apply, Inv, Potential;
    var s := Run(job, steps);
    if s.down == [] && s.up == [] {
      more := [];
      assert steps + more == steps;
    } else {
      RunInv(job, steps);
      PotentialNonNegative(job, steps);
      var step := if s.down != [] then DeliverDown else DeliverUp;
      PotentialStep(job, s, step);
      RunSnoc(job, steps, step);
      var rest := Settle(job, steps + [step]);
      more := [step] + rest;
      assert steps + more == steps + [step] + rest;
    }
  }

  /** After offer, acceptance and credits the first chunk is the next to arrive. */
  lemma Accepted(job: Job) returns (steps: seq<Step>)
    requires job.Ok()
    ensures |steps| == 3 && Clean(steps)
    ensures var s := Run(job, steps);
            s.entry.Active? && s.entry.receiver.received == 0 && s.down != [] && Intact(job, s.down[0], 0)
  {
    hide IsMissing, Slice, AllMissing, TotalChunks, Fits, SenderHandle;
    var offered := [DeliverDown];
    var accepted := offered + [DeliverUp];
    steps := accepted + [DeliverUp];
    RunSnoc(job, [], DeliverDown);
    assert [] + [DeliverDown] == offered;
    RunSnoc(job, offered, DeliverUp);
    RunSnoc(job, accepted, DeliverUp);
    RunInv(job, steps);
    CleanRunInv(job, steps);
    hide Run;
    SomethingSent(job, Run(job, steps));
  }

  lemma SomethingSent(job: Job, s: Net)
    requires job.Ok() && Inv(job, s) && CleanInv(job, s) && s.entry.Active? && s.entry.receiver.received == 0
    requires s.up == []
    ensures s.down != [] && Intact(job, s.down[0], 0)
  {
    hide IsMissing, Slice, TotalChunks, Fits, ReceiverOk;
    if s.down != [] {
      assert Intact(job, s.down[0], 0 + 0);
    }
  }

  /** Every transfer of more than 50 chunks has a run with a single rejection, of chunk 0, that completes without its
      last chunk. */
  lemma LosesTheEnd(job: Job) returns (steps: seq<Step>)
    requires job.Ok() && job.Total() > WINDOW
    ensures SpoilsOne(job, steps, 3, 0)
    ensures var s := Run(job, steps);
            && s.entry.Finished? && IsMissing(s.entry.receiver.bitfield, job.Total() - 1)
            && (job.Prior()[|job.file| - 1] != job.file[|job.file| - 1] ==> s.entry.receiver.file != job.file)
  {
    hide Run, IsMissing, TotalChunks, Fits, ChunkOf;
    var start := Accepted(job);
    var spoil := Spoil(job);
    var rest := Settle(job, start + [spoil]);
    steps := start + [spoil] + rest;
    assert steps[..3] == start && steps[3] == spoil;
    assert SpoilsOne(job, steps, 3, 0);
    OneRejectionLoses(job, steps, 3, 0);
    FileRightIff(job, steps);
    LastByteInLastChunk(job);
  }

  lemma LastByteInLastChunk(job: Job)
    requires job.Ok()
    ensures ChunkOf(|job.file| - 1, job.chunkSize) == job.Total() - 1
  {
  }
}
