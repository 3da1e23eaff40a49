/** The database told from the history of the run alone: which index entries there are and what a collection drops,
    which row a key has, and that the write queue keeps its order. */
module StoreHistory {
  import opened Wire
  import opened Wrappers
  import opened StoredEntries
  import opened Store

  /** The step commits a put whose key and expiry are `d`. */
  ghost predicate Writes(s: State, step: Step, d: Due)
  {
    step.Flush? && Enabled(s, step) && exists e :: e in s.batch && (e.expiresAt, e.key) == d
  }

  /** The step commits a collection whose time is not before `d`. */
  predicate Collects(s: State, step: Step, d: Due)
  {
    step.GcCommit? && Enabled(s, step) && d.0 <= s.gc.now
  }

  /** `d` was in the database at the start (`p` is 0), or the `p`th step flushed it. */
  ghost predicate WrittenAt(start: State, steps: seq<Step>, p: nat, d: Due)
  {
    p <= |steps| && if p == 0 then d in start.index else Writes(Run(start, steps[..p - 1]), steps[p - 1], d)
  }

  ghost predicate UntouchedSince(start: State, steps: seq<Step>, p: nat, d: Due)
  {
    forall q :: p <= q < |steps| ==> !Collects(Run(start, steps[..q]), steps[q], d)
  }

  /** A put of this key and expiry has been flushed, and no collection since has reached its expiry. */
  ghost predicate Uncollected(start: State, steps: seq<Step>, d: Due)
  {
    exists p :: WrittenAt(start, steps, p, d) && UntouchedSince(start, steps, p, d)
  }

  lemma HistorySnoc(start: State, steps: seq<Step>, d: Due)
    requires steps != []
    ensures var n := |steps| - 1;
            var s := Run(start, steps[..n]);
            Uncollected(start, steps, d) <==>
            (Uncollected(start, steps[..n], d) && !Collects(s, steps[n], d)) || Writes(s, steps[n], d)
  {
    hide Run, Writes, Collects;
    var n := |steps| - 1;
    var before, s := steps[..n], Run(start, steps[..n]);
    assert forall q :: 0 <= q <= n ==> before[..q] == steps[..q];
    forall p: nat | p <= n
      ensures WrittenAt(start, steps, p, d) <==> WrittenAt(start, before, p, d)
      ensures UntouchedSince(start, steps, p, d) <==> UntouchedSince(start, before, p, d) && !Collects(s, steps[n], d)
    {
      SamePrefix(start, steps, p, d);
    }
    assert WrittenAt(start, steps, n + 1, d) <==> Writes(s, steps[n], d);
    assert UntouchedSince(start, steps, n + 1, d);
  }

  lemma SamePrefix(start: State, steps: seq<Step>, p: nat, d: Due)
    requires p < |steps|
    ensures var n := |steps| - 1;
            && (WrittenAt(start, steps, p, d) <==> WrittenAt(start, steps[..n], p, d))
            && (UntouchedSince(start, steps, p, d) <==>
                UntouchedSince(start, steps[..n], p, d) && !Collects(Run(start, steps[..n]), steps[n], d))
  {
    hide Run, Writes, Collects;
    var n := |steps| - 1;
    assert forall q :: 0 <= q <= n ==> steps[..n][..q] == steps[..q];
  }

  lemma IndexStep(s: State, step: Step, d: Due)
    requires Sound(s)
    ensures d in Apply(s, step).index <==> (d in s.index && !Collects(s, step, d)) || Writes(s, step, d)
  {
    hide RowsIndexed, WriteRows, FromRow, KeysOf;
  }

  /** The expiry index holds exactly the flushed puts that no collection has reached. */
  lemma {:induction false} IndexIsHistory(start: State, steps: seq<Step>, d: Due)
    requires Sound(start)
    ensures d in Run(start, steps).index <==> Uncollected(start, steps, d)
  {
    hide Apply, Sound, Writes, Collects;
    if steps == [] {
      assert WrittenAt(start, steps, 0, d) <==> d in start.index;
      assert UntouchedSince(start, steps, 0, d);
    } else {
      var n := |steps| - 1;
      IndexIsHistory(start, steps[..n], d);
      RunSound(start, steps[..n]);
      IndexStep(Run(start, steps[..n]), steps[n], d);
      HistorySnoc(start, steps, d);
    }
  }

  /** Some flushed put of the key, not collected since, has an expiry not after `now`. */
  ghost predicate Stale(start: State, steps: seq<Step>, key: Key, now: nat)
  {
    exists t: nat :: t <= now && Uncollected(start, steps, (t, key))
  }

  /** The keys a running collection drops. */
  lemma CollectionReachesIff(table: Rows, index: set<Due>, clock: nat, steps: seq<Step>, key: Key)
    requires RowsIndexed(table, index) && Run(Start(table, index, clock), steps).gc.Running?
    ensures var s := Run(Start(table, index, clock), steps);
            key in KeysOf(s.gc.todo) <==> Stale(Start(table, index, clock), steps, key, s.gc.now)
  {
    hide Run, RowsIndexed, Uncollected, DueBy, KeysOf;
    var start := Start(table, index, clock);
    var s := Run(start, steps);
    RunSound(start, steps);
    KeyDueIff(s.index, s.gc.now, key);
    forall t: nat ensures (t, key) in s.index <==> Uncollected(start, steps, (t, key)) {
      IndexIsHistory(start, steps, (t, key));
    }
    if !NoStaleIndex(s.index, key, s.gc.now) {
      var d :| d in s.index && d.1 == key && d.0 <= s.gc.now;
      assert d == (d.0, key);
    }
  }

  /** A collection drops a row, expired or not, if and only if some flushed put of its key that was never collected
      has an expiry not after the collection's time. */
  lemma RowDroppedIff(table: Rows, index: set<Due>, clock: nat, steps: seq<Step>, key: Key)
    requires RowsIndexed(table, index)
    requires Enabled(Run(Start(table, index, clock), steps), GcCommit)
    requires key in Run(Start(table, index, clock), steps).table
    ensures var s := Run(Start(table, index, clock), steps);
            key !in Apply(s, GcCommit).table <==> Stale(Start(table, index, clock), steps, key, s.gc.now)
  {
    hide Run, RowsIndexed, Stale;
    CollectionReachesIff(table, index, clock, steps, key);
  }

  /** The same for the cache: a collection that begins will evict an entry, if and only if its key is stale. */
  lemma CacheDroppedIff(table: Rows, index: set<Due>, clock: nat, steps: seq<Step>, key: Key)
    requires RowsIndexed(table, index)
    requires var s := Run(Start(table, index, clock), steps);
             s.gc.Running? && s.gc.left == s.gc.todo && key in s.cache
    ensures var s := Run(Start(table, index, clock), steps);
            (exists d :: Enabled(s, GcEvict(d)) && key !in Apply(s, GcEvict(d)).cache) <==>
            Stale(Start(table, index, clock), steps, key, s.gc.now)
  {
    hide Run, RowsIndexed, Stale;
    var s := Run(Start(table, index, clock), steps);
    CollectionReachesIff(table, index, clock, steps, key);
    if key in KeysOf(s.gc.todo) {
      var d :| d in s.gc.todo && d.1 == key;
      assert Enabled(s, GcEvict(d)) && key !in Apply(s, GcEvict(d)).cache;
    }
  }

  // ---------- Rows ----------

  ghost predicate Commits(s: State, step: Step, key: Key)
  {
    step.Flush? && Enabled(s, step) && exists e :: e in s.batch && e.key == key
  }

  predicate Deletes(s: State, step: Step, key: Key)
  {
    && Enabled(s, step)
    && ((step.GcCommit? && key in KeysOf(s.gc.todo)) || (step.RemoveCommit? && s.removals[step.i] == key))
  }

  /** The row that the step `p` of the run leaves for the key, or the row the run starts with. */
  ghost predicate LeftAt(start: State, steps: seq<Step>, p: nat, key: Key, row: Option<Bytes>)
    requires p <= |steps|
  {
    if p == 0 then row == RowOf(start.table, key)
    else
      var s, step := Run(start, steps[..p - 1]), steps[p - 1];
      || (Deletes(s, step, key) && row == None)
      || (Commits(s, step, key) && exists i: nat :: IsLast(s.batch, i, key) && row == Some(Encode(s.batch[i])))
  }

  lemma RowStep(s: State, step: Step, key: Key)
    ensures Deletes(s, step, key) ==> RowOf(Apply(s, step).table, key) == None
    ensures !Deletes(s, step, key) && !Commits(s, step, key) ==>
              RowOf(Apply(s, step).table, key) == RowOf(s.table, key)
  {
    hide WriteRows, WriteIndex, FromRow, KeysOf, DueBy;
    if step.Flush? && !Commits(s, step, key) && Enabled(s, step) {
      NotInBatch(s.table, s.batch, key);
    }
  }

  lemma RowCommitted(s: State, step: Step, key: Key, i: nat)
    requires Commits(s, step, key) && IsLast(s.batch, i, key)
    ensures RowOf(Apply(s, step).table, key) == Some(Encode(s.batch[i]))
  {
    hide WriteRows, WriteIndex, Encode;
    LastOfBatch(s.table, s.batch, i, key);
  }

  /** In every interleaving the row of a key is what the last step that committed or deleted the key left: the
      encoding of the last entry of the key in the batch it wrote, or nothing. */
  lemma {:induction false} RowIsLastCommit(start: State, steps: seq<Step>, p: nat, key: Key, row: Option<Bytes>)
    requires p <= |steps| && LeftAt(start, steps, p, key, row)
    requires forall q :: p <= q < |steps| ==>
               !Deletes(Run(start, steps[..q]), steps[q], key) && !Commits(Run(start, steps[..q]), steps[q], key)
    ensures RowOf(Run(start, steps).table, key) == row
  {
    hide Apply, Deletes, Commits, Encode;
    if steps != [] {
      var n := |steps| - 1;
      RowStep(Run(start, steps[..n]), steps[n], key);
      if p == n + 1 && row.Some? {
        var s := Run(start, steps[..n]);
        var i: nat :| IsLast(s.batch, i, key) && row == Some(Encode(s.batch[i]));
        RowCommitted(s, steps[n], key, i);
      }
      if p <= n {
        assert forall q :: 0 <= q <= n ==> steps[..n][..q] == steps[..q];
        RowIsLastCommit(start, steps[..n], p, key, row);
      }
    }
  }

  // ---------- The write queue ----------

  /** The entries written to the database so far, in order. */
  function Written(start: State, steps: seq<Step>): (entries: seq<StoredEntry>)
  {
    if steps == [] then []
    else
      var n := |steps| - 1;
      var s := Run(start, steps[..n]);
      Written(start, steps[..n]) + if steps[n].Flush? && Enabled(s, steps[n]) then s.batch else []
  }

  /** The entries handed to the writer so far, in order, without those a restart has lost. */
  function Handed(start: State, steps: seq<Step>): (entries: seq<StoredEntry>)
  {
    if steps == [] then start.batch + start.queue
    else
      var n := |steps| - 1;
      var s, before := Run(start, steps[..n]), Handed(start, steps[..n]);
      if steps[n].Restart? then Written(start, steps[..n])
      else if steps[n].PutSend? && Enabled(s, steps[n]) then before + [s.sending[steps[n].i]]
      else before
  }

  /** Nothing handed to the writer is lost, repeated or overtaken, except that a restart loses what is not yet
      written: what was written, what is being batched and what waits are together what was handed over. */
  lemma {:induction false} QueueConserved(start: State, steps: seq<Step>)
    ensures var s := Run(start, steps); Handed(start, steps) == Written(start, steps) + s.batch + s.queue
  {
    if steps != [] {
      var n := |steps| - 1;
      QueueConserved(start, steps[..n]);
      QueueStep(Run(start, steps[..n]), steps[n], Written(start, steps[..n]));
    }
  }

  lemma QueueStep(s: State, step: Step, written: seq<StoredEntry>)
    ensures var t, flushed := Apply(s, step), if step.Flush? && Enabled(s, step) then s.batch else [];
            var whole := written + flushed + t.batch + t.queue;
            whole == if step.Restart? then written
                     else if step.PutSend? && Enabled(s, step) then written + s.batch + s.queue + [s.sending[step.i]]
                     else written + s.batch + s.queue
  {
    hide WriteRows, WriteIndex, FromRow, KeysOf, DueBy;
    if step.Gather? && Enabled(s, step) {
      assert s.queue == [s.queue[0]] + s.queue[1..];
    }
  }

  /** Batches do not matter: what has been written is one long batch, unless rows were deleted. */
  lemma {:induction false} WriteRowsConcat(table: Rows, a: seq<StoredEntry>, b: seq<StoredEntry>)
    ensures WriteRows(table, a + b) == WriteRows(WriteRows(table, a), b)
  {
    hide Encode;
    if b == [] {
      assert a + b == a;
    } else {
      var n := |b| - 1;
      WriteRowsConcat(table, a, b[..n]);
      assert (a + b)[..|a| + n] == a + b[..n];
    }
  }

  /** So a key that is neither collected nor removed in a run has the row of the last entry of that key written,
      however the entries were batched and whatever ran in between. */
  lemma {:induction false} RowIsLastWritten(start: State, steps: seq<Step>, key: Key)
    requires forall q :: 0 <= q < |steps| ==> !Deletes(Run(start, steps[..q]), steps[q], key)
    ensures RowOf(Run(start, steps).table, key) == RowOf(WriteRows(start.table, Written(start, steps)), key)
  {
    hide Deletes, WriteRows, Apply;
    if steps == [] {
      assert WriteRows(start.table, []) == start.table by {
        NothingWritten(start.table);
      }
    } else {
      var n := |steps| - 1;
      assert forall q :: 0 <= q <= n ==> steps[..n][..q] == steps[..q];
      RowIsLastWritten(start, steps[..n], key);
      var s, w := Run(start, steps[..n]), Written(start, steps[..n]);
      RowStep(s, steps[n], key);
      if steps[n].Flush? && Enabled(s, steps[n]) {
        assert Apply(s, steps[n]).table == WriteRows(s.table, s.batch) by {
          FlushWrites(s);
        }
        WriteRowsConcat(start.table, w, s.batch);
        RowIsLocal(s.table, WriteRows(start.table, w), s.batch, key);
      } else {
        assert w + [] == w;
      }
    }
  }

  lemma FlushWrites(s: State)
    ensures Enabled(s, Flush) ==> Apply(s, Flush).table == WriteRows(s.table, s.batch)
  {
  }

  lemma {:induction false} RowIsLocal(t: Rows, u: Rows, entries: seq<StoredEntry>, key: Key)
    requires RowOf(t, key) == RowOf(u, key)
    ensures RowOf(WriteRows(t, entries), key) == RowOf(WriteRows(u, entries), key)
  {
    hide Encode;
    if entries != [] {
      RowIsLocal(t, u, entries[..|entries| - 1], key);
    }
  }

  lemma NothingWritten(table: Rows)
    ensures WriteRows(table, []) == table
  {
  }
}
