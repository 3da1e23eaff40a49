/** When the store of `crates/ceky-dht/src/storage.rs` answers like a single map with expiry times, and when not. */
module StoreRefinement {
  import opened Bits
  import opened Wrappers
  import opened Sequences
  import opened StoredEntries
  import opened Store

  /** The one entry ever put under each key. */
  type World = Key -> StoredEntry

  ghost predicate WorldOk(w: World)
  {
    forall k: Key :: w(k).key == k && |w(k).value| < U32_SIZE
  }

  /** The specification: a map of the keys put so far, read against the clock. */
  function TtlGet(w: World, put: set<Key>, now: nat, key: Key): (r: Option<StoredEntry>)
  {
    if key in put && !Expired(w(key), now) then Some(w(key)) else None
  }

  /** The store beside its specification. `since` remembers what the specification answered when a get call that
      missed the cache began. */
  datatype Traced = Traced(store: State, put: set<Key>, since: map<nat, Option<StoredEntry>>)

  /** A restart keeps the keys whose rows were committed. */
  function TraceStep(w: World, x: Traced, step: Step): (r: Traced)
  {
    Traced(
      Apply(x.store, step),
      match step
      case PutCache(e) => x.put + {e.key}
      case Restart => x.put * x.store.table.Keys
      case _ => x.put,
      match step
      case GetStart(id, key) =>
        if id in x.store.readers then x.since else x.since[id := TtlGet(w, x.put, x.store.clock, key)]
      case _ => x.since)
  }

  predicate Faithful(w: World, step: Step)
  {
    match step
    case PutCache(e) => e == w(e.key)
    case RemoveStart(_) => false
    case _ => true
  }

  function Trace(w: World, start: Traced, steps: seq<Step>): (r: Traced)
  {
    if steps == [] then start else TraceStep(w, Trace(w, start, steps[..|steps| - 1]), steps[|steps| - 1])
  }

  // ---------- Invariant ----------

  predicate AreOf(w: World, put: set<Key>, entries: seq<StoredEntry>)
  {
    forall e :: e in entries ==> e.key in put && e == w(e.key)
  }

  predicate CacheOf(w: World, put: set<Key>, cache: map<Key, StoredEntry>)
  {
    forall k :: k in cache ==> k in put && cache[k] == w(k)
  }

  predicate TableOf(w: World, put: set<Key>, table: Rows, index: set<Due>)
  {
    && (forall k :: k in table ==> k in put && table[k] == Encode(w(k)) && (w(k).expiresAt, k) in index)
    && (forall d :: d in index ==> d.0 == w(d.1).expiresAt)
  }

  /** Nothing unexpired is lost. */
  predicate Available(w: World, s: State, put: set<Key>)
  {
    forall k :: k in put ==> Expired(w(k), s.clock) || k in s.cache || k in s.table
  }

  predicate CollectorOf(w: World, s: State)
  {
    s.gc.Running? ==>
      s.gc.now <= s.clock && s.gc.left <= s.gc.todo && forall d :: d in s.gc.todo ==> Expired(w(d.1), s.gc.now)
  }

  predicate ReaderOf(w: World, x: Traced, id: nat)
    requires id in x.store.readers
  {
    match x.store.readers[id]
    case Filling(k, e) => k in x.put && e == w(k)
    case Reading(k) =>
      id in x.since
      && (x.since[id].Some? ==>
            x.since[id].value == w(k) && (Expired(w(k), x.store.clock) || k in x.store.table))
  }

  predicate ReadersOf(w: World, x: Traced)
  {
    forall id :: id in x.store.readers ==> ReaderOf(w, x, id)
  }

  predicate Refines(w: World, x: Traced)
  {
    && CacheOf(w, x.put, x.store.cache)
    && AreOf(w, x.put, x.store.sending) && AreOf(w, x.put, x.store.queue) && AreOf(w, x.put, x.store.batch)
    && TableOf(w, x.put, x.store.table, x.store.index)
    && Available(w, x.store, x.put)
    && CollectorOf(w, x.store)
    && ReadersOf(w, x)
    && x.store.removals == []
  }

  // ---------- Steps ----------

  lemma DropSubset<T>(s: seq<T>, i: nat)
    requires i < |s|
    ensures forall e :: e in Without(s, i) ==> e in s
  {
  }

  lemma {:induction false} WrittenRows(w: World, table: Rows, entries: seq<StoredEntry>, k: Key)
    requires forall e :: e in entries ==> e == w(e.key)
    ensures k in WriteRows(table, entries) <==> k in table || exists e :: e in entries && e.key == k
    ensures k in WriteRows(table, entries) ==>
            WriteRows(table, entries)[k] == Encode(w(k)) || (k in table && WriteRows(table, entries)[k] == table[k])
  {
    hide Encode;
    if entries != [] {
      var n := |entries| - 1;
      assert forall e :: e in entries <==> e in entries[..n] || e == entries[n] by {
        assert entries == entries[..n] + [entries[n]];
      }
      WrittenRows(w, table, entries[..n], k);
    }
  }

  lemma FlushTable(w: World, put: set<Key>, table: Rows, index: set<Due>, batch: seq<StoredEntry>)
    requires TableOf(w, put, table, index) && AreOf(w, put, batch)
    ensures TableOf(w, put, WriteRows(table, batch), WriteIndex(index, batch))
    ensures forall k :: k in table ==> k in WriteRows(table, batch)
  {
    hide Encode, WriteRows;
    var after := WriteRows(table, batch);
    forall k ensures k in table ==> k in after
             ensures k in after ==>
                       k in put && after[k] == Encode(w(k)) && (w(k).expiresAt, k) in WriteIndex(index, batch)
    {
      WrittenRows(w, table, batch, k);
      if e :| e in batch && e.key == k {
        assert (e.expiresAt, e.key) in WriteIndex(index, batch);
      }
    }
  }

  lemma CollectTable(w: World, put: set<Key>, s: State)
    requires TableOf(w, put, s.table, s.index) && CollectorOf(w, s) && s.gc.Running?
    ensures TableOf(w, put, s.table - KeysOf(s.gc.todo), s.index - s.gc.todo)
    ensures forall k :: k in s.table ==> k in s.table - KeysOf(s.gc.todo) || Expired(w(k), s.clock)
  {
    hide Encode;
    var todo := s.gc.todo;
    forall k | k in s.table - KeysOf(todo) ensures (w(k).expiresAt, k) in s.index - todo {
      assert (w(k).expiresAt, k) in todo ==> k in KeysOf(todo);
    }
    forall k | k in KeysOf(todo) ensures Expired(w(k), s.clock) {
      var d :| d in todo && d.1 == k;
    }
  }

  lemma RowRead(w: World, x: Traced, key: Key)
    requires WorldOk(w) && TableOf(w, x.put, x.store.table, x.store.index)
    ensures FromRow(x.store.table, key, x.store.clock) ==
            if key in x.store.table && !Expired(w(key), x.store.clock) then Some(w(key)) else None
  {
    hide Encode, Decode;
    RoundTripIff(w(key));
  }

  lemma PutStep(w: World, x: Traced, e: StoredEntry)
    requires Refines(w, x) && e == w(e.key)
    ensures Refines(w, TraceStep(w, x, PutCache(e)))
  {
    hide Encode;
    var y := TraceStep(w, x, PutCache(e));
    forall id | id in y.store.readers ensures ReaderOf(w, y, id) {
      assert ReaderOf(w, x, id);
    }
  }

  lemma MoveStep(w: World, x: Traced, step: Step)
    requires Refines(w, x) && (step.PutSend? || step.Gather? || step.Tick?)
    ensures Refines(w, TraceStep(w, x, step))
  {
    hide Encode;
    var y := TraceStep(w, x, step);
    if step.PutSend? && Enabled(x.store, step) {
      DropSubset(x.store.sending, step.i);
    }
    forall id | id in y.store.readers ensures ReaderOf(w, y, id) {
      assert ReaderOf(w, x, id);
    }
  }

  lemma FlushStep(w: World, x: Traced)
    requires Refines(w, x)
    ensures Refines(w, TraceStep(w, x, Flush))
  {
    hide TableOf, WriteRows, WriteIndex;
    var y := TraceStep(w, x, Flush);
    FlushTable(w, x.put, x.store.table, x.store.index, x.store.batch);
    forall id | id in y.store.readers ensures ReaderOf(w, y, id) {
      assert ReaderOf(w, x, id);
    }
  }

  lemma CollectorStep(w: World, x: Traced, step: Step)
    requires Refines(w, x) && (step.GcBegin? || step.GcEvict?)
    ensures Refines(w, TraceStep(w, x, step))
  {
    hide Encode;
    var y := TraceStep(w, x, step);
    forall id | id in y.store.readers ensures ReaderOf(w, y, id) {
      assert ReaderOf(w, x, id);
    }
  }

  lemma CommitStep(w: World, x: Traced)
    requires Refines(w, x)
    ensures Refines(w, TraceStep(w, x, GcCommit))
  {
    hide TableOf, KeysOf;
    var y := TraceStep(w, x, GcCommit);
    if Enabled(x.store, GcCommit) {
      CollectTable(w, x.put, x.store);
    }
    forall id | id in y.store.readers ensures ReaderOf(w, y, id) {
      assert ReaderOf(w, x, id);
    }
  }

  lemma GetStartStep(w: World, x: Traced, id: nat, key: Key)
    requires Refines(w, x)
    ensures Refines(w, TraceStep(w, x, GetStart(id, key)))
  {
    hide TableOf;
    var y := TraceStep(w, x, GetStart(id, key));
    forall j | j in y.store.readers ensures ReaderOf(w, y, j) {
      if j in x.store.readers {
        assert ReaderOf(w, x, j);
      }
    }
  }

  lemma GetLaterStep(w: World, x: Traced, step: Step)
    requires WorldOk(w) && Refines(w, x) && (step.GetRead? || step.GetFill?)
    ensures Refines(w, TraceStep(w, x, step))
  {
    hide FromRow, Encode;
    var y := TraceStep(w, x, step);
    if Enabled(x.store, step) {
      RowRead(w, x, x.store.readers[step.id].key);
      assert ReaderOf(w, x, step.id);
    }
    forall j | j in y.store.readers ensures ReaderOf(w, y, j) {
      if j in x.store.readers {
        assert ReaderOf(w, x, j);
      }
    }
  }

  lemma RestartStep(w: World, x: Traced)
    requires Refines(w, x)
    ensures Refines(w, TraceStep(w, x, Restart))
  {
    hide Encode;
  }

  lemma StepRefines(w: World, x: Traced, step: Step)
    requires WorldOk(w) && Refines(w, x) && Faithful(w, step)
    ensures Refines(w, TraceStep(w, x, step))
  {
    match step
    case PutCache(e) => PutStep(w, x, e);
    case Flush => FlushStep(w, x);
    case GcBegin(_) => CollectorStep(w, x, step);
    case GcEvict(_) => CollectorStep(w, x, step);
    case GcCommit => CommitStep(w, x);
    case GetStart(id, key) => GetStartStep(w, x, id, key);
    case GetRead(_) => GetLaterStep(w, x, step);
    case GetFill(_) => GetLaterStep(w, x, step);
    case Restart => RestartStep(w, x);
    case RemoveCommit(i) =>
    case PutSend(_) => MoveStep(w, x, step);
    case Gather => MoveStep(w, x, step);
    case Tick(_) => MoveStep(w, x, step);
  }

  // ---------- Runs ----------

  /** A store opened on a database, with its rows as the keys put so far. */
  function Begin(table: Rows, index: set<Due>, clock: nat): (r: Traced)
  {
    Traced(Start(table, index, clock), table.Keys, map[])
  }

  lemma {:induction false} TraceRefines(w: World, table: Rows, index: set<Due>, clock: nat, steps: seq<Step>)
    requires WorldOk(w) && TableOf(w, table.Keys, table, index)
    requires forall i :: 0 <= i < |steps| ==> Faithful(w, steps[i])
    ensures Refines(w, Trace(w, Begin(table, index, clock), steps))
  {
    if steps != [] {
      hide Refines, TraceStep, TableOf;
      var n := |steps| - 1;
      TraceRefines(w, table, index, clock, steps[..n]);
      StepRefines(w, Trace(w, Begin(table, index, clock), steps[..n]), steps[n]);
    }
  }

  /** The trace follows the store itself; the specification only watches. */
  lemma {:induction false} TraceIsRun(w: World, start: Traced, steps: seq<Step>)
    ensures Trace(w, start, steps).store == Run(start.store, steps)
  {
    hide Apply;
    if steps != [] {
      TraceIsRun(w, start, steps[..|steps| - 1]);
    }
  }

  /** In every interleaving in which each key is always put with the same entry and nothing is removed, a get
      answers like the map: at the moment it looks into the cache, or, when it has to go to disk, at its start or
      at its disk read. */
  lemma GetAnswersLikeMap(w: World, table: Rows, index: set<Due>, clock: nat, steps: seq<Step>, step: Step)
    requires WorldOk(w) && TableOf(w, table.Keys, table, index)
    requires forall i :: 0 <= i < |steps| ==> Faithful(w, steps[i])
    ensures var x := Trace(w, Begin(table, index, clock), steps);
            var s := x.store;
            Answer(s, step).Some? ==>
              match step
              case GetStart(id, key) => Answer(s, step).value == TtlGet(w, x.put, s.clock, key)
              case GetRead(id) =>
                || Answer(s, step).value == TtlGet(w, x.put, s.clock, s.readers[id].key)
                || (id in x.since && Answer(s, step).value == x.since[id])
              case _ => false
  {
    hide Encode, FromRow, Trace;
    var x := Trace(w, Begin(table, index, clock), steps);
    TraceRefines(w, table, index, clock, steps);
    if step.GetRead? && Enabled(x.store, step) {
      RowRead(w, x, x.store.readers[step.id].key);
      assert ReaderOf(w, x, step.id);
    }
  }

  /** So a get that no other task interrupts gives the map's answer. */
  lemma UninterruptedGet(w: World, table: Rows, index: set<Due>, clock: nat, steps: seq<Step>, id: nat, key: Key)
    requires WorldOk(w) && TableOf(w, table.Keys, table, index)
    requires forall i :: 0 <= i < |steps| ==> Faithful(w, steps[i])
    requires id !in Run(Start(table, index, clock), steps).readers
    ensures var x := Trace(w, Begin(table, index, clock), steps);
            var s := Run(Start(table, index, clock), steps);
            var begun := Apply(s, GetStart(id, key));
            if key in s.cache then Answer(s, GetStart(id, key)) == Some(TtlGet(w, x.put, s.clock, key))
            else Answer(begun, GetRead(id)) == Some(TtlGet(w, x.put, s.clock, key))
  {
    hide Refines, Trace, Run, TableOf, TtlGet, Apply, Answer;
    var x := Trace(w, Begin(table, index, clock), steps);
    TraceIsRun(w, Begin(table, index, clock), steps);
    TraceRefines(w, table, index, clock, steps);
    AnswersNow(w, x, id, key);
  }

  lemma AnswersNow(w: World, x: Traced, id: nat, key: Key)
    requires WorldOk(w) && Refines(w, x) && id !in x.store.readers
    ensures var s := x.store;
            var begun := Apply(s, GetStart(id, key));
            if key in s.cache then Answer(s, GetStart(id, key)) == Some(TtlGet(w, x.put, s.clock, key))
            else Answer(begun, GetRead(id)) == Some(TtlGet(w, x.put, s.clock, key))
  {
    hide Encode, FromRow, ReadersOf, AreOf, CollectorOf;
    RowRead(w, x, key);
  }

  // ---------- Re-putting a key with a later expiry ----------

  lemma RunSnoc(start: State, steps: seq<Step>, step: Step)
    ensures Run(start, steps + [step]) == Apply(Run(start, steps), step)
  {
    assert (steps + [step])[..|steps|] == steps;
  }

  predicate Quiet(s: State)
  {
    s.sending == [] && s.queue == [] && s.batch == [] && s.gc.Idle?
  }

  function PutSteps(e: StoredEntry): (r: seq<Step>)
  {
    [PutCache(e), PutSend(0), Gather, Flush]
  }

  lemma PutAndFlush(start: State, steps: seq<Step>, e: StoredEntry)
    requires Quiet(Run(start, steps))
    ensures var s := Run(start, steps);
            Run(start, steps + PutSteps(e)) ==
            s.(cache := s.cache[e.key := e], table := s.table[e.key := Encode(e)],
               index := s.index + {(e.expiresAt, e.key)})
  {
    hide Encode, Run;
    var s := Run(start, steps);
    RunSnoc(start, steps, PutCache(e));
    RunSnoc(start, steps + [PutCache(e)], PutSend(0));
    RunSnoc(start, steps + [PutCache(e)] + [PutSend(0)], Gather);
    RunSnoc(start, steps + [PutCache(e)] + [PutSend(0)] + [Gather], Flush);
    assert steps + PutSteps(e) == steps + [PutCache(e)] + [PutSend(0)] + [Gather] + [Flush];
    assert Without([e], 0) == [];
    WriteOne(s.table, s.index, e);
  }

  lemma WriteOne(table: Rows, index: set<Due>, e: StoredEntry)
    ensures WriteRows(table, [e]) == table[e.key := Encode(e)]
    ensures WriteIndex(index, [e]) == index + {(e.expiresAt, e.key)}
  {
    hide Encode;
    assert [e][..0] == [];
    assert WriteRows(table, []) == table;
    assert e in [e];
  }

  /** Put and flush an entry, put and flush its renewal, let time pass, collect. */
  function ReputSteps(first: StoredEntry, renewed: StoredEntry, now: nat): (r: seq<Step>)
  {
    PutSteps(first) + PutSteps(renewed) + [Tick(now)] + [GcBegin(now)]
    + [GcEvict((first.expiresAt, first.key))] + [GcCommit]
  }

  /** The collector follows the first put's index entry and drops the renewed entry, which has not expired, from
      the cache and from disk. */
  lemma RenewedEntryDropped(first: StoredEntry, renewed: StoredEntry, now: nat)
    requires first.key == renewed.key && first.expiresAt <= now < renewed.expiresAt
    ensures var s := Run(Start(map[], {}, 0), ReputSteps(first, renewed, now));
            s.clock == now && !Expired(renewed, s.clock) && first.key !in s.cache && first.key !in s.table
  {
    hide Encode, Run;
    var start := Start(map[], {}, 0);
    RunNone(start);
    PutAndFlush(start, [], first);
    assert [] + PutSteps(first) == PutSteps(first);
    PutAndFlush(start, PutSteps(first), renewed);
    var puts := PutSteps(first) + PutSteps(renewed);
    var due := (first.expiresAt, first.key);
    assert Run(start, puts).index == {due, (renewed.expiresAt, first.key)};
    TickAndCollect(start, puts, now, due, (renewed.expiresAt, first.key));
  }

  lemma TickAndCollect(start: State, steps: seq<Step>, dt: nat, due: Due, later: Due)
    requires Quiet(Run(start, steps)) && Run(start, steps).index == {due, later} && Run(start, steps).clock == 0
    requires due.0 <= dt < later.0
    ensures var s := Run(start, steps + [Tick(dt)] + [GcBegin(dt)] + [GcEvict(due)] + [GcCommit]);
            s.clock == dt && due.1 !in s.cache && due.1 !in s.table
  {
    hide Run, KeysOf;
    RunSnoc(start, steps, Tick(dt));
    RunSnoc(start, steps + [Tick(dt)], GcBegin(dt));
    var begun := steps + [Tick(dt)] + [GcBegin(dt)];
    assert Run(start, begun).gc.todo == {due};
    RunSnoc(start, begun, GcEvict(due));
    RunSnoc(start, begun + [GcEvict(due)], GcCommit);
    MoreKeys({}, due);
    assert {} + {due} == {due};
  }

  lemma RunNone(start: State)
    ensures Run(start, []) == start
  {
  }

  // ---------- The collector's steps in sequence ----------

  function Evictions(order: seq<Due>): (steps: seq<Step>)
    ensures |steps| == |order|
  {
    seq(|order|, i requires 0 <= i < |order| => GcEvict(order[i]))
  }

  function AllOf(order: seq<Due>): (r: set<Due>)
  {
    set d | d in order
  }

  predicate NoRepeats(order: seq<Due>)
  {
    forall i, j :: 0 <= i < j < |order| ==> order[i] != order[j]
  }

  /** The state after the cache removals `done` of a running collection. */
  function Evicted(s: State, done: set<Due>): (r: State)
    requires s.gc.Running?
  {
    s.(cache := s.cache - KeysOf(done), gc := s.gc.(left := s.gc.left - done))
  }

  lemma EvictedNone(s: State)
    requires s.gc.Running?
    ensures Evicted(s, {}) == s
  {
    NoKeys();
    assert s.cache - {} == s.cache && s.gc.left - {} == s.gc.left;
  }

  lemma EvictedMore(s: State, done: set<Due>, d: Due)
    requires s.gc.Running? && d in s.gc.left - done
    ensures Apply(Evicted(s, done), GcEvict(d)) == Evicted(s, done + {d})
  {
    hide KeysOf;
    MoreKeys(done, d);
    MinusTwice(s.cache, KeysOf(done), {d.1});
    assert s.gc.left - done - {d} == s.gc.left - (done + {d});
  }

  lemma {:induction false} EvictAll(s: State, order: seq<Due>)
    requires s.gc.Running? && NoRepeats(order) && AllOf(order) <= s.gc.left
    ensures Run(s, Evictions(order)) == Evicted(s, AllOf(order))
  {
    hide Run, Evicted, Apply;
    if order == [] {
      RunNone(s);
      EvictedNone(s);
      assert AllOf(order) == {} && Evictions(order) == [];
    } else {
      var n := |order| - 1;
      var d := order[n];
      assert AllOf(order) == AllOf(order[..n]) + {d};
      EvictAll(s, order[..n]);
      assert Evictions(order) == Evictions(order[..n]) + [GcEvict(d)];
      RunSnoc(s, Evictions(order[..n]), GcEvict(d));
      EvictedMore(s, AllOf(order[..n]), d);
    }
  }

  lemma {:induction false} RunConcat(s: State, a: seq<Step>, b: seq<Step>)
    ensures Run(s, a + b) == Run(Run(s, a), b)
  {
    hide Apply;
    if b == [] {
      assert a + b == a;
    } else {
      var n := |b| - 1;
      RunConcat(s, a, b[..n]);
      assert (a + b)[..|a| + n] == a + b[..n];
    }
  }

  /** An undisturbed collection, whatever the order of its cache removals, does what `Collect` does. */
  lemma CollectionSteps(s: State, now: nat, order: seq<Due>)
    requires s.gc.Idle? && now <= s.clock && NoRepeats(order) && AllOf(order) == DueBy(s.index, now)
    ensures var todo := DueBy(s.index, now);
            Run(s, [GcBegin(now)] + Evictions(order) + [GcCommit]) ==
            s.(cache := s.cache - KeysOf(todo), table := s.table - KeysOf(todo), index := s.index - todo)
  {
    hide Run, KeysOf, DueBy, AllOf;
    var begun := Apply(s, GcBegin(now));
    RunNone(s);
    RunSnoc(s, [], GcBegin(now));
    assert [] + [GcBegin(now)] == [GcBegin(now)];
    EvictAll(begun, order);
    RunConcat(s, [GcBegin(now)], Evictions(order));
    RunSnoc(s, [GcBegin(now)] + Evictions(order), GcCommit);
  }
}
