/** The write-behind store of `crates/ceky-dht/src/storage.rs`: hot cache, write queue, batch writer, expiry
    index and garbage collector.

  `PersistentStore` is the sequential code of each task. `Apply` cuts the same code at the points where another
  task can run: a put has two steps, a get up to three, a collection one per cache removal. The database's write
  transactions exclude each other and are seen by readers only when committed. The collector reads the clock
  before it waits for the write lock, so its time may lie behind.
 */
module Store {
  import opened Bits
  import opened Wire
  import opened Wrappers
  import opened Sequences
  import opened StoredEntries

  const BATCH_LIMIT: nat := 100

  /** An element of the expiry index: time and key. */
  type Due = (nat, Key)

  type Rows = map<Key, Bytes>

  // ---------- What the two transactions do ----------

  function WriteRows(table: Rows, entries: seq<StoredEntry>): (r: Rows)
  {
    if entries == [] then table
    else
      var e := entries[|entries| - 1];
      WriteRows(table, entries[..|entries| - 1])[e.key := Encode(e)]
  }

  function WriteIndex(index: set<Due>, entries: seq<StoredEntry>): (r: set<Due>)
  {
    index + set e | e in entries :: (e.expiresAt, e.key)
  }

  function DueBy(index: set<Due>, now: nat): (todo: set<Due>)
  {
    set d | d in index && d.0 <= now
  }

  function KeysOf(todo: set<Due>): (r: set<Key>)
  {
    set d | d in todo :: d.1
  }

  /** What a disk lookup yields: the decoded row, unless it is missing, malformed or expired. */
  function FromRow(table: Rows, key: Key, now: nat): (r: Option<StoredEntry>)
  {
    if key !in table then None
    else
      match Decode(table[key])
      case Failure(_) => None
      case Success(e) => if Expired(e, now) then None else Some(e)
  }

  // ---------- The code, one call or round at a time ----------

  class PersistentStore {
    var cache: map<Key, StoredEntry>
    var queue: seq<StoredEntry>
    var table: Rows
    var index: set<Due>

    constructor (table: Rows, index: set<Due>)
      ensures cache == map[] && queue == [] && this.table == table && this.index == index
    {
      cache, queue := map[], [];
      this.table, this.index := table, index;
    }

    method Put(entry: StoredEntry)
      modifies this
      ensures cache == old(cache)[entry.key := entry] && queue == old(queue) + [entry]
      ensures table == old(table) && index == old(index)
    {
      cache := cache[entry.key := entry];
      queue := queue + [entry];
    }

    /** The batch writer empties the queue into a batch, finding `ready` entries before its timeout. */
    method GatherBatch(ready: nat) returns (batch: seq<StoredEntry>)
      requires 1 <= ready <= |queue|
      modifies this
      ensures |batch| == if ready < BATCH_LIMIT then ready else BATCH_LIMIT
      ensures batch + queue == old(queue)
      ensures cache == old(cache) && table == old(table) && index == old(index)
    {
      batch := [queue[0]];
      queue := queue[1..];
      while |batch| < BATCH_LIMIT && |batch| < ready
        invariant 1 <= |batch| <= ready && |batch| <= BATCH_LIMIT
        invariant batch + queue == old(queue)
        invariant cache == old(cache) && table == old(table) && index == old(index)
      {
        assert batch + queue == batch + [queue[0]] + queue[1..];
        batch := batch + [queue[0]];
        queue := queue[1..];
      }
    }

    /** The batch writer's transaction. */
    method WriteBatch(batch: seq<StoredEntry>)
      modifies this
      ensures table == WriteRows(old(table), batch) && index == WriteIndex(old(index), batch)
      ensures LastWins(table, batch)
      ensures cache == old(cache) && queue == old(queue)
    {
      hide Encode, WriteIndex, LastWins;
      assert index == WriteIndex(index, batch[..0]) by {
        WriteIndexNone(index);
      }
      for i := 0 to |batch|
        invariant table == WriteRows(old(table), batch[..i])
        invariant index == WriteIndex(old(index), batch[..i])
        invariant cache == old(cache) && queue == old(queue)
      {
        assert batch[..i + 1] == batch[..i] + [batch[i]];
        WriteIndexSnoc(old(index), batch[..i], batch[i]);
        table := table[batch[i].key := Encode(batch[i])];
        index := index + {(batch[i].expiresAt, batch[i].key)};
      }
      assert batch[..|batch|] == batch;
      BatchWins(old(table), batch);
    }

    /** One round of the collector. */
    method Collect(now: nat)
      modifies this
      ensures var todo := DueBy(old(index), now);
              && table == old(table) - KeysOf(todo) && index == old(index) - todo && cache == old(cache) - KeysOf(todo)
      ensures queue == old(queue)
    {
      hide KeysOf, DueBy;
      var left := DueBy(index, now);
      ghost var todo, done: set<Due> := left, {};
      NoKeys();
      while left != {}
        invariant done + left == todo
        invariant table == old(table) - KeysOf(done) && index == old(index) - done
        invariant cache == old(cache) - KeysOf(done) && queue == old(queue)
        decreases |left|
      {
        var d :| d in left;
        MoreKeys(done, d);
        MinusTwice(old(table), KeysOf(done), {d.1});
        MinusTwice(old(cache), KeysOf(done), {d.1});
        table := table - {d.1};
        index := index - {d};
        cache := cache - {d.1};
        left, done := left - {d}, done + {d};
      }
      assert done == todo;
    }

    method Get(key: Key, now: nat) returns (r: Option<StoredEntry>)
      modifies this
      ensures key in old(cache) ==> r == (if Expired(old(cache)[key], now) then None else Some(old(cache)[key]))
      ensures key !in old(cache) ==> r == FromRow(table, key, now)
      ensures cache == if key !in old(cache) && r.Some? then old(cache)[key := r.value] else old(cache)
      ensures queue == old(queue) && table == old(table) && index == old(index)
    {
      hide Decode;
      if key in cache {
        if !Expired(cache[key], now) {
          return Some(cache[key]);
        }
        return None;
      }
      if key in table {
        var decoded := Decode(table[key]);
        if decoded.Success? && !Expired(decoded.value, now) {
          cache := cache[key := decoded.value];
          return Some(decoded.value);
        }
      }
      return None;
    }

    /** The index entry of the removed row stays. */
    method Remove(key: Key) returns (removed: Option<StoredEntry>)
      modifies this
      ensures removed == if key in old(cache) then Some(old(cache)[key]) else None
      ensures cache == old(cache) - {key} && table == old(table) - {key}
      ensures queue == old(queue) && index == old(index)
    {
      removed := if key in cache then Some(cache[key]) else None;
      cache := cache - {key};
      table := table - {key};
    }
  }

  lemma WriteIndexNone(index: set<Due>)
    ensures WriteIndex(index, []) == index
  {
  }

  lemma WriteIndexSnoc(index: set<Due>, entries: seq<StoredEntry>, e: StoredEntry)
    ensures WriteIndex(index, entries + [e]) == WriteIndex(index, entries) + {(e.expiresAt, e.key)}
  {
    forall d
      ensures d in WriteIndex(index, entries + [e]) <==> d in WriteIndex(index, entries) + {(e.expiresAt, e.key)}
    {
      if d == (e.expiresAt, e.key) {
        assert e in entries + [e];
      }
      if f :| f in entries && d == (f.expiresAt, f.key) {
        assert f in entries + [e];
      }
    }
  }

  lemma NoKeys()
    ensures KeysOf({}) == {}
  {
  }

  lemma MoreKeys(done: set<Due>, d: Due)
    ensures KeysOf(done + {d}) == KeysOf(done) + {d.1}
  {
    assert d in done + {d};
  }

  lemma MinusTwice<V>(m: map<Key, V>, a: set<Key>, b: set<Key>)
    ensures (m - a) - b == m - (a + b)
  {
  }

  /** Position `i` holds the last entry of the key. */
  predicate IsLast(entries: seq<StoredEntry>, i: nat, key: Key)
  {
    i < |entries| && entries[i].key == key && forall j :: i < j < |entries| ==> entries[j].key != key
  }

  function RowOf(table: Rows, key: Key): (row: Option<Bytes>)
  {
    if key in table then Some(table[key]) else None
  }

  lemma {:induction false} LastExists(entries: seq<StoredEntry>, e: StoredEntry) returns (i: nat)
    requires e in entries
    ensures IsLast(entries, i, e.key)
  {
    var n := |entries| - 1;
    if entries[n].key == e.key {
      i := n;
    } else {
      assert entries == entries[..n] + [entries[n]];
      i := LastExists(entries[..n], e);
      assert forall j :: i < j < n ==> entries[j] == entries[..n][j];
    }
  }

  /** After a batch the row of a key is the encoding of the last entry of that key in the batch. */
  lemma {:induction false} LastOfBatch(table: Rows, entries: seq<StoredEntry>, i: nat, key: Key)
    requires IsLast(entries, i, key)
    ensures RowOf(WriteRows(table, entries), key) == Some(Encode(entries[i]))
  {
    hide Encode;
    var n := |entries| - 1;
    if i < n {
      assert entries[n].key != key;
      LastOfBatch(table, entries[..n], i, key);
    }
  }

  /** A key that is not in the batch keeps its row. */
  lemma {:induction false} NotInBatch(table: Rows, entries: seq<StoredEntry>, key: Key)
    requires forall e :: e in entries ==> e.key != key
    ensures RowOf(WriteRows(table, entries), key) == RowOf(table, key)
  {
    hide Encode;
    if entries != [] {
      var n := |entries| - 1;
      assert entries[n] in entries;
      NotInBatch(table, entries[..n], key);
    }
  }

  /** The last entry of each key of the batch is its row. */
  ghost predicate LastWins(table: Rows, batch: seq<StoredEntry>)
  {
    forall i: nat :: i < |batch| && IsLast(batch, i, batch[i].key) ==>
      RowOf(table, batch[i].key) == Some(Encode(batch[i]))
  }

  lemma BatchWins(table: Rows, batch: seq<StoredEntry>)
    ensures LastWins(WriteRows(table, batch), batch)
  {
    hide Encode, WriteRows, IsLast, RowOf;
    forall i: nat | i < |batch| && IsLast(batch, i, batch[i].key)
      ensures RowOf(WriteRows(table, batch), batch[i].key) == Some(Encode(batch[i]))
    {
      LastOfBatch(table, batch, i, batch[i].key);
    }
  }

  /** A lookup on disk after a batch finds the last entry of the key, its value cut at the length modulo 2^32, unless
      that entry has expired. */
  lemma ReadsBackLast(table: Rows, entries: seq<StoredEntry>, i: nat, key: Key, now: nat)
    requires IsLast(entries, i, key)
    ensures var e, found := entries[i], FromRow(WriteRows(table, entries), key, now);
            found == if Expired(e, now) then None else Some(e.(value := e.value[..|e.value| % U32_SIZE]))
  {
    hide Encode, Decode;
    LastOfBatch(table, entries, i, key);
    DecodeEncode(entries[i]);
  }

  // ---------- The same code as interleaved steps ----------

  datatype Collector = Idle | Running(now: nat, todo: set<Due>, left: set<Due>)

  /** A get call that missed the cache: before its disk read, or about to fill the cache. */
  datatype Reader = Reading(key: Key) | Filling(key: Key, entry: StoredEntry)

  datatype State = State(
    cache: map<Key, StoredEntry>,
    sending: seq<StoredEntry>,
    queue: seq<StoredEntry>,
    batch: seq<StoredEntry>,
    table: Rows,
    index: set<Due>,
    clock: nat,
    gc: Collector,
    readers: map<nat, Reader>,
    removals: seq<Key>)

  datatype Step =
    | Tick(dt: nat)
    | PutCache(entry: StoredEntry)
    | PutSend(i: nat)
    | Gather
    | Flush
    | GcBegin(now: nat)
    | GcEvict(due: Due)
    | GcCommit
    | GetStart(id: nat, key: Key)
    | GetRead(id: nat)
    | GetFill(id: nat)
    | RemoveStart(key: Key)
    | RemoveCommit(i: nat)
    | Restart

  function Start(table: Rows, index: set<Due>, clock: nat): (r: State)
  {
    State(map[], [], [], [], table, index, clock, Idle, map[], [])
  }

  predicate Enabled(s: State, step: Step)
  {
    match step
    case PutSend(i) => i < |s.sending|
    case Gather => s.queue != [] && |s.batch| < BATCH_LIMIT
    case Flush => s.batch != [] && s.gc.Idle?
    case GcBegin(now) => s.gc.Idle? && now <= s.clock
    case GcEvict(due) => s.gc.Running? && due in s.gc.left
    case GcCommit => s.gc.Running? && s.gc.left == {}
    case GetStart(id, key) => id !in s.readers
    case GetRead(id) => id in s.readers && s.readers[id].Reading?
    case GetFill(id) => id in s.readers && s.readers[id].Filling?
    case RemoveCommit(i) => i < |s.removals| && s.gc.Idle?
    case _ => true
  }

  function Apply(s: State, step: Step): (r: State)
  {
    if !Enabled(s, step) then s
    else
      match step
      case Tick(dt) => s.(clock := s.clock + dt)
      case PutCache(e) => s.(cache := s.cache[e.key := e], sending := s.sending + [e])
      case PutSend(i) => s.(queue := s.queue + [s.sending[i]], sending := Without(s.sending, i))
      case Gather => s.(batch := s.batch + [s.queue[0]], queue := s.queue[1..])
      case Flush => s.(table := WriteRows(s.table, s.batch), index := WriteIndex(s.index, s.batch), batch := [])
      case GcBegin(now) => s.(gc := Running(now, DueBy(s.index, now), DueBy(s.index, now)))
      case GcEvict(due) => s.(cache := s.cache - {due.1}, gc := s.gc.(left := s.gc.left - {due}))
      case GcCommit => s.(table := s.table - KeysOf(s.gc.todo), index := s.index - s.gc.todo, gc := Idle)
      case GetStart(id, key) => if key in s.cache then s else s.(readers := s.readers[id := Reading(key)])
      case GetRead(id) =>
        var key := s.readers[id].key;
        (match FromRow(s.table, key, s.clock)
         case None => s.(readers := s.readers - {id})
         case Some(e) => s.(readers := s.readers[id := Filling(key, e)]))
      case GetFill(id) =>
        s.(cache := s.cache[s.readers[id].key := s.readers[id].entry], readers := s.readers - {id})
      case RemoveStart(key) => s.(cache := s.cache - {key}, removals := s.removals + [key])
      case RemoveCommit(i) => s.(table := s.table - {s.removals[i]}, removals := Without(s.removals, i))
      case Restart => Start(s.table, s.index, s.clock)
  }

  function Run(start: State, steps: seq<Step>): (r: State)
  {
    if steps == [] then start else Apply(Run(start, steps[..|steps| - 1]), steps[|steps| - 1])
  }

  /** The answer a get call is given in this step, if it is given one. */
  function Answer(s: State, step: Step): (r: Option<Option<StoredEntry>>)
  {
    if !Enabled(s, step) then None
    else
      match step
      case GetStart(id, key) =>
        if key !in s.cache then None
        else if Expired(s.cache[key], s.clock) then Some(None) else Some(Some(s.cache[key]))
      case GetRead(id) => Some(FromRow(s.table, s.readers[id].key, s.clock))
      case _ => None
  }

  // ---------- Every run: rows are indexed, a collection leaves no expired row ----------

  function RowExpiry(row: Bytes): (t: nat)
    requires |row| >= FIXED
  {
    FromBE(row[64..72])
  }

  predicate RowsIndexed(table: Rows, index: set<Due>)
  {
    forall k :: k in table ==> |table[k]| >= FIXED && (RowExpiry(table[k]), k) in index
  }

  /** What every run keeps, with re-puts and removals of any kind. */
  predicate Sound(s: State)
  {
    && RowsIndexed(s.table, s.index)
    && (s.gc.Running? ==> s.gc.now <= s.clock && s.gc.todo == DueBy(s.index, s.gc.now) && s.gc.left <= s.gc.todo)
  }

  lemma EncodedExpiry(e: StoredEntry)
    ensures RowExpiry(Encode(e)) == e.expiresAt
  {
    hide Encode, ToBE, FromBE;
    EncodedFields(e);
    Pow256Constants();
    FromToBE(e.expiresAt, 8);
  }

  lemma {:induction false} FlushIndexed(table: Rows, index: set<Due>, entries: seq<StoredEntry>)
    requires RowsIndexed(table, index)
    ensures RowsIndexed(WriteRows(table, entries), WriteIndex(index, entries))
  {
    hide RowExpiry, Encode;
    if entries != [] {
      var n := |entries| - 1;
      FlushIndexed(table, index, entries[..n]);
      EncodedExpiry(entries[n]);
      assert WriteIndex(index, entries[..n]) <= WriteIndex(index, entries);
      assert (entries[n].expiresAt, entries[n].key) in WriteIndex(index, entries);
    }
  }

  lemma CommitIndexed(table: Rows, index: set<Due>, todo: set<Due>)
    requires RowsIndexed(table, index)
    ensures RowsIndexed(table - KeysOf(todo), index - todo)
  {
    hide RowExpiry;
    forall k | k in table - KeysOf(todo) ensures (RowExpiry(table[k]), k) in index - todo {
      assert (RowExpiry(table[k]), k) in index;
      assert (RowExpiry(table[k]), k) in todo ==> k in KeysOf(todo);
    }
  }

  lemma StepSound(s: State, step: Step)
    requires Sound(s)
    ensures Sound(Apply(s, step))
  {
    hide RowExpiry, WriteRows, WriteIndex, FromRow, KeysOf;
    match step
    case Flush => FlushIndexed(s.table, s.index, s.batch);
    case GcCommit =>
      if s.gc.Running? {
        CommitIndexed(s.table, s.index, s.gc.todo);
      }
    case _ =>
  }

  lemma {:induction false} RunSound(start: State, steps: seq<Step>)
    requires Sound(start)
    ensures Sound(Run(start, steps))
  {
    hide Sound, Apply;
    if steps != [] {
      RunSound(start, steps[..|steps| - 1]);
      StepSound(Run(start, steps[..|steps| - 1]), steps[|steps| - 1]);
    }
  }

  /** In every run, a collection begun at `now` leaves no row that had expired by `now`. */
  lemma NoExpiredRowLeft(table: Rows, index: set<Due>, clock: nat, steps: seq<Step>)
    requires RowsIndexed(table, index)
    requires Enabled(Run(Start(table, index, clock), steps), GcCommit)
    ensures var s := Run(Start(table, index, clock), steps);
            var after := Apply(s, GcCommit).table;
            forall k :: k in after ==> |after[k]| >= FIXED && RowExpiry(after[k]) > s.gc.now
  {
    hide RowExpiry, Run;
    var s := Run(Start(table, index, clock), steps);
    RunSound(Start(table, index, clock), steps);
    var after := Apply(s, GcCommit).table;
    forall k | k in after ensures RowExpiry(after[k]) > s.gc.now {
      KeyDueIff(s.index, s.gc.now, k);
      assert (RowExpiry(s.table[k]), k) in s.index;
    }
  }

  predicate NoStaleIndex(index: set<Due>, key: Key, now: nat)
  {
    forall d :: d in index && d.1 == key ==> d.0 > now
  }

  /** A row survives a collection exactly when no index entry of its key, current or left behind by an earlier
      put, is due. */
  lemma RowSurvivesIff(table: Rows, index: set<Due>, clock: nat, steps: seq<Step>, key: Key)
    requires RowsIndexed(table, index)
    requires Enabled(Run(Start(table, index, clock), steps), GcCommit)
    requires key in Run(Start(table, index, clock), steps).table
    ensures var s := Run(Start(table, index, clock), steps);
            key in Apply(s, GcCommit).table <==> NoStaleIndex(s.index, key, s.gc.now)
  {
    hide RowExpiry, Run;
    var s := Run(Start(table, index, clock), steps);
    RunSound(Start(table, index, clock), steps);
    KeyDueIff(s.index, s.gc.now, key);
  }

  lemma KeyDueIff(index: set<Due>, now: nat, key: Key)
    ensures key in KeysOf(DueBy(index, now)) <==> !NoStaleIndex(index, key, now)
  {
    forall d | d in index && d.1 == key && d.0 <= now ensures key in KeysOf(DueBy(index, now)) {
      assert d in DueBy(index, now);
    }
  }
}
