/** For which entries the store answers like a map that keeps the last put of every key. */
module LastPut {
  import opened Bits
  import opened Wrappers
  import opened StoredEntries
  import opened Store
  import opened StoreRefinement

  /** The store beside a map of last puts. `since` remembers what the map answered when a get call began. */
  datatype Watched = Watched(store: State, last: map<Key, StoredEntry>, since: map<nat, Option<StoredEntry>>)

  function MapGet(last: map<Key, StoredEntry>, now: nat, key: Key): (r: Option<StoredEntry>)
  {
    if key in last && !Expired(last[key], now) then Some(last[key]) else None
  }

  /** What a restarted node knows: the committed rows. */
  function Committed(table: Rows): (r: map<Key, StoredEntry>)
  {
    map k | k in table && Decode(table[k]).Success? :: Decode(table[k]).value
  }

  function WatchStep(x: Watched, step: Step): (r: Watched)
  {
    Watched(
      Apply(x.store, step),
      match step
      case PutCache(e) => x.last[e.key := e]
      case Restart => Committed(x.store.table)
      case _ => x.last,
      match step
      case GetStart(id, key) =>
        if id in x.store.readers then x.since else x.since[id := MapGet(x.last, x.store.clock, key)]
      case _ => x.since)
  }

  /** A run on an empty database. */
  function Watch(clock: nat, steps: seq<Step>): (r: Watched)
  {
    if steps == [] then Watched(Start(map[], {}, clock), map[], map[])
    else WatchStep(Watch(clock, steps[..|steps| - 1]), steps[|steps| - 1])
  }

  /** The answer given in this step, if any, is the map's: now, or for a call that had to read the disk, when it
      began. */
  predicate Right(x: Watched, step: Step)
  {
    Answer(x.store, step).Some? ==>
      match step
      case GetStart(id, key) => Answer(x.store, step).value == MapGet(x.last, x.store.clock, key)
      case GetRead(id) =>
        || Answer(x.store, step).value == MapGet(x.last, x.store.clock, x.store.readers[id].key)
        || (id in x.since && Answer(x.store, step).value == x.since[id])
      case _ => false
  }

  predicate PutsFrom(entries: set<StoredEntry>, steps: seq<Step>)
  {
    forall i :: 0 <= i < |steps| ==> (steps[i].PutCache? ==> steps[i].entry in entries) && !steps[i].RemoveStart?
  }

  /** Every get in every run that puts only these entries, and removes nothing, is answered like the map. */
  ghost predicate Reliable(entries: set<StoredEntry>, clock: nat)
  {
    forall steps: seq<Step>, step: Step :: PutsFrom(entries, steps) ==> Right(Watch(clock, steps), step)
  }

  predicate OnePerKey(entries: set<StoredEntry>)
  {
    forall a, b :: a in entries && b in entries && a.key == b.key ==> a == b
  }

  // ---------- One entry per key suffices ----------

  ghost function WorldOf(entries: set<StoredEntry>): (w: World)
    requires OnePerKey(entries) && forall e :: e in entries ==> |e.value| < U32_SIZE
    ensures WorldOk(w) && forall e :: e in entries ==> w(e.key) == e
  {
    (k: Key) => if e :| e in entries && e.key == k then e else StoredEntry(k, [], k, 0)
  }

  /** The map and the specification with a fixed entry per key say the same. */
  predicate SameSpec(w: World, x: Watched, y: Traced)
  {
    && x.store == y.store && x.since == y.since && x.last.Keys == y.put
    && forall k :: k in x.last ==> x.last[k] == w(k)
  }

  lemma SameStep(w: World, x: Watched, y: Traced, step: Step)
    requires WorldOk(w) && SameSpec(w, x, y) && Refines(w, y) && Faithful(w, step)
    ensures SameSpec(w, WatchStep(x, step), TraceStep(w, y, step))
  {
    hide Apply, Decode, Encode;
    if step.Restart? {
      forall k | k in x.store.table ensures Decode(x.store.table[k]) == Success(w(k)) && k in y.put {
        RoundTripIff(w(k));
      }
    }
  }

  lemma {:induction false} SameRun(w: World, clock: nat, steps: seq<Step>)
    requires WorldOk(w) && forall i :: 0 <= i < |steps| ==> Faithful(w, steps[i])
    ensures SameSpec(w, Watch(clock, steps), Trace(w, Begin(map[], {}, clock), steps))
  {
    hide WatchStep, TraceStep, Refines;
    if steps != [] {
      var n := |steps| - 1;
      SameRun(w, clock, steps[..n]);
      EmptyTable(w);
      TraceRefines(w, map[], {}, clock, steps[..n]);
      SameStep(w, Watch(clock, steps[..n]), Trace(w, Begin(map[], {}, clock), steps[..n]), steps[n]);
    }
  }

  lemma EmptyTable(w: World)
    ensures var none: Rows := map[]; TableOf(w, none.Keys, none, {})
  {
  }

  lemma OneEntrySuffices(entries: set<StoredEntry>, clock: nat, steps: seq<Step>, step: Step)
    requires OnePerKey(entries) && (forall e :: e in entries ==> |e.value| < U32_SIZE) && PutsFrom(entries, steps)
    ensures Right(Watch(clock, steps), step)
  {
    hide Watch, Trace, Answer, WorldOk;
    var w := WorldOf(entries);
    SameRun(w, clock, steps);
    EmptyTable(w);
    GetAnswersLikeMap(w, map[], {}, clock, steps, step);
  }

  // ---------- Two entries for a key do not ----------

  lemma WatchSnoc(clock: nat, steps: seq<Step>, step: Step)
    ensures Watch(clock, steps + [step]) == WatchStep(Watch(clock, steps), step)
  {
    assert (steps + [step])[..|steps|] == steps;
  }

  lemma {:induction false} WatchIsRun(clock: nat, steps: seq<Step>)
    ensures Watch(clock, steps).store == Run(Start(map[], {}, clock), steps)
  {
    hide Apply;
    if steps != [] {
      WatchIsRun(clock, steps[..|steps| - 1]);
    }
  }

  /** Commit an entry, restart, begin a get, and put another entry before the get fills the cache. */
  function LateFillSteps(older: StoredEntry, newer: StoredEntry): (r: seq<Step>)
  {
    PutSteps(older) + [Restart] + [GetStart(0, older.key)] + [GetRead(0)] + [PutCache(newer)] + [GetFill(0)]
  }

  /** The late fill overwrites the newer entry, and the next get returns the older one. No collection is involved. */
  lemma LateFillReturnsOlder(older: StoredEntry, newer: StoredEntry, clock: nat)
    requires older.key == newer.key && older != newer && |older.value| < U32_SIZE
    requires !Expired(older, clock) && !Expired(newer, clock)
    ensures !Right(Watch(clock, LateFillSteps(older, newer)), GetStart(1, older.key))
  {
    hide Watch, Apply, Answer;
    var filling := PutSteps(older) + [Restart] + [GetStart(0, older.key)] + [GetRead(0)];
    AboutToFill(older, clock);
    WatchSnoc(clock, filling, PutCache(newer));
    WatchSnoc(clock, filling + [PutCache(newer)], GetFill(0));
    FillsLate(Watch(clock, filling).store, older, newer);
    var x := Watch(clock, LateFillSteps(older, newer));
    assert x.last[older.key] == newer;
    AnswersCached(x.store, older);
  }

  lemma AnswersCached(s: State, e: StoredEntry)
    requires 1 !in s.readers && e.key in s.cache && s.cache[e.key] == e && !Expired(e, s.clock)
    ensures Answer(s, GetStart(1, e.key)) == Some(Some(e))
  {
  }

  /** The get has read the older entry from disk. */
  lemma AboutToFill(older: StoredEntry, clock: nat)
    requires |older.value| < U32_SIZE && !Expired(older, clock)
    ensures var s := Watch(clock, PutSteps(older) + [Restart] + [GetStart(0, older.key)] + [GetRead(0)]).store;
            s.readers == map[0 := Filling(older.key, older)] && s.clock == clock
  {
    hide Watch, Encode, Decode;
    var key, puts := older.key, PutSteps(older);
    FirstPut(older, clock);
    WatchSnoc(clock, puts, Restart);
    WatchSnoc(clock, puts + [Restart], GetStart(0, key));
    WatchSnoc(clock, puts + [Restart] + [GetStart(0, key)], GetRead(0));
    RoundTripIff(older);
  }

  lemma FillsLate(s: State, older: StoredEntry, newer: StoredEntry)
    requires s.readers == map[0 := Filling(older.key, older)]
    ensures var t := Apply(Apply(s, PutCache(newer)), GetFill(0));
            && t.clock == s.clock && 1 !in t.readers && older.key in t.cache && t.cache[older.key] == older
  {
    hide WriteRows, WriteIndex, FromRow;
  }

  lemma FirstPut(e: StoredEntry, clock: nat)
    ensures var s := Watch(clock, PutSteps(e)).store;
            s.table == map[e.key := Encode(e)] && s.clock == clock
  {
    hide Run, Watch, Encode;
    var start := Start(map[], {}, clock);
    WatchIsRun(clock, PutSteps(e));
    RunNone(start);
    PutAndFlush(start, [], e);
    assert [] + PutSteps(e) == PutSteps(e);
  }

  /** For entries that are visible, the store answers like the map of last puts in every interleaving if and only if
      no two different entries share a key. */
  lemma ReliableIff(entries: set<StoredEntry>, clock: nat)
    requires forall e :: e in entries ==> !Expired(e, clock) && |e.value| < U32_SIZE
    ensures Reliable(entries, clock) <==> OnePerKey(entries)
  {
    hide Watch, Right, Answer;
    if OnePerKey(entries) {
      forall steps: seq<Step>, step: Step | PutsFrom(entries, steps) ensures Right(Watch(clock, steps), step) {
        OneEntrySuffices(entries, clock, steps, step);
      }
    } else {
      var a, b :| a in entries && b in entries && a.key == b.key && a != b;
      LateFillReturnsOlder(a, b, clock);
      assert PutsFrom(entries, LateFillSteps(a, b));
    }
  }
}
