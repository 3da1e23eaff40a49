/** The calls of the store as steps: what each does when nothing runs in between, and what can become of a removed
    key when something does. */
module StoreCalls {
  import opened Sequences
  import opened Wrappers
  import opened StoredEntries
  import opened Store

  // ---------- Calls that nothing interrupts ----------

  /** A removal takes the key out of the cache and the database and leaves everything else, as `Remove` does. */
  lemma RemovalAlone(s: State, key: Key)
    requires s.gc.Idle?
    ensures Run(s, [RemoveStart(key)] + [RemoveCommit(|s.removals|)])
         == s.(cache := s.cache - {key}, table := s.table - {key})
  {
    hide Run, WriteRows, WriteIndex, KeysOf, DueBy, FromRow, Without;
    RunTwo(s, RemoveStart(key), RemoveCommit(|s.removals|));
    LastDropped(s.removals, key);
  }

  /** A put enters the cache and the end of the queue, as `Put` does. */
  lemma PutAlone(s: State, entry: StoredEntry)
    ensures Run(s, [PutCache(entry)] + [PutSend(|s.sending|)])
         == s.(cache := s.cache[entry.key := entry], queue := s.queue + [entry])
  {
    hide Run, WriteRows, WriteIndex, KeysOf, DueBy, FromRow, Without;
    RunTwo(s, PutCache(entry), PutSend(|s.sending|));
    LastDropped(s.sending, entry);
  }

  /** A get that misses the cache answers from the row and fills the cache with what it found, as `Get` does; no trace
      of the call is left. */
  lemma GetAlone(s: State, id: nat, key: Key)
    requires id !in s.readers && key !in s.cache
    ensures var found := FromRow(s.table, key, s.clock);
            var begun := Run(s, [GetStart(id, key)]);
            && Answer(begun, GetRead(id)) == Some(found)
            && Run(s, [GetStart(id, key)] + [GetRead(id)] + [GetFill(id)])
               == s.(cache := if found.Some? then s.cache[key := found.value] else s.cache)
  {
    hide FromRow, Run, Apply;
    RunOne(s, GetStart(id, key));
    RunTwo(s, GetStart(id, key), GetRead(id));
    RunSnoc(s, [GetStart(id, key)] + [GetRead(id)], GetFill(id));
    var begun := s.(readers := s.readers[id := Reading(key)]);
    GetBegins(s, id, key);
    GetReads(begun, id, key);
    ReaderGone(s.readers, id, Reading(key));
    var found := FromRow(s.table, key, s.clock);
    if found.Some? {
      var read := begun.(readers := begun.readers[id := Filling(key, found.value)]);
      ReaderMoved(s.readers, id, Reading(key), Filling(key, found.value));
      GetFills(read, id);
    } else {
      NothingToFill(begun.(readers := begun.readers - {id}), id);
    }
  }

  lemma GetBegins(s: State, id: nat, key: Key)
    requires id !in s.readers && key !in s.cache
    ensures Apply(s, GetStart(id, key)) == s.(readers := s.readers[id := Reading(key)])
  {
  }

  lemma GetReads(s: State, id: nat, key: Key)
    requires id in s.readers && s.readers[id] == Reading(key)
    ensures var found := FromRow(s.table, key, s.clock);
            && Answer(s, GetRead(id)) == Some(found)
            && Apply(s, GetRead(id))
               == s.(readers := if found.None? then s.readers - {id} else s.readers[id := Filling(key, found.value)])
  {
    hide FromRow;
  }

  lemma GetFills(s: State, id: nat)
    requires id in s.readers && s.readers[id].Filling?
    ensures Apply(s, GetFill(id))
         == s.(cache := s.cache[s.readers[id].key := s.readers[id].entry], readers := s.readers - {id})
  {
  }

  lemma NothingToFill(s: State, id: nat)
    requires id !in s.readers
    ensures Apply(s, GetFill(id)) == s
  {
  }

  lemma LastDropped<T>(s: seq<T>, x: T)
    ensures Without(s + [x], |s|) == s
  {
  }

  lemma ReaderGone(readers: map<nat, Reader>, id: nat, r: Reader)
    requires id !in readers
    ensures readers[id := r] - {id} == readers
  {
  }

  lemma ReaderMoved(readers: map<nat, Reader>, id: nat, r: Reader, q: Reader)
    requires id !in readers
    ensures readers[id := r][id := q] - {id} == readers
  {
  }

  lemma RunSnoc(s: State, steps: seq<Step>, step: Step)
    ensures Run(s, steps + [step]) == Apply(Run(s, steps), step)
  {
    assert (steps + [step])[..|steps|] == steps;
  }

  lemma RunOne(s: State, step: Step)
    ensures Run(s, [step]) == Apply(s, step)
  {
    hide Apply;
    RunSnoc(s, [], step);
    assert [] + [step] == [step];
  }

  lemma RunTwo(s: State, first: Step, second: Step)
    ensures Run(s, [first] + [second]) == Apply(Apply(s, first), second)
  {
    hide Apply;
    RunOne(s, first);
    RunSnoc(s, [first], second);
  }

  lemma {:induction false} RunConcat(s: State, a: seq<Step>, b: seq<Step>)
    ensures Run(s, a + b) == Run(Run(s, a), b)
  {
    hide Apply;
    if b == [] {
      assert a + b == a;
    } else {
      var n := |b| - 1;
      RunConcat(s, a, b[..n]);
      assert (a + b)[..|a| + n] == a + b[..n];
    }
  }

  // ---------- What becomes of a removed key ----------

  /** Neither the cache nor the database has the key. */
  predicate Absent(s: State, key: Key)
  {
    key !in s.cache && key !in s.table
  }

  predicate Among(entries: seq<StoredEntry>, key: Key)
  {
    exists e :: e in entries && e.key == key
  }

  predicate AboutToFill(s: State, key: Key)
  {
    exists id :: id in s.readers && s.readers[id].Filling? && s.readers[id].key == key
  }

  /** An earlier put or get of the key is still under way with an entry in hand: on its way to the writer, waiting,
      being batched, or about to be filled into the cache. */
  predicate Remnant(s: State, key: Key)
  {
    Among(s.sending, key) || Among(s.queue, key) || Among(s.batch, key) || AboutToFill(s, key)
  }

  predicate Puts(step: Step, key: Key)
  {
    step.PutCache? && step.entry.key == key
  }

  predicate NoPut(steps: seq<Step>, key: Key)
  {
    forall i :: 0 <= i < |steps| ==> !Puts(steps[i], key)
  }

  /** Whatever the store does, short of a new put of the key, it is not seen again. */
  ghost predicate NeverBack(s: State, key: Key)
  {
    forall steps :: NoPut(steps, key) ==> Absent(Run(s, steps), key)
  }

  lemma AbsentStep(s: State, step: Step, key: Key)
    requires Absent(s, key) && !Remnant(s, key) && !Puts(step, key)
    ensures Absent(Apply(s, step), key) && !Remnant(Apply(s, step), key)
  {
    hide WriteRows, WriteIndex, KeysOf, DueBy, Encode, Decode;
    if Enabled(s, step) {
      match step
      case PutSend(i) =>
        assert s.sending[i] in s.sending;
        WithoutSubset(s.sending, i);
      case Gather =>
        assert s.queue[0] in s.queue;
      case Flush =>
        NotInBatch(s.table, s.batch, key);
      case _ =>
    }
  }

  lemma WithoutSubset(entries: seq<StoredEntry>, i: nat)
    requires i < |entries|
    ensures forall e :: e in Without(entries, i) ==> e in entries
  {
  }

  lemma {:induction false} StaysAbsent(s: State, steps: seq<Step>, key: Key)
    requires Absent(s, key) && !Remnant(s, key) && NoPut(steps, key)
    ensures Absent(Run(s, steps), key) && !Remnant(Run(s, steps), key)
  {
    hide Apply, Absent, Remnant, Puts;
    if steps != [] {
      StaysAbsent(s, steps[..|steps| - 1], key);
      AbsentStep(Run(s, steps[..|steps| - 1]), steps[|steps| - 1], key);
    }
  }

  /** What the store still has in hand. */
  function InHand(s: State): (n: nat)
  {
    3 * |s.sending| + 2 * |s.queue| + |s.batch| + if s.gc.Running? then |s.gc.left| + 1 else 0
  }

  /** One step of the store towards the database. */
  lemma Onward(s: State, key: Key) returns (step: Step)
    requires Remnant(s, key) && !AboutToFill(s, key) && Absent(s, key)
    ensures !Puts(step, key)
    ensures var t := Apply(s, step); !Absent(t, key) || (Remnant(t, key) && InHand(t) < InHand(s))
  {
    hide WriteRows, WriteIndex, KeysOf, DueBy, AboutToFill;
    if s.gc.Running? {
      if s.gc.left == {} {
        step := GcCommit;
      } else {
        var d :| d in s.gc.left;
        step := GcEvict(d);
      }
    } else if Among(s.batch, key) {
      step := Flush;
      FlushShows(s, key);
    } else if Among(s.queue, key) {
      if |s.batch| < BATCH_LIMIT {
        step := Gather;
        GatherKeeps(s.queue, s.batch, key);
      } else {
        step := Flush;
      }
    } else {
      var e :| e in s.sending && e.key == key;
      var i :| 0 <= i < |s.sending| && s.sending[i] == e;
      step := PutSend(i);
      assert Apply(s, step).queue[|s.queue|] == e;
    }
  }

  lemma FlushShows(s: State, key: Key)
    requires Among(s.batch, key) && s.gc.Idle?
    ensures key in Apply(s, Flush).table
  {
    hide WriteRows, WriteIndex, Encode;
    var e :| e in s.batch && e.key == key;
    var i := LastExists(s.batch, e);
    LastOfBatch(s.table, s.batch, i, key);
  }

  lemma GatherKeeps(queue: seq<StoredEntry>, batch: seq<StoredEntry>, key: Key)
    requires Among(queue, key)
    ensures queue != [] && (Among(queue[1..], key) || Among(batch + [queue[0]], key))
  {
    var e :| e in queue && e.key == key;
    if e == queue[0] {
      assert (batch + [queue[0]])[|batch|] == e;
    } else {
      assert e in queue[1..];
    }
  }

  lemma {:induction false} ComesBack(s: State, key: Key) returns (steps: seq<Step>)
    requires Remnant(s, key)
    ensures NoPut(steps, key) && !Absent(Run(s, steps), key)
    decreases InHand(s)
  {
    hide Remnant, Apply, InHand;
    if !Absent(s, key) {
      steps := [];
    } else if AboutToFill(s, key) {
      var id :| id in s.readers && s.readers[id].Filling? && s.readers[id].key == key;
      steps := [GetFill(id)];
      RunOne(s, GetFill(id));
      FillShows(s, id);
    } else {
      var first := Onward(s, key);
      RunOne(s, first);
      if Absent(Apply(s, first), key) {
        var rest := ComesBack(Apply(s, first), key);
        RunConcat(s, [first], rest);
        steps := [first] + rest;
      } else {
        steps := [first];
      }
    }
  }

  lemma FillShows(s: State, id: nat)
    requires id in s.readers && s.readers[id].Filling?
    ensures s.readers[id].key in Apply(s, GetFill(id)).cache
  {
  }

  /** A key that has been removed stays away in every continuation without a new put of it, if and only if no earlier
      put or get of the key is still under way with an entry in hand. */
  lemma RemovedForGoodIff(s: State, key: Key)
    requires Absent(s, key)
    ensures NeverBack(s, key) <==> !Remnant(s, key)
  {
    hide Remnant, Absent, Run, NoPut;
    if Remnant(s, key) {
      var steps := ComesBack(s, key);
    } else {
      forall steps | NoPut(steps, key) ensures Absent(Run(s, steps), key) {
        StaysAbsent(s, steps, key);
      }
    }
  }

  /** A get of an absent key finds nothing. */
  lemma AbsentNotFound(s: State, id: nat, key: Key)
    requires Absent(s, key) && id !in s.readers
    ensures Answer(Apply(s, GetStart(id, key)), GetRead(id)) == Some(None)
  {
  }
}
