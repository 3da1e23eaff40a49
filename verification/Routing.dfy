/** The k-bucket routing table of `crates/ceky-dht/src/routing.rs`. */
module Routing {
  import opened Wrappers
  import opened PeerIds
  import opened Nearest
  import opened Sequences

  const K: nat := 20

  type Addr = string

  datatype PeerState = Discovered | Active | Suspect | Dead

  /** `score` stands for the composite score, taken as a real number. */
  datatype Peer = Peer(id: PeerId, addr: Addr, state: PeerState, score: real)

  datatype Outcome = NewPeer | Updated | Evicted | Full

  datatype DhtError = BucketFull(bucket: nat)

  /** The table as a value. `total` is an `int` here so that staying non-negative is a claim. */
  datatype Table = Table(local: PeerId, buckets: seq<seq<Peer>>, total: int)

  predicate Usable(p: Peer)
  {
    p.state.Discovered? || p.state.Active?
  }

  predicate Evictable(p: Peer)
  {
    p.state.Dead? || p.state.Suspect?
  }

  function Fresh(id: PeerId, addr: Addr): (r: Peer)
  {
    Peer(id, addr, Discovered, 0.0)
  }

  // ---------- One bucket ----------

  /** Position of the first peer with this id. */
  function Find(peers: seq<Peer>, id: PeerId): (r: Option<nat>)
    ensures r.None? ==> forall i :: 0 <= i < |peers| ==> peers[i].id != id
    ensures r.Some? ==> r.value < |peers| && peers[r.value].id == id
    ensures r.Some? ==> forall i :: 0 <= i < r.value ==> peers[i].id != id
  {
    if peers == [] then None
    else
      var n := |peers| - 1;
      match Find(peers[..n], id)
      case Some(i) => assert peers[..n][i] == peers[i]; Some(i)
      case None =>
        assert forall i :: 0 <= i < n ==> peers[..n][i] == peers[i];
        if peers[n].id == id then Some(n) else None
  }

  /** Position `i` holds the first of the lowest-scored dead or suspect peers. */
  predicate IsWorst(peers: seq<Peer>, i: nat)
  {
    && i < |peers| && Evictable(peers[i])
    && (forall j :: 0 <= j < |peers| && Evictable(peers[j]) ==> peers[i].score <= peers[j].score)
    && (forall j :: 0 <= j < i && Evictable(peers[j]) ==> peers[i].score < peers[j].score)
  }

  predicate AllKept(peers: seq<Peer>)
  {
    forall j :: 0 <= j < |peers| ==> !Evictable(peers[j])
  }

  function Worst(peers: seq<Peer>): (r: Option<nat>)
    ensures r.Some? ==> IsWorst(peers, r.value)
    ensures r.None? ==> AllKept(peers)
  {
    if peers == [] then None
    else
      var n := |peers| - 1;
      var best := Worst(peers[..n]);
      assert forall j :: 0 <= j < n ==> peers[..n][j] == peers[j];
      if Evictable(peers[n]) && (best.None? || peers[n].score < peers[best.value].score) then Some(n) else best
  }

  lemma WorstUnique(peers: seq<Peer>, i: nat)
    requires IsWorst(peers, i)
    ensures Worst(peers) == Some(i)
  {
  }

  /** `find_eviction_candidate`: a scan that keeps the best position so far. */
  method FindEvictionCandidate(peers: seq<Peer>) returns (best: Option<nat>)
    ensures best.Some? ==> IsWorst(peers, best.value)
    ensures best.None? ==> AllKept(peers)
  {
    best := None;
    var bestScore := 0.0;
    for i := 0 to |peers|
      invariant best.None? ==> AllKept(peers[..i])
      invariant best.Some? ==> IsWorst(peers[..i], best.value) && bestScore == peers[best.value].score
    {
      assert peers[..i + 1] == peers[..i] + [peers[i]];
      if Evictable(peers[i]) && (best.None? || peers[i].score < bestScore) {
        best, bestScore := Some(i), peers[i].score;
      }
    }
    assert peers[..|peers|] == peers;
  }

  function InsertInto(peers: seq<Peer>, p: Peer): (r: (seq<Peer>, Outcome))
  {
    match Find(peers, p.id)
    case Some(i) => (Without(peers, i) + [peers[i].(addr := p.addr)], Updated)
    case None =>
      if |peers| < K then (peers + [p], NewPeer)
      else
        match Worst(peers)
        case Some(i) => (Without(peers, i) + [p], Evicted)
        case None => (peers, Full)
  }

  method InsertOrUpdate(peers: seq<Peer>, p: Peer) returns (after: seq<Peer>, outcome: Outcome)
    ensures (after, outcome) == InsertInto(peers, p)
  {
    hide Worst, Find;
    after := peers;
    var found := Find(peers, p.id);
    if found.Some? {
      var i := found.value;
      after := after[i := after[i].(addr := p.addr)];
      var moved := after[i];
      after := Without(after, i);
      after := after + [moved];
      assert Without(peers[i := moved], i) == Without(peers, i);
      return after, Updated;
    }
    if |after| < K {
      after := after + [p];
      return after, NewPeer;
    }
    var candidate := FindEvictionCandidate(after);
    if candidate.Some? {
      WorstUnique(peers, candidate.value);
      after := Without(after, candidate.value);
      after := after + [p];
      return after, Evicted;
    }
    return after, Full;
  }

  predicate NotDead(p: Peer)
  {
    !p.state.Dead?
  }

  /** The peers a filter keeps, in order. */
  function Retain(peers: seq<Peer>, keep: Peer -> bool): (r: seq<Peer>)
    ensures |r| <= |peers|
  {
    if peers == [] then []
    else
      var n := |peers| - 1;
      Retain(peers[..n], keep) + (if keep(peers[n]) then [peers[n]] else [])
  }

  // ---------- The table ----------

  function SumLen(buckets: seq<seq<Peer>>): (n: nat)
  {
    if buckets == [] then 0 else SumLen(buckets[..|buckets| - 1]) + |buckets[|buckets| - 1]|
  }

  predicate UniqueIds(peers: seq<Peer>)
  {
    forall i, j :: 0 <= i < j < |peers| ==> peers[i].id != peers[j].id
  }

  predicate InBucket(local: PeerId, b: nat, peers: seq<Peer>)
  {
    forall i :: 0 <= i < |peers| ==> BucketIndex(local, peers[i].id) == Some(b)
  }

  predicate BucketOk(local: PeerId, b: nat, peers: seq<Peer>)
  {
    |peers| <= K && UniqueIds(peers) && InBucket(local, b, peers)
  }

  predicate BucketsOk(local: PeerId, buckets: seq<seq<Peer>>)
  {
    |buckets| == NUM_BUCKETS && forall b :: 0 <= b < NUM_BUCKETS ==> BucketOk(local, b, buckets[b])
  }

  /** What every run keeps. */
  predicate Valid(t: Table)
  {
    BucketsOk(t.local, t.buckets) && t.total == SumLen(t.buckets)
  }

  function Empty(local: PeerId): (r: Table)
  {
    Table(local, seq(NUM_BUCKETS, _ => []), 0)
  }

  function Put(t: Table, b: nat, peers: seq<Peer>): (r: Table)
    requires b < |t.buckets|
  {
    t.(buckets := t.buckets[b := peers])
  }

  function InsertStep(t: Table, id: PeerId, addr: Addr): (r: Table)
    requires |t.buckets| == NUM_BUCKETS
  {
    match BucketIndex(t.local, id)
    case None => t
    case Some(b) =>
      var (after, outcome) := InsertInto(t.buckets[b], Fresh(id, addr));
      Put(t, b, after).(total := if outcome == NewPeer then t.total + 1 else t.total)
  }

  function InsertAnswer(t: Table, id: PeerId, addr: Addr): (r: Result<bool, DhtError>)
    requires |t.buckets| == NUM_BUCKETS
  {
    match BucketIndex(t.local, id)
    case None => Success(false)
    case Some(b) =>
      match InsertInto(t.buckets[b], Fresh(id, addr)).1
      case NewPeer => Success(true)
      case Evicted => Success(true)
      case Updated => Success(false)
      case Full => Failure(BucketFull(b))
  }

  function RemoveStep(t: Table, id: PeerId): (r: Table)
    requires |t.buckets| == NUM_BUCKETS
  {
    match BucketIndex(t.local, id)
    case None => t
    case Some(b) =>
      match Find(t.buckets[b], id)
      case None => t
      case Some(i) => Put(t, b, Without(t.buckets[b], i)).(total := t.total - 1)
  }

  function Get(t: Table, id: PeerId): (r: Option<Peer>)
    requires |t.buckets| == NUM_BUCKETS
    ensures r.Some? ==> r.value.id == id
  {
    match BucketIndex(t.local, id)
    case None => None
    case Some(b) =>
      match Find(t.buckets[b], id)
      case None => None
      case Some(i) => Some(t.buckets[b][i])
  }

  /** A write through `get_mut`. */
  function MarkStep(t: Table, id: PeerId, state: PeerState, score: Option<real>): (r: Table)
    requires |t.buckets| == NUM_BUCKETS
  {
    match BucketIndex(t.local, id)
    case None => t
    case Some(b) =>
      match Find(t.buckets[b], id)
      case None => t
      case Some(i) =>
        var p := t.buckets[b][i];
        Put(t, b, t.buckets[b][i := p.(state := state, score := if score.Some? then score.value else p.score)])
  }

  function AliveBuckets(buckets: seq<seq<Peer>>): (r: seq<seq<Peer>>)
    ensures |r| == |buckets|
  {
    seq(|buckets|, b requires 0 <= b < |buckets| => Retain(buckets[b], NotDead))
  }

  function EvictStep(t: Table): (r: Table)
  {
    t.(buckets := AliveBuckets(t.buckets), total := t.total - (SumLen(t.buckets) - SumLen(AliveBuckets(t.buckets))))
  }

  function Collect(buckets: seq<seq<Peer>>): (r: seq<Peer>)
  {
    if buckets == [] then [] else Collect(buckets[..|buckets| - 1]) + Retain(buckets[|buckets| - 1], Usable)
  }

  function PeerKey(target: PeerId): (key: Peer -> nat)
  {
    (p: Peer) => Distance(p.id, target)
  }

  function Closest(t: Table, target: PeerId, count: nat): (r: seq<Peer>)
  {
    Take(SortBy(Collect(t.buckets), PeerKey(target)), count)
  }

  // ---------- Bucket lemmas ----------

  lemma SnocOk(local: PeerId, b: nat, peers: seq<Peer>, p: Peer)
    requires BucketOk(local, b, peers) && |peers| < K && BucketIndex(local, p.id) == Some(b)
    requires forall i :: 0 <= i < |peers| ==> peers[i].id != p.id
    ensures BucketOk(local, b, peers + [p])
  {
    hide BucketIndex;
  }

  lemma WithoutOk(local: PeerId, b: nat, peers: seq<Peer>, i: nat)
    requires BucketOk(local, b, peers) && i < |peers|
    ensures BucketOk(local, b, Without(peers, i)) && |Without(peers, i)| == |peers| - 1
    ensures forall j :: 0 <= j < |peers| - 1 ==> Without(peers, i)[j].id != peers[i].id
  {
    hide BucketIndex;
  }

  lemma WithoutMembers(peers: seq<Peer>, i: nat, p: Peer)
    requires i < |peers| && p in peers && p != peers[i]
    ensures p in Without(peers, i)
  {
    var j :| 0 <= j < |peers| && peers[j] == p;
    if j < i {
      assert Without(peers, i)[j] == p;
    } else {
      assert Without(peers, i)[j - 1] == p;
    }
  }

  lemma WithoutOthers(peers: seq<Peer>, i: nat, id: PeerId)
    requires i < |peers| && forall j :: 0 <= j < |peers| ==> peers[j].id != id
    ensures forall j :: 0 <= j < |Without(peers, i)| ==> Without(peers, i)[j].id != id
  {
    forall j | 0 <= j < |Without(peers, i)| ensures Without(peers, i)[j].id != id {
      assert Without(peers, i)[j] in peers;
    }
  }

  lemma InsertIntoOk(local: PeerId, b: nat, peers: seq<Peer>, p: Peer)
    requires BucketOk(local, b, peers) && BucketIndex(local, p.id) == Some(b)
    ensures var (after, outcome) := InsertInto(peers, p);
            BucketOk(local, b, after) && |after| == |peers| + (if outcome == NewPeer then 1 else 0)
  {
    hide BucketIndex, BucketOk, Worst, Find;
    assert |peers| <= K by {
      BucketSize(local, b, peers);
    }
    match Find(peers, p.id)
    case Some(i) =>
      WithoutOk(local, b, peers, i);
      SnocOk(local, b, Without(peers, i), peers[i].(addr := p.addr));
    case None =>
      if |peers| < K {
        SnocOk(local, b, peers, p);
      } else {
        match Worst(peers)
        case Some(i) =>
          WithoutOk(local, b, peers, i);
          WithoutOthers(peers, i, p.id);
          SnocOk(local, b, Without(peers, i), p);
        case None =>
      }
  }

  lemma BucketSize(local: PeerId, b: nat, peers: seq<Peer>)
    requires BucketOk(local, b, peers)
    ensures |peers| <= K
  {
    hide BucketIndex;
  }

  /** An insertion keeps every usable peer, changing at most the address of the peer it names. */
  lemma InsertIntoKeeps(peers: seq<Peer>, p: Peer, q: Peer)
    requires q in peers && Usable(q)
    ensures var after := InsertInto(peers, p).0; q in after || (q.id == p.id && q.(addr := p.addr) in after)
  {
    hide Worst;
    var (after, outcome) := InsertInto(peers, p);
    match Find(peers, p.id)
    case Some(i) =>
      if q != peers[i] {
        WithoutMembers(peers, i, q);
      }
      assert after[|after| - 1] == peers[i].(addr := p.addr);
    case None =>
      if |peers| >= K && Worst(peers).Some? {
        WithoutMembers(peers, Worst(peers).value, q);
      }
  }

  lemma {:induction false} RetainIs(peers: seq<Peer>, keep: Peer -> bool)
    ensures forall p :: p in Retain(peers, keep) <==> p in peers && keep(p)
  {
    if peers != [] {
      var n := |peers| - 1;
      RetainIs(peers[..n], keep);
      assert peers == peers[..n] + [peers[n]];
    }
  }

  lemma {:induction false} RetainUnique(peers: seq<Peer>, keep: Peer -> bool)
    requires UniqueIds(peers)
    ensures UniqueIds(Retain(peers, keep))
  {
    if peers != [] {
      var n := |peers| - 1;
      var rest := Retain(peers[..n], keep);
      RetainUnique(peers[..n], keep);
      RetainIs(peers[..n], keep);
      forall i | 0 <= i < |rest| ensures rest[i].id != peers[n].id {
        assert rest[i] in peers[..n];
      }
    }
  }

  lemma RetainOk(local: PeerId, b: nat, peers: seq<Peer>, keep: Peer -> bool)
    requires BucketOk(local, b, peers)
    ensures BucketOk(local, b, Retain(peers, keep))
  {
    hide BucketIndex, Retain;
    RetainUnique(peers, keep);
    RetainIs(peers, keep);
    var kept := Retain(peers, keep);
    forall i | 0 <= i < |kept| ensures BucketIndex(local, kept[i].id) == Some(b) {
      assert kept[i] in peers;
    }
  }

  // ---------- Table lemmas ----------

  lemma {:induction false} SumPut(buckets: seq<seq<Peer>>, b: nat, peers: seq<Peer>)
    requires b < |buckets|
    ensures SumLen(buckets[b := peers]) == SumLen(buckets) - |buckets[b]| + |peers|
  {
    var n := |buckets| - 1;
    if b == n {
      assert buckets[b := peers][..n] == buckets[..n];
    } else {
      assert buckets[b := peers][..n] == buckets[..n][b := peers];
      SumPut(buckets[..n], b, peers);
    }
  }

  lemma {:induction false} SumAtLeast(buckets: seq<seq<Peer>>, b: nat)
    requires b < |buckets|
    ensures SumLen(buckets) >= |buckets[b]|
  {
    var n := |buckets| - 1;
    if b < n {
      SumAtLeast(buckets[..n], b);
    }
  }

  lemma PutValid(t: Table, b: nat, peers: seq<Peer>, total: int)
    requires Valid(t) && b < NUM_BUCKETS && BucketOk(t.local, b, peers)
    requires total == t.total - |t.buckets[b]| + |peers|
    ensures Valid(Put(t, b, peers).(total := total))
  {
    hide BucketOk;
    SumPut(t.buckets, b, peers);
  }

  lemma InsertValid(t: Table, id: PeerId, addr: Addr)
    requires Valid(t)
    ensures Valid(InsertStep(t, id, addr))
  {
    hide BucketIndex, BucketOk, InsertInto, SumLen;
    match BucketIndex(t.local, id)
    case None =>
    case Some(b) =>
      var (after, outcome) := InsertInto(t.buckets[b], Fresh(id, addr));
      InsertIntoOk(t.local, b, t.buckets[b], Fresh(id, addr));
      PutValid(t, b, after, if outcome == NewPeer then t.total + 1 else t.total);
  }

  lemma RemoveValid(t: Table, id: PeerId)
    requires Valid(t)
    ensures Valid(RemoveStep(t, id))
  {
    hide BucketIndex, BucketOk, SumLen;
    match BucketIndex(t.local, id)
    case None =>
    case Some(b) =>
      match Find(t.buckets[b], id)
      case None =>
      case Some(i) =>
        WithoutOk(t.local, b, t.buckets[b], i);
        PutValid(t, b, Without(t.buckets[b], i), t.total - 1);
  }

  lemma ReplaceOk(local: PeerId, b: nat, peers: seq<Peer>, i: nat, p: Peer)
    requires BucketOk(local, b, peers) && i < |peers| && p.id == peers[i].id
    ensures BucketOk(local, b, peers[i := p])
  {
    hide BucketIndex;
  }

  lemma MarkValid(t: Table, id: PeerId, state: PeerState, score: Option<real>)
    requires Valid(t)
    ensures Valid(MarkStep(t, id, state, score))
  {
    hide BucketIndex, BucketOk, SumLen;
    match BucketIndex(t.local, id)
    case None =>
    case Some(b) =>
      match Find(t.buckets[b], id)
      case None =>
      case Some(i) =>
        var p := t.buckets[b][i];
        var q := p.(state := state, score := if score.Some? then score.value else p.score);
        ReplaceOk(t.local, b, t.buckets[b], i, q);
        PutValid(t, b, t.buckets[b][i := q], t.total);
  }

  lemma EvictDeadValid(t: Table)
    requires Valid(t)
    ensures Valid(EvictStep(t))
  {
    hide BucketIndex, BucketOk, SumLen, Retain;
    forall b | 0 <= b < NUM_BUCKETS ensures BucketOk(t.local, b, AliveBuckets(t.buckets)[b]) {
      RetainOk(t.local, b, t.buckets[b], NotDead);
    }
  }

  // ---------- Runs ----------

  datatype Op =
    | InsertOp(id: PeerId, addr: Addr)
    | RemoveOp(id: PeerId)
    | MarkOp(id: PeerId, state: PeerState, score: Option<real>)
    | EvictDeadOp

  function Apply(t: Table, op: Op): (r: Table)
    requires |t.buckets| == NUM_BUCKETS
    ensures |r.buckets| == NUM_BUCKETS && r.local == t.local
  {
    match op
    case InsertOp(id, addr) => InsertStep(t, id, addr)
    case RemoveOp(id) => RemoveStep(t, id)
    case MarkOp(id, state, score) => MarkStep(t, id, state, score)
    case EvictDeadOp => EvictStep(t)
  }

  function Run(local: PeerId, ops: seq<Op>): (t: Table)
    ensures |t.buckets| == NUM_BUCKETS && t.local == local
  {
    if ops == [] then Empty(local) else Apply(Run(local, ops[..|ops| - 1]), ops[|ops| - 1])
  }

  lemma {:induction false} SumEmpty(buckets: seq<seq<Peer>>)
    requires forall b :: 0 <= b < |buckets| ==> buckets[b] == []
    ensures SumLen(buckets) == 0
  {
    if buckets != [] {
      SumEmpty(buckets[..|buckets| - 1]);
    }
  }

  lemma ApplyValid(t: Table, op: Op)
    requires Valid(t)
    ensures Valid(Apply(t, op))
  {
    hide Valid, InsertStep, RemoveStep, MarkStep, EvictStep;
    match op
    case InsertOp(id, addr) => InsertValid(t, id, addr);
    case RemoveOp(id) => RemoveValid(t, id);
    case MarkOp(id, state, score) => MarkValid(t, id, state, score);
    case EvictDeadOp => EvictDeadValid(t);
  }

  lemma {:induction false} RunValid(local: PeerId, ops: seq<Op>)
    ensures Valid(Run(local, ops))
  {
    if ops == [] {
      SumEmpty(Empty(local).buckets);
    } else {
      hide Valid, Apply;
      RunValid(local, ops[..|ops| - 1]);
      ApplyValid(Run(local, ops[..|ops| - 1]), ops[|ops| - 1]);
    }
  }

  // ---------- What the invariant means ----------

  function Members(t: Table): (r: set<Peer>)
  {
    set b, p | 0 <= b < |t.buckets| && p in t.buckets[b] :: p
  }

  lemma MemberBucket(t: Table, p: Peer) returns (b: nat, i: nat)
    requires Valid(t) && p in Members(t)
    ensures b < NUM_BUCKETS && i < |t.buckets[b]| && t.buckets[b][i] == p
    ensures BucketIndex(t.local, p.id) == Some(b)
  {
    hide BucketIndex, SumLen;
    b :| 0 <= b < |t.buckets| && p in t.buckets[b];
    i :| 0 <= i < |t.buckets[b]| && t.buckets[b][i] == p;
    assert BucketOk(t.local, b, t.buckets[b]);
  }

  /** `get` finds exactly the member with that id; so no id occurs twice in the whole table. */
  lemma GetIff(t: Table, p: Peer)
    requires Valid(t)
    ensures p in Members(t) <==> Get(t, p.id) == Some(p)
  {
    hide BucketIndex, SumLen;
    if p in Members(t) {
      var b, i := MemberBucket(t, p);
      assert BucketOk(t.local, b, t.buckets[b]);
    }
    if Get(t, p.id) == Some(p) {
      assert p in t.buckets[BucketIndex(t.local, p.id).value];
    }
  }

  lemma {:induction false} SumBound(buckets: seq<seq<Peer>>)
    requires forall b :: 0 <= b < |buckets| ==> |buckets[b]| <= K
    ensures SumLen(buckets) <= K * |buckets|
  {
    if buckets != [] {
      SumBound(buckets[..|buckets| - 1]);
    }
  }

  /** In every reachable table: each id at most once, in its own bucket; never the local id; the counter exact. */
  lemma ReachableTables(local: PeerId, ops: seq<Op>)
    ensures var t := Run(local, ops);
            && (forall p, q :: p in Members(t) && q in Members(t) && p.id == q.id ==> p == q)
            && (forall p :: p in Members(t) ==> p.id != local)
            && 0 <= t.total == SumLen(t.buckets) <= K * NUM_BUCKETS
  {
    hide Run, Get, Members;
    var t := Run(local, ops);
    RunValid(local, ops);
    assert forall b :: 0 <= b < NUM_BUCKETS ==> BucketOk(local, b, t.buckets[b]);
    SumBound(t.buckets);
    forall p, q | p in Members(t) && q in Members(t) && p.id == q.id ensures p == q {
      GetIff(t, p);
      GetIff(t, q);
    }
    forall p | p in Members(t) ensures p.id != local {
      var b, i := MemberBucket(t, p);
    }
  }

  // ---------- Insertion and eviction ----------

  predicate FullOfUsable(peers: seq<Peer>)
  {
    |peers| == K && forall i :: 0 <= i < |peers| ==> Usable(peers[i])
  }

  /** `insert` fails exactly for a new id whose bucket holds 20 usable peers, and then changes nothing. */
  lemma BucketFullIff(t: Table, id: PeerId, addr: Addr, b: nat)
    requires Valid(t)
    ensures InsertAnswer(t, id, addr) == Failure(BucketFull(b)) <==>
            BucketIndex(t.local, id) == Some(b) && Get(t, id).None? && FullOfUsable(t.buckets[b])
    ensures InsertAnswer(t, id, addr).Failure? ==> InsertStep(t, id, addr) == t
  {
    hide BucketIndex, SumLen, Worst, Find;
    match BucketIndex(t.local, id)
    case None =>
    case Some(c) =>
      assert BucketOk(t.local, c, t.buckets[c]);
      assert Worst(t.buckets[c]).None? <==> AllKept(t.buckets[c]);
      assert t.buckets[c := t.buckets[c]] == t.buckets;
  }

  /** The peers an insertion displaces: the old entry of the same id, or the worst dead or suspect peer. */
  function Displaced(t: Table, id: PeerId): (r: set<Peer>)
    requires |t.buckets| == NUM_BUCKETS
  {
    if BucketIndex(t.local, id).None? then {}
    else
      var peers := t.buckets[BucketIndex(t.local, id).value];
      match Find(peers, id)
      case Some(i) => {peers[i]}
      case None => if |peers| >= K && Worst(peers).Some? then {peers[Worst(peers).value]} else {}
  }

  /** The entry an insertion leaves for the id. */
  function Entered(t: Table, id: PeerId, addr: Addr): (r: Peer)
    requires |t.buckets| == NUM_BUCKETS
  {
    match Get(t, id)
    case Some(q) => q.(addr := addr)
    case None => Fresh(id, addr)
  }

  lemma PutMembers(t: Table, b: nat, peers: seq<Peer>, total: int)
    requires Valid(t) && b < NUM_BUCKETS
    ensures Members(Put(t, b, peers).(total := total)) == Members(t) - Elements(t.buckets[b]) + Elements(peers)
  {
    hide SumLen, BucketIndex;
    var u := Put(t, b, peers).(total := total);
    forall p ensures p in Members(u) <==> p in Members(t) - Elements(t.buckets[b]) + Elements(peers) {
      if p in Members(u) {
        var c :| 0 <= c < |u.buckets| && p in u.buckets[c];
        if c != b {
          assert p in t.buckets[c];
          NotInTwo(t, b, c, p);
        }
      }
      if p in Members(t) && p !in Elements(t.buckets[b]) {
        var c :| 0 <= c < |t.buckets| && p in t.buckets[c];
        assert p in u.buckets[c];
      }
      if p in Elements(peers) {
        assert p in u.buckets[b];
      }
    }
  }

  lemma NotInTwo(t: Table, b: nat, c: nat, p: Peer)
    requires Valid(t) && b < NUM_BUCKETS && c < NUM_BUCKETS && b != c && p in t.buckets[c]
    ensures p !in t.buckets[b]
  {
    hide SumLen, BucketIndex;
    assert BucketOk(t.local, b, t.buckets[b]) && BucketOk(t.local, c, t.buckets[c]);
  }

  lemma WithoutElements(peers: seq<Peer>, i: nat)
    requires i < |peers| && UniqueIds(peers)
    ensures Elements(Without(peers, i)) == Elements(peers) - {peers[i]}
  {
    forall p ensures p in Elements(Without(peers, i)) <==> p in Elements(peers) - {peers[i]} {
      if p in peers && p != peers[i] {
        WithoutMembers(peers, i, p);
      }
    }
  }

  /** What an insertion changes in the table as a set of peers. */
  lemma InsertMembers(t: Table, id: PeerId, addr: Addr)
    requires Valid(t) && id != t.local && InsertAnswer(t, id, addr).Success?
    ensures Members(InsertStep(t, id, addr)) == Members(t) - Displaced(t, id) + {Entered(t, id, addr)}
  {
    hide SumLen, BucketIndex, Worst, Find, Members;
    var b := BucketIndex(t.local, id).value;
    var peers := t.buckets[b];
    var (after, outcome) := InsertInto(peers, Fresh(id, addr));
    assert BucketOk(t.local, b, peers);
    PutMembers(t, b, after, if outcome == NewPeer then t.total + 1 else t.total);
    assert Elements(after) == Elements(peers) - Displaced(t, id) + {Entered(t, id, addr)} by {
      match Find(peers, id)
      case Some(i) => WithoutElements(peers, i);
      case None =>
        if |peers| >= K {
          WithoutElements(peers, Worst(peers).value);
        }
    }
    BucketMembers(t, b);
    assert Displaced(t, id) <= Elements(peers);
  }

  lemma BucketMembers(t: Table, b: nat)
    requires b < |t.buckets|
    ensures Elements(t.buckets[b]) <= Members(t)
  {
  }

  /** A displaced peer other than the inserted id is dead or suspect, has the lowest score of those in its bucket,
      and that bucket was full. */
  lemma DisplacedIsWorst(t: Table, id: PeerId, victim: Peer)
    requires Valid(t) && victim in Displaced(t, id) && victim.id != id
    ensures Evictable(victim) && victim in Members(t)
    ensures var b := BucketIndex(t.local, id).value;
            && |t.buckets[b]| == K && victim in t.buckets[b]
            && forall p :: p in t.buckets[b] && Evictable(p) ==> victim.score <= p.score
  {
    hide SumLen, BucketIndex, Worst, Find;
    var b := BucketIndex(t.local, id).value;
    assert BucketOk(t.local, b, t.buckets[b]);
    BucketMembers(t, b);
  }

  lemma PresentInBucket(t: Table, b: nat, p: Peer)
    requires |t.buckets| == NUM_BUCKETS && BucketIndex(t.local, p.id) == Some(b) && p in t.buckets[b]
    ensures Get(t, p.id).Some?
  {
  }

  lemma InsertKeepsUsable(t: Table, id: PeerId, addr: Addr, p: Peer)
    requires Valid(t) && p in Members(t) && Usable(p)
    ensures Get(InsertStep(t, id, addr), p.id).Some?
  {
    hide SumLen, BucketIndex, InsertInto, Get;
    var c, i := MemberBucket(t, p);
    var u := InsertStep(t, id, addr);
    if BucketIndex(t.local, id) == Some(c) {
      InsertIntoKeeps(t.buckets[c], Fresh(id, addr), p);
      if p in u.buckets[c] {
        PresentInBucket(u, c, p);
      } else {
        PresentInBucket(u, c, p.(addr := addr));
      }
    } else {
      PresentInBucket(u, c, p);
    }
  }

  lemma OtherRemoved(t: Table, id: PeerId, p: Peer)
    requires Valid(t) && p in Members(t) && id != p.id
    ensures Get(RemoveStep(t, id), p.id).Some?
  {
    hide SumLen, BucketIndex, Get, Find;
    var c, i := MemberBucket(t, p);
    var u := RemoveStep(t, id);
    if BucketIndex(t.local, id) == Some(c) && Find(t.buckets[c], id).Some? {
      WithoutMembers(t.buckets[c], Find(t.buckets[c], id).value, p);
    }
    PresentInBucket(u, c, p);
  }

  lemma MarkKeeps(t: Table, id: PeerId, state: PeerState, score: Option<real>, p: Peer)
    requires Valid(t) && p in Members(t)
    ensures Get(MarkStep(t, id, state, score), p.id).Some?
  {
    hide SumLen, BucketIndex, Get, Find;
    var c, i := MemberBucket(t, p);
    var u := MarkStep(t, id, state, score);
    PresentInBucket(u, c, u.buckets[c][i]);
  }

  lemma EvictKeeps(t: Table, p: Peer)
    requires Valid(t) && p in Members(t) && NotDead(p)
    ensures Get(EvictStep(t), p.id).Some?
  {
    hide SumLen, BucketIndex, Get, Retain;
    var c, i := MemberBucket(t, p);
    RetainIs(t.buckets[c], NotDead);
    PresentInBucket(EvictStep(t), c, p);
  }

  /** The only operation that takes a usable peer out of the table is removing that peer. */
  lemma UsableLeavesOnlyByRemove(t: Table, op: Op, p: Peer)
    requires Valid(t) && p in Members(t) && Usable(p) && Get(Apply(t, op), p.id).None?
    ensures op == RemoveOp(p.id)
  {
    hide Valid, InsertStep, RemoveStep, MarkStep, EvictStep, Get;
    match op
    case InsertOp(id, addr) => InsertKeepsUsable(t, id, addr, p);
    case RemoveOp(id) =>
      if id != p.id {
        OtherRemoved(t, id, p);
      }
    case MarkOp(id, state, score) => MarkKeeps(t, id, state, score, p);
    case EvictDeadOp => EvictKeeps(t, p);
  }

  /** The operation neither removes the peer nor marks it suspect or dead. */
  predicate Harmless(op: Op, id: PeerId)
  {
    match op
    case RemoveOp(other) => other != id
    case MarkOp(other, state, _) => other != id || state == Active || state == Discovered
    case _ => true
  }

  /** One harmless operation leaves a usable peer in the table, and usable. */
  lemma StaysUsable(t: Table, op: Op, p: Peer)
    requires Valid(t) && Get(t, p.id) == Some(p) && Usable(p) && Harmless(op, p.id)
    ensures var after := Get(Apply(t, op), p.id); after.Some? && Usable(after.value)
  {
    hide Valid, InsertStep, RemoveStep, MarkStep, EvictStep, Get, Displaced, Members;
    SizeOf(t);
    GetIff(t, p);
    ApplyValid(t, op);
    var u := Apply(t, op);
    match op
    case InsertOp(id, addr) => InsertLeaves(t, id, addr, p);
    case RemoveOp(id) =>
      RemoveMembers(t, id);
      GetIff(u, p);
    case MarkOp(id, state, score) =>
      MarkMembers(t, id, state, score);
      var q := Peer(id, p.addr, state, if score.Some? then score.value else p.score);
      GetIff(u, if id == p.id then q else p);
    case EvictDeadOp =>
      EvictDeadMembers(t);
      GetIff(u, p);
  }

  lemma InsertLeaves(t: Table, id: PeerId, addr: Addr, p: Peer)
    requires Valid(t) && Get(t, p.id) == Some(p) && Usable(p)
    ensures Get(InsertStep(t, id, addr), p.id) == Some(if id == p.id then p.(addr := addr) else p)
  {
    hide Valid, InsertStep, Get, Displaced, Members, InsertInto, BucketIndex;
    SizeOf(t);
    GetIff(t, p);
    InsertValid(t, id, addr);
    var u := InsertStep(t, id, addr);
    if InsertAnswer(t, id, addr).Failure? {
      BucketFullIff(t, id, addr, InsertAnswer(t, id, addr).error.bucket);
    } else if id == t.local {
      LocalIgnored(t, addr, p);
    } else {
      InsertMembers(t, id, addr);
      if id == p.id {
        GetIff(u, p.(addr := addr));
      } else {
        if p in Displaced(t, id) {
          DisplacedIsWorst(t, id, p);
        }
        GetIff(u, p);
      }
    }
  }

  /** Inserting the local id changes nothing, and no member has it. */
  lemma LocalIgnored(t: Table, addr: Addr, p: Peer)
    requires Valid(t) && p in Members(t)
    ensures InsertStep(t, t.local, addr) == t && p.id != t.local
  {
    hide SumLen, InsertInto;
    var b, i := MemberBucket(t, p);
  }

  lemma InsertedIsFound(t: Table, id: PeerId, addr: Addr)
    requires Valid(t) && InsertAnswer(t, id, addr) == Success(true)
    ensures Get(InsertStep(t, id, addr), id) == Some(Fresh(id, addr))
  {
    hide InsertStep, Get, Displaced, Members, Valid;
    SizeOf(t);
    NewHasNoEntry(t, id, addr);
    InsertValid(t, id, addr);
    InsertMembers(t, id, addr);
    GetIff(InsertStep(t, id, addr), Fresh(id, addr));
  }

  lemma NewHasNoEntry(t: Table, id: PeerId, addr: Addr)
    requires Valid(t) && InsertAnswer(t, id, addr) == Success(true)
    ensures id != t.local && Get(t, id).None?
  {
    hide SumLen, Worst, Find;
  }

  /** In every run: a peer accepted as new is in the table, usable, until some operation removes it or marks it
      suspect or dead, however many insertions and evictions come in between. */
  lemma {:induction false} InsertedStays(local: PeerId, ops: seq<Op>, n: nat)
    requires n < |ops| && ops[n].InsertOp?
    requires InsertAnswer(Run(local, ops[..n]), ops[n].id, ops[n].addr) == Success(true)
    requires forall k :: n < k < |ops| ==> Harmless(ops[k], ops[n].id)
    ensures var p := Get(Run(local, ops), ops[n].id); p.Some? && Usable(p.value)
    decreases |ops|
  {
    hide Apply, Get, InsertAnswer, Harmless, Valid;
    var m := |ops| - 1;
    var t := Run(local, ops[..m]);
    RunValid(local, ops[..m]);
    if n == m {
      InsertedIsFound(t, ops[n].id, ops[n].addr);
      assert Apply(t, ops[n]) == InsertStep(t, ops[n].id, ops[n].addr) by {
        ApplyInsert(t, ops[n].id, ops[n].addr);
      }
    } else {
      assert ops[..m][..n] == ops[..n];
      InsertedStays(local, ops[..m], n);
      StaysUsable(t, ops[m], Get(t, ops[n].id).value);
    }
  }

  lemma ApplyInsert(t: Table, id: PeerId, addr: Addr)
    requires |t.buckets| == NUM_BUCKETS
    ensures Apply(t, InsertOp(id, addr)) == InsertStep(t, id, addr)
  {
  }

  /** `evict_dead` drops exactly the dead peers. */
  lemma EvictDeadMembers(t: Table)
    ensures Members(EvictStep(t)) == set p | p in Members(t) && NotDead(p)
  {
    hide SumLen, Retain;
    forall p ensures p in Members(EvictStep(t)) <==> p in Members(t) && NotDead(p) {
      forall b | 0 <= b < |t.buckets| ensures p in EvictStep(t).buckets[b] <==> p in t.buckets[b] && NotDead(p) {
        RetainIs(t.buckets[b], NotDead);
      }
    }
  }

  /** `remove` takes out exactly the peer with that id: it is not found afterwards, every other member stays as it
      was, and the counter falls by one exactly when the id was present. */
  lemma RemoveMembers(t: Table, id: PeerId)
    requires Valid(t)
    ensures Members(RemoveStep(t, id)) == set p | p in Members(t) && p.id != id
    ensures Get(RemoveStep(t, id), id).None?
    ensures RemoveStep(t, id).total == t.total - if Get(t, id).Some? then 1 else 0
  {
    hide SumLen, BucketIndex, Find, Members;
    match Get(t, id)
    case None =>
      forall p | p in Members(t) ensures p.id != id {
        GetIff(t, p);
      }
    case Some(q) =>
      var b := BucketIndex(t.local, id).value;
      var i := Find(t.buckets[b], id).value;
      assert BucketOk(t.local, b, t.buckets[b]);
      WithoutElements(t.buckets[b], i);
      PutMembers(t, b, Without(t.buckets[b], i), t.total - 1);
      BucketMembers(t, b);
      OthersThan(t, q);
      WithoutOk(t.local, b, t.buckets[b], i);
  }

  /** The members with another id than `q` are the members other than `q`. */
  lemma OthersThan(t: Table, q: Peer)
    requires Valid(t) && Get(t, q.id) == Some(q)
    ensures Members(t) - {q} == set p | p in Members(t) && p.id != q.id
  {
    hide Get, Members, Valid;
    forall p | p in Members(t) && p.id == q.id ensures p == q {
      GetIff(t, p);
    }
  }

  /** A mark replaces the entry of that id by one with the given state and, if one is given, the given score, and
      changes no other member; an absent id changes nothing. */
  lemma MarkMembers(t: Table, id: PeerId, state: PeerState, score: Option<real>)
    requires Valid(t)
    ensures MarkStep(t, id, state, score).total == t.total
    ensures match Get(t, id)
            case None => MarkStep(t, id, state, score) == t
            case Some(p) =>
              Members(MarkStep(t, id, state, score))
              == Members(t) - {p}
                 + {Peer(id, p.addr, state, if score.Some? then score.value else p.score)}
  {
    hide SumLen, BucketIndex, Find, Members;
    match Get(t, id)
    case None =>
    case Some(p) =>
      var b := BucketIndex(t.local, id).value;
      var peers, i := t.buckets[b], Find(t.buckets[b], id).value;
      var q := Peer(id, p.addr, state, if score.Some? then score.value else p.score);
      assert BucketOk(t.local, b, peers);
      PutMembers(t, b, peers[i := q], t.total);
      ReplaceElements(peers, i, q);
      BucketMembers(t, b);
  }

  lemma ReplaceElements(peers: seq<Peer>, i: nat, q: Peer)
    requires i < |peers| && UniqueIds(peers)
    ensures Elements(peers[i := q]) == Elements(peers) - {peers[i]} + {q}
  {
    forall p ensures p in Elements(peers[i := q]) <==> p in Elements(peers) - {peers[i]} + {q} {
      if p in peers && p != peers[i] {
        var j :| 0 <= j < |peers| && peers[j] == p;
        assert peers[i := q][j] == p;
      }
      if p == q {
        assert peers[i := q][i] == q;
      }
    }
  }

  // ---------- find_closest ----------

  function UsableMembers(t: Table): (r: set<Peer>)
  {
    set p | p in Members(t) && Usable(p)
  }

  predicate PrefixOk(local: PeerId, buckets: seq<seq<Peer>>)
  {
    forall b :: 0 <= b < |buckets| ==> BucketOk(local, b, buckets[b])
  }

  predicate Somewhere(buckets: seq<seq<Peer>>, p: Peer)
  {
    exists b :: 0 <= b < |buckets| && p in buckets[b]
  }

  lemma SomewhereSnoc(buckets: seq<seq<Peer>>, p: Peer)
    requires buckets != []
    ensures var n := |buckets| - 1; Somewhere(buckets, p) <==> Somewhere(buckets[..n], p) || p in buckets[n]
  {
    var n := |buckets| - 1;
    assert forall b :: 0 <= b < n ==> buckets[..n][b] == buckets[b];
  }

  lemma {:induction false} CollectIs(buckets: seq<seq<Peer>>, p: Peer)
    ensures p in Collect(buckets) <==> Usable(p) && Somewhere(buckets, p)
  {
    hide Retain, Somewhere;
    if buckets == [] {
      assert !Somewhere(buckets, p) by {
        NowhereInNone(p);
      }
    } else {
      CollectIs(buckets[..|buckets| - 1], p);
      RetainIs(buckets[|buckets| - 1], Usable);
      SomewhereSnoc(buckets, p);
    }
  }

  lemma NowhereInNone(p: Peer)
    ensures !Somewhere([], p)
  {
  }

  lemma {:induction false} CollectUnique(local: PeerId, buckets: seq<seq<Peer>>)
    requires PrefixOk(local, buckets)
    ensures UniqueIds(Collect(buckets))
  {
    hide BucketIndex, Retain;
    if buckets != [] {
      var n := |buckets| - 1;
      var rest, last := Collect(buckets[..n]), Retain(buckets[n], Usable);
      CollectUnique(local, buckets[..n]);
      assert BucketOk(local, n, buckets[n]);
      RetainUnique(buckets[n], Usable);
      RetainIs(buckets[n], Usable);
      forall i, j | 0 <= i < |rest| && 0 <= j < |last| ensures rest[i].id != last[j].id {
        CollectIs(buckets[..n], rest[i]);
        var b :| 0 <= b < n && rest[i] in buckets[..n][b];
        assert BucketOk(local, b, buckets[b]);
        assert last[j] in buckets[n];
      }
      UniqueConcat(rest, last);
    }
  }

  lemma UniqueConcat(a: seq<Peer>, b: seq<Peer>)
    requires UniqueIds(a) && UniqueIds(b)
    requires forall i, j :: 0 <= i < |a| && 0 <= j < |b| ==> a[i].id != b[j].id
    ensures UniqueIds(a + b)
  {
  }

  /** `find_closest` returns the `count` usable peers nearest to the target, nearest first. */
  lemma ClosestIsNearest(t: Table, target: PeerId, count: nat)
    requires Valid(t)
    ensures IsNearest(Closest(t, target, count), UsableMembers(t), count, PeerKey(target))
  {
    hide SumLen, BucketIndex, Distance, Collect, SortBy, IsNearest;
    var all := Collect(t.buckets);
    CollectUnique(t.local, t.buckets);
    forall p ensures p in Elements(all) <==> p in UsableMembers(t) {
      CollectIs(t.buckets, p);
    }
    assert Elements(all) == UsableMembers(t);
    forall p, q | p in Elements(all) && q in Elements(all) && PeerKey(target)(p) == PeerKey(target)(q)
      ensures p == q
    {
      DistanceInjective(p.id, q.id, target);
      var i :| 0 <= i < |all| && all[i] == p;
      var j :| 0 <= j < |all| && all[j] == q;
    }
    SortedPrefixIsNearest(all, count, PeerKey(target));
  }

  // ---------- The table in place ----------

  class RoutingTable {
    const local: PeerId
    var buckets: seq<seq<Peer>>
    var total: nat

    function State(): (r: Table)
      reads this
    {
      Table(local, buckets, total)
    }

    constructor (local: PeerId)
      ensures State() == Empty(local) && Valid(State())
    {
      this.local := local;
      this.buckets := seq(NUM_BUCKETS, _ => []);
      total := 0;
      new;
      RunValid(local, []);
    }

    method Insert(id: PeerId, addr: Addr) returns (r: Result<bool, DhtError>)
      requires Valid(State())
      modifies this
      ensures r == InsertAnswer(old(State()), id, addr)
      ensures State() == InsertStep(old(State()), id, addr) && Valid(State())
    {
      hide Valid, InsertInto, BucketIndex, SumLen;
      assert |buckets| == NUM_BUCKETS by {
        SizeOf(State());
      }
      InsertValid(State(), id, addr);
      if id == local {
        return Success(false);
      }
      var bucket := BucketIndex(local, id);
      var after, outcome := InsertOrUpdate(buckets[bucket.value], Fresh(id, addr));
      buckets := buckets[bucket.value := after];
      match outcome {
        case NewPeer =>
          total := total + 1;
          r := Success(true);
        case Evicted => r := Success(true);
        case Updated => r := Success(false);
        case Full => r := Failure(BucketFull(bucket.value));
      }
    }

    method Remove(id: PeerId) returns (removed: Option<Peer>)
      requires Valid(State())
      modifies this
      ensures removed == Get(old(State()), id)
      ensures State() == RemoveStep(old(State()), id) && Valid(State())
      ensures Get(State(), id).None? && total == old(total) - if removed.Some? then 1 else 0
    {
      hide Valid, Find, BucketIndex, SumLen;
      assert |buckets| == NUM_BUCKETS by {
        SizeOf(State());
      }
      RemoveValid(State(), id);
      RemoveMembers(State(), id);
      var bucket := BucketIndex(local, id);
      if bucket.None? {
        return None;
      }
      var found := Find(buckets[bucket.value], id);
      if found.None? {
        return None;
      }
      removed := Some(buckets[bucket.value][found.value]);
      TotalCovers(State(), bucket.value);
      buckets := buckets[bucket.value := Without(buckets[bucket.value], found.value)];
      total := total - 1;
    }

    /** `mark_active`, `mark_suspect` and `mark_dead`, which write the state and perhaps the score of one entry. */
    method Mark(id: PeerId, state: PeerState, score: Option<real>)
      requires Valid(State())
      modifies this
      ensures State() == MarkStep(old(State()), id, state, score) && Valid(State())
    {
      hide Valid, Find, BucketIndex, SumLen;
      assert |buckets| == NUM_BUCKETS by {
        SizeOf(State());
      }
      MarkValid(State(), id, state, score);
      var bucket := BucketIndex(local, id);
      if bucket.Some? {
        var peers := buckets[bucket.value];
        var found := Find(peers, id);
        if found.Some? {
          var p := peers[found.value].(state := state);
          if score.Some? {
            p := p.(score := score.value);
          }
          buckets := buckets[bucket.value := peers[found.value := p]];
        }
      }
    }

    method EvictDead() returns (evicted: nat)
      requires Valid(State())
      modifies this
      ensures evicted == old(total) - total
      ensures State() == EvictStep(old(State())) && Valid(State())
    {
      hide Retain, BucketIndex, SumLen, BucketsOk;
      EvictDeadValid(State());
      evicted := 0;
      for b := 0 to |buckets|
        invariant |buckets| == |old(buckets)|
        invariant forall c :: 0 <= c < b ==> buckets[c] == Retain(old(buckets)[c], NotDead)
        invariant forall c :: b <= c < |buckets| ==> buckets[c] == old(buckets)[c]
        invariant total == SumLen(buckets) && evicted == SumLen(old(buckets)) - total
      {
        var kept := Retain(buckets[b], NotDead);
        var removed := |buckets[b]| - |kept|;
        SumPut(buckets, b, kept);
        SumAtLeast(buckets, b);
        buckets := buckets[b := kept];
        evicted := evicted + removed;
        total := total - removed;
      }
      assert buckets == AliveBuckets(old(buckets));
    }

    method FindClosest(target: PeerId, count: nat) returns (closest: seq<Peer>)
      requires Valid(State())
      ensures closest == Closest(State(), target, count)
      ensures IsNearest(closest, UsableMembers(State()), count, PeerKey(target))
    {
      hide BucketIndex, SumLen, IsNearest, SortBy, Valid, Distance;
      ClosestIsNearest(State(), target, count);
      var all := [];
      for b := 0 to |buckets|
        invariant all == Collect(buckets[..b])
      {
        for i := 0 to |buckets[b]|
          invariant all == Collect(buckets[..b]) + Retain(buckets[b][..i], Usable)
        {
          assert buckets[b][..i + 1][..i] == buckets[b][..i];
          if Usable(buckets[b][i]) {
            all := all + [buckets[b][i]];
          }
        }
        assert buckets[b][..|buckets[b]|] == buckets[b];
        assert buckets[..b + 1][..b] == buckets[..b];
      }
      assert buckets[..|buckets|] == buckets;
      all := SortBy(all, PeerKey(target));
      closest := Take(all, count);
    }
  }

  lemma SizeOf(t: Table)
    requires Valid(t)
    ensures |t.buckets| == NUM_BUCKETS
  {
  }

  lemma TotalCovers(t: Table, b: nat)
    requires Valid(t) && b < NUM_BUCKETS
    ensures t.total >= |t.buckets[b]|
  {
    SumAtLeast(t.buckets, b);
  }
}
