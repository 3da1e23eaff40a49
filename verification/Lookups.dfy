/** The iterative node lookup of `crates/ceky-dht/src/operations.rs`. */
module Lookups {
  import opened Wire
  import opened PeerIds
  import opened Nearest
  import Routing

  const ALPHA: nat := 3
  const LIMIT: nat := Routing.K * 3

  type Addr = Routing.Addr

  datatype Entry = Entry(id: PeerId, addr: Addr, distance: PeerId)

  datatype Lookup = Lookup(target: PeerId, known: seq<Entry>, queried: set<PeerId>, round: nat, converged: bool)

  datatype FindNodeResult = FindNodeResult(closest: seq<Entry>, hops: nat, queriedCount: nat)

  /** The order `sort_by` uses on entries; comparing the bytes is comparing these numbers. */
  function EntryKey(e: Entry): (n: nat)
  {
    FromBE(e.distance)
  }

  function IdKey(target: PeerId): (key: PeerId -> nat)
  {
    id => Distance(id, target)
  }

  function Ids(s: seq<Entry>): (r: seq<PeerId>)
    ensures |r| == |s|
  {
    seq(|s|, i requires 0 <= i < |s| => s[i].id)
  }

  // ---------- Specification of the steps ----------

  function AddPeer(l: Lookup, peer: Entry): (r: Lookup)
  {
    if peer.id in Ids(l.known) then l
    else
      var entry := Entry(peer.id, peer.addr, XorDistance(peer.id, l.target));
      l.(known := Take(SortBy(l.known + [entry], EntryKey), LIMIT))
  }

  function AddAll(l: Lookup, peers: seq<Entry>): (r: Lookup)
  {
    if peers == [] then l else AddPeer(AddAll(l, peers[..|peers| - 1]), peers[|peers| - 1])
  }

  function Unqueried(known: seq<Entry>, queried: set<PeerId>): (r: seq<Entry>)
  {
    if known == [] then []
    else
      var e := known[|known| - 1];
      Unqueried(known[..|known| - 1], queried) + (if e.id in queried then [] else [e])
  }

  function Batch(l: Lookup): (b: seq<Entry>)
    ensures |b| <= ALPHA
  {
    Take(Unqueried(l.known, l.queried), ALPHA)
  }

  function Query(l: Lookup): (r: Lookup)
  {
    l.(queried := l.queried + Elements(Ids(Batch(l))), round := l.round + 1,
       converged := l.converged || Batch(l) == [])
  }

  function Start(target: PeerId, seeds: seq<Entry>): (r: Lookup)
  {
    AddAll(Lookup(target, [], {}, 0, false), seeds)
  }

  /** `IterativeLookup`: every method computes the step above. */
  class IterativeLookup {
    const target: PeerId
    var known: seq<Entry>
    var queried: set<PeerId>
    var round: nat
    var converged: bool

    function State(): (r: Lookup)
      reads this
    {
      Lookup(target, known, queried, round, converged)
    }

    constructor (target: PeerId, seeds: seq<Entry>)
      ensures State() == Start(target, seeds)
    {
      this.target := target;
      known, queried, round, converged := [], {}, 0, false;
      new;
      ProcessResponses(seeds);
    }

    method Add(peer: Entry)
      modifies this
      ensures State() == AddPeer(old(State()), peer)
    {
      hide SortBy;
      if peer.id in Ids(known) {
        return;
      }
      var entry := Entry(peer.id, peer.addr, XorDistance(peer.id, target));
      known := known + [entry];
      known := SortBy(known, EntryKey);
      known := Take(known, LIMIT);
    }

    method ProcessResponses(peers: seq<Entry>)
      modifies this
      ensures State() == AddAll(old(State()), peers)
    {
      hide AddPeer;
      for i := 0 to |peers|
        invariant State() == AddAll(old(State()), peers[..i])
      {
        assert peers[..i + 1][..i] == peers[..i];
        Add(peers[i]);
      }
      assert peers[..|peers|] == peers;
    }

    method NextToQuery() returns (batch: seq<Entry>)
      modifies this
      ensures batch == Batch(old(State()))
      ensures State() == Query(old(State()))
    {
      hide Unqueried;
      batch := Take(Unqueried(known, queried), ALPHA);
      if batch == [] {
        converged := true;
      }
      for i := 0 to |batch|
        invariant known == old(known) && round == old(round) && converged == (old(converged) || batch == [])
        invariant queried == old(queried) + Elements(Ids(batch)[..i])
      {
        assert Ids(batch)[..i + 1] == Ids(batch)[..i] + [batch[i].id];
        queried := queried + {batch[i].id};
      }
      assert Ids(batch)[..|batch|] == Ids(batch);
      round := round + 1;
    }

    /** The first 20 known entries are the 20 nearest of the ids offered so far. */
    method Result(ghost offered: set<PeerId>) returns (r: FindNodeResult)
      requires Holds(State(), offered)
      ensures r.closest <= known && IsNearest(Ids(r.closest), offered, Routing.K, IdKey(target))
      ensures r.hops == round && r.queriedCount == |queried|
    {
      hide IsNearest, Distance;
      IdsTake(known, Routing.K);
      NearestTake(Ids(known), offered, LIMIT, Routing.K, IdKey(target));
      return FindNodeResult(Take(known, Routing.K), round, |queried|);
    }
  }

  // ---------- Runs ----------

  datatype Op = Responses(peers: seq<Entry>) | NextQuery

  function Apply(l: Lookup, op: Op): (r: Lookup)
  {
    match op
    case Responses(peers) => AddAll(l, peers)
    case NextQuery => Query(l)
  }

  function Run(target: PeerId, seeds: seq<Entry>, ops: seq<Op>): (r: Lookup)
  {
    if ops == [] then Start(target, seeds) else Apply(Run(target, seeds, ops[..|ops| - 1]), ops[|ops| - 1])
  }

  /** All ids ever offered in a run. */
  function Offered(seeds: seq<Entry>, ops: seq<Op>): (r: set<PeerId>)
  {
    if ops == [] then Elements(Ids(seeds))
    else
      var before := Offered(seeds, ops[..|ops| - 1]);
      match ops[|ops| - 1]
      case Responses(peers) => before + Elements(Ids(peers))
      case NextQuery => before
  }

  /** The batches handed out in a run, in order. */
  function Batches(target: PeerId, seeds: seq<Entry>, ops: seq<Op>): (r: seq<seq<PeerId>>)
  {
    if ops == [] then []
    else
      var before := Batches(target, seeds, ops[..|ops| - 1]);
      if ops[|ops| - 1].NextQuery? then before + [Ids(Batch(Run(target, seeds, ops[..|ops| - 1])))] else before
  }

  // ---------- The truncated list is a batch top-k ----------

  /** The known list holds the 60 nearest of the ids offered, with their distances. */
  ghost predicate Holds(l: Lookup, offered: set<PeerId>)
  {
    && Measured(l.known, l.target)
    && IsNearest(Ids(l.known), offered, LIMIT, IdKey(l.target))
    && l.queried <= offered
  }

  predicate Measured(s: seq<Entry>, target: PeerId)
  {
    forall i :: 0 <= i < |s| ==> s[i].distance == XorDistance(s[i].id, target)
  }

  lemma DistancesInjective(all: set<PeerId>, target: PeerId)
    ensures Injective(all, IdKey(target))
  {
    hide Distance;
    forall x, y | x in all && y in all && IdKey(target)(x) == IdKey(target)(y) ensures x == y {
      DistanceInjective(x, y, target);
    }
  }

  lemma {:induction false} IdsInsert(s: seq<Entry>, x: Entry, target: PeerId)
    requires Measured(s, target) && x.distance == XorDistance(x.id, target)
    ensures Ids(Insert(s, x, EntryKey)) == Insert(Ids(s), x.id, IdKey(target))
    ensures Measured(Insert(s, x, EntryKey), target)
  {
    hide FromBE, XorDistance;
    if s != [] {
      var n := |s| - 1;
      IdsInsert(s[..n], x, target);
      assert Ids(s)[..n] == Ids(s[..n]);
      assert EntryKey(s[n]) == IdKey(target)(s[n].id) && EntryKey(x) == IdKey(target)(x.id);
    }
  }

  lemma IdsTake(s: seq<Entry>, n: nat)
    ensures Ids(Take(s, n)) == Take(Ids(s), n)
  {
  }

  lemma TakeSubset<T>(s: seq<T>, n: nat)
    ensures Elements(Take(s, n)) <= Elements(s)
  {
  }

  lemma AscendingEntries(s: seq<Entry>, target: PeerId)
    requires Measured(s, target) && StrictlyAscending(Ids(s), IdKey(target))
    ensures Ascending(s, EntryKey)
  {
    hide FromBE, XorDistance;
    forall i, j | 0 <= i < j < |s| ensures EntryKey(s[i]) <= EntryKey(s[j]) {
      assert IdKey(target)(Ids(s)[i]) < IdKey(target)(Ids(s)[j]);
    }
  }

  lemma AddPeerHolds(l: Lookup, peer: Entry, offered: set<PeerId>)
    requires Holds(l, offered)
    ensures Holds(AddPeer(l, peer), offered + {peer.id}) && AddPeer(l, peer).target == l.target
  {
    hide FromBE, XorDistance, Insert, SortBy, Injective, Distance;
    if peer.id in Ids(l.known) {
      assert peer.id in Elements(Ids(l.known));
      assert offered + {peer.id} == offered;
    } else {
      var entry := Entry(peer.id, peer.addr, XorDistance(peer.id, l.target));
      AscendingEntries(l.known, l.target);
      SortPushed(l.known, entry, EntryKey);
      IdsInsert(l.known, entry, l.target);
      IdsTake(Insert(l.known, entry, EntryKey), LIMIT);
      DistancesInjective(offered + {peer.id}, l.target);
      NearestInsert(Ids(l.known), offered, LIMIT, peer.id, IdKey(l.target));
    }
  }

  lemma {:induction false} AddAllHolds(l: Lookup, peers: seq<Entry>, offered: set<PeerId>)
    requires Holds(l, offered)
    ensures Holds(AddAll(l, peers), offered + Elements(Ids(peers))) && AddAll(l, peers).target == l.target
  {
    hide Holds, AddPeer;
    if peers == [] {
      assert offered + Elements(Ids(peers)) == offered;
    } else {
      var n := |peers| - 1;
      AddAllHolds(l, peers[..n], offered);
      AddPeerHolds(AddAll(l, peers[..n]), peers[n], offered + Elements(Ids(peers[..n])));
      assert Ids(peers) == Ids(peers[..n]) + [peers[n].id];
      assert offered + Elements(Ids(peers)) == offered + Elements(Ids(peers[..n])) + {peers[n].id};
    }
  }

  lemma {:induction false} RunHolds(target: PeerId, seeds: seq<Entry>, ops: seq<Op>)
    ensures Holds(Run(target, seeds, ops), Offered(seeds, ops)) && Run(target, seeds, ops).target == target
  {
    hide Holds, Query, AddAll;
    if ops == [] {
      StartHolds(target);
      AddAllHolds(Lookup(target, [], {}, 0, false), seeds, {});
      assert {} + Elements(Ids(seeds)) == Elements(Ids(seeds));
    } else {
      var n := |ops| - 1;
      RunHolds(target, seeds, ops[..n]);
      match ops[n]
      case Responses(peers) => AddAllHolds(Run(target, seeds, ops[..n]), peers, Offered(seeds, ops[..n]));
      case NextQuery => QueryHolds(Run(target, seeds, ops[..n]), Offered(seeds, ops[..n]));
    }
  }

  lemma StartHolds(target: PeerId)
    ensures Holds(Lookup(target, [], {}, 0, false), {})
  {
  }

  /** After any run, `known_peers` is the 60 nearest distinct ids ever offered, nearest first. */
  lemma KnownIsNearest(target: PeerId, seeds: seq<Entry>, ops: seq<Op>)
    ensures IsNearest(Ids(Run(target, seeds, ops).known), Offered(seeds, ops), LIMIT, IdKey(target))
  {
    RunHolds(target, seeds, ops);
  }

  /** Only the set of ids offered matters: not their order, repetition, batching or the queries in between. */
  lemma OrderDoesNotMatter(target: PeerId, seeds1: seq<Entry>, ops1: seq<Op>, seeds2: seq<Entry>, ops2: seq<Op>)
    requires Offered(seeds1, ops1) == Offered(seeds2, ops2)
    ensures Ids(Run(target, seeds1, ops1).known) == Ids(Run(target, seeds2, ops2).known)
  {
    hide Run, IsNearest, Offered, Injective;
    KnownIsNearest(target, seeds1, ops1);
    KnownIsNearest(target, seeds2, ops2);
    DistancesInjective(Offered(seeds1, ops1), target);
    NearestUnique(Ids(Run(target, seeds1, ops1).known), Ids(Run(target, seeds2, ops2).known),
                  Offered(seeds1, ops1), LIMIT, IdKey(target));
  }

  /** The answer of `result`: the 20 nearest ids ever offered. */
  lemma ResultIsNearest(target: PeerId, seeds: seq<Entry>, ops: seq<Op>)
    ensures IsNearest(Ids(Take(Run(target, seeds, ops).known, Routing.K)), Offered(seeds, ops), Routing.K,
                      IdKey(target))
  {
    hide Run, IsNearest, Offered;
    KnownIsNearest(target, seeds, ops);
    IdsTake(Run(target, seeds, ops).known, Routing.K);
    NearestTake(Ids(Run(target, seeds, ops).known), Offered(seeds, ops), LIMIT, Routing.K, IdKey(target));
  }

  /** Every known entry carries an address it was offered with. */
  lemma {:induction false} AddressesWereOffered(target: PeerId, seeds: seq<Entry>, ops: seq<Op>)
    ensures forall e :: e in Run(target, seeds, ops).known ==> (e.id, e.addr) in OfferedAt(seeds, ops)
  {
    hide Query, AddAll, Batch;
    if ops == [] {
      AddAllAddresses(Lookup(target, [], {}, 0, false), seeds, {});
    } else {
      var n := |ops| - 1;
      var l := Run(target, seeds, ops[..n]);
      AddressesWereOffered(target, seeds, ops[..n]);
      match ops[n]
      case Responses(peers) => AddAllAddresses(l, peers, OfferedAt(seeds, ops[..n]));
      case NextQuery => QueryKeepsKnown(l);
    }
  }

  lemma QueryKeepsKnown(l: Lookup)
    ensures Query(l).known == l.known
  {
  }

  function Contacts(s: seq<Entry>): (r: set<(PeerId, Addr)>)
  {
    set e | e in s :: (e.id, e.addr)
  }

  function OfferedAt(seeds: seq<Entry>, ops: seq<Op>): (r: set<(PeerId, Addr)>)
  {
    if ops == [] then Contacts(seeds)
    else
      var before := OfferedAt(seeds, ops[..|ops| - 1]);
      match ops[|ops| - 1]
      case Responses(peers) => before + Contacts(peers)
      case NextQuery => before
  }

  lemma {:induction false} AddAllAddresses(l: Lookup, peers: seq<Entry>, all: set<(PeerId, Addr)>)
    requires forall e :: e in l.known ==> (e.id, e.addr) in all
    ensures forall e :: e in AddAll(l, peers).known ==> (e.id, e.addr) in all + Contacts(peers)
  {
    hide SortBy;
    if peers != [] {
      var n := |peers| - 1;
      var m := AddAll(l, peers[..n]);
      AddAllAddresses(l, peers[..n], all);
      assert Contacts(peers[..n]) <= Contacts(peers) && (peers[n].id, peers[n].addr) in Contacts(peers);
      var entry := Entry(peers[n].id, peers[n].addr, XorDistance(peers[n].id, m.target));
      SortBySorts(m.known + [entry], EntryKey);
      SameElements(SortBy(m.known + [entry], EntryKey), m.known + [entry]);
      forall e | e in AddAll(l, peers).known ensures (e.id, e.addr) in all + Contacts(peers) {
        assert e in m.known || e in Elements(SortBy(m.known + [entry], EntryKey));
        assert e in m.known || e == entry;
      }
    }
  }

  // ---------- Queries ----------

  lemma {:induction false} UnqueriedElements(known: seq<Entry>, queried: set<PeerId>)
    ensures Elements(Ids(Unqueried(known, queried))) == Elements(Ids(known)) - queried
  {
    if known != [] {
      var n := |known| - 1;
      var rest := Unqueried(known[..n], queried);
      UnqueriedElements(known[..n], queried);
      ElementsSnoc(known[..n], known[n]);
      assert known == known[..n] + [known[n]];
      if known[n].id !in queried {
        ElementsSnoc(rest, known[n]);
      } else {
        assert rest + [] == rest;
      }
    }
  }

  lemma ElementsSnoc(s: seq<Entry>, e: Entry)
    ensures Ids(s + [e]) == Ids(s) + [e.id] && Elements(Ids(s + [e])) == Elements(Ids(s)) + {e.id}
  {
    assert Ids(s + [e]) == Ids(s) + [e.id];
  }

  lemma {:induction false} UnqueriedAscends(known: seq<Entry>, queried: set<PeerId>, target: PeerId)
    requires StrictlyAscending(Ids(known), IdKey(target))
    ensures StrictlyAscending(Ids(Unqueried(known, queried)), IdKey(target))
  {
    hide Distance, Elements;
    if known != [] {
      var n := |known| - 1;
      var rest := Unqueried(known[..n], queried);
      assert Ids(known)[..n] == Ids(known[..n]);
      UnqueriedAscends(known[..n], queried, target);
      if known[n].id !in queried {
        ElementsSnoc(rest, known[n]);
        UnqueriedElements(known[..n], queried);
        SnocAscends(Ids(known), Ids(rest), target);
      } else {
        assert rest + [] == rest;
      }
    }
  }

  lemma SnocAscends(all: seq<PeerId>, rest: seq<PeerId>, target: PeerId)
    requires StrictlyAscending(all, IdKey(target)) && all != []
    requires StrictlyAscending(rest, IdKey(target)) && Elements(rest) <= Elements(all[..|all| - 1])
    ensures StrictlyAscending(rest + [all[|all| - 1]], IdKey(target))
  {
    hide Distance;
    forall i | 0 <= i < |rest| ensures IdKey(target)(rest[i]) < IdKey(target)(all[|all| - 1]) {
      assert rest[i] in Elements(all[..|all| - 1]);
    }
  }

  /** A batch is the three nearest known ids that were never queried before. */
  lemma BatchIsNearestUnqueried(l: Lookup, offered: set<PeerId>)
    requires Holds(l, offered)
    ensures IsNearest(Ids(Batch(l)), Elements(Ids(l.known)) - l.queried, ALPHA, IdKey(l.target))
  {
    hide Unqueried, Distance;
    UnqueriedElements(l.known, l.queried);
    UnqueriedAscends(l.known, l.queried, l.target);
    IdsTake(Unqueried(l.known, l.queried), ALPHA);
    PrefixIsNearest(Ids(Unqueried(l.known, l.queried)), ALPHA, IdKey(l.target));
  }

  lemma QueryHolds(l: Lookup, offered: set<PeerId>)
    requires Holds(l, offered)
    ensures Holds(Query(l), offered) && Query(l).target == l.target
  {
    hide Batch, Distance;
    BatchIsNearestUnqueried(l, offered);
  }

  function TotalSize(batches: seq<seq<PeerId>>): (n: nat)
  {
    if batches == [] then 0 else TotalSize(batches[..|batches| - 1]) + |batches[|batches| - 1]|
  }

  function NonEmpty(batches: seq<seq<PeerId>>): (n: nat)
  {
    if batches == [] then 0
    else NonEmpty(batches[..|batches| - 1]) + (if batches[|batches| - 1] == [] then 0 else 1)
  }

  predicate Disjoint(batches: seq<seq<PeerId>>)
  {
    forall i, j :: 0 <= i < j < |batches| ==> Elements(batches[i]) !! Elements(batches[j])
  }

  /** What the handed-out batches and the queried set have in common. */
  ghost predicate Counted(l: Lookup, batches: seq<seq<PeerId>>)
  {
    && Disjoint(batches)
    && (forall i :: 0 <= i < |batches| ==> Elements(batches[i]) <= l.queried)
    && |l.queried| == TotalSize(batches)
    && |batches| == l.round
    && (l.converged <==> [] in batches)
  }

  lemma QueryCounts(l: Lookup, offered: set<PeerId>, batches: seq<seq<PeerId>>)
    requires Holds(l, offered) && Counted(l, batches)
    ensures Counted(Query(l), batches + [Ids(Batch(l))])
  {
    hide Batch, Distance, Holds, Elements, Ids, Disjoint;
    var b := Ids(Batch(l));
    BatchIsFresh(l, offered);
    assert (batches + [b])[..|batches|] == batches;
    AppendDisjoint(batches, b, l.queried);
  }

  lemma BatchIsFresh(l: Lookup, offered: set<PeerId>)
    requires Holds(l, offered)
    ensures var b := Ids(Batch(l)); l.queried !! Elements(b) && |l.queried + Elements(b)| == |l.queried| + |b|
  {
    hide Batch, Distance, Holds;
    var b := Ids(Batch(l));
    BatchIsNearestUnqueried(l, offered);
    StrictIsDistinct(b, IdKey(l.target));
  }

  lemma AppendDisjoint(batches: seq<seq<PeerId>>, b: seq<PeerId>, queried: set<PeerId>)
    requires Disjoint(batches) && queried !! Elements(b)
    requires forall i :: 0 <= i < |batches| ==> Elements(batches[i]) <= queried
    ensures Disjoint(batches + [b])
    ensures forall i :: 0 <= i < |batches + [b]| ==> Elements((batches + [b])[i]) <= queried + Elements(b)
  {
    hide Elements;
  }

  lemma {:induction false} AddAllKeeps(l: Lookup, peers: seq<Entry>)
    ensures var m := AddAll(l, peers);
            m.queried == l.queried && m.round == l.round && m.converged == l.converged && m.target == l.target
  {
    hide SortBy;
    if peers != [] {
      AddAllKeeps(l, peers[..|peers| - 1]);
    }
  }

  lemma {:induction false} RunCounts(target: PeerId, seeds: seq<Entry>, ops: seq<Op>)
    ensures Counted(Run(target, seeds, ops), Batches(target, seeds, ops))
  {
    hide Query, AddAll, Holds;
    if ops == [] {
      AddAllKeeps(Lookup(target, [], {}, 0, false), seeds);
    } else {
      var n := |ops| - 1;
      var l := Run(target, seeds, ops[..n]);
      RunCounts(target, seeds, ops[..n]);
      match ops[n]
      case Responses(peers) => AddAllKeeps(l, peers);
      case NextQuery =>
        RunHolds(target, seeds, ops[..n]);
        QueryCounts(l, Offered(seeds, ops[..n]), Batches(target, seeds, ops[..n]));
    }
  }

  /** No peer is ever queried twice, and `queried_count` and `hops` are exact. */
  lemma BatchesDisjoint(target: PeerId, seeds: seq<Entry>, ops: seq<Op>)
    ensures Disjoint(Batches(target, seeds, ops))
    ensures |Run(target, seeds, ops).queried| == TotalSize(Batches(target, seeds, ops))
    ensures Run(target, seeds, ops).round == |Batches(target, seeds, ops)|
  {
    RunCounts(target, seeds, ops);
  }

  lemma {:induction false} NonEmptyAtMostSize(batches: seq<seq<PeerId>>)
    ensures NonEmpty(batches) <= TotalSize(batches)
  {
    if batches != [] {
      NonEmptyAtMostSize(batches[..|batches| - 1]);
    }
  }

  /** The positions of the batches that are not empty. */
  function Busy(batches: seq<seq<PeerId>>): (r: set<nat>)
  {
    set i: nat | i < |batches| && batches[i] != []
  }

  lemma {:induction false} NonEmptyIsCount(batches: seq<seq<PeerId>>)
    ensures NonEmpty(batches) == |Busy(batches)|
  {
    if batches != [] {
      var n := |batches| - 1;
      NonEmptyIsCount(batches[..n]);
      assert Busy(batches) == Busy(batches[..n]) + if batches[n] == [] then {} else {n};
    }
  }

  /** The lookup ends: at most one non-empty round per distinct id ever offered. */
  lemma RoundsBounded(target: PeerId, seeds: seq<Entry>, ops: seq<Op>)
    ensures |Busy(Batches(target, seeds, ops))| <= |Offered(seeds, ops)|
  {
    hide Run, Batches, Offered, Busy;
    NonEmptyIsCount(Batches(target, seeds, ops));
    RunCounts(target, seeds, ops);
    RunHolds(target, seeds, ops);
    NonEmptyAtMostSize(Batches(target, seeds, ops));
    SubsetCount(Run(target, seeds, ops).queried, Offered(seeds, ops));
  }

  /** A batch is empty exactly when every known peer has been queried. */
  lemma EmptyBatchIff(target: PeerId, seeds: seq<Entry>, ops: seq<Op>)
    ensures var l := Run(target, seeds, ops);
            Batch(l) == [] <==> Elements(Ids(l.known)) <= l.queried
  {
    hide Batch, Run, Holds, Elements, Ids;
    var l := Run(target, seeds, ops);
    RunHolds(target, seeds, ops);
    BatchIsNearestUnqueried(l, Offered(seeds, ops));
    EmptyDifference(Elements(Ids(l.known)), l.queried);
  }

  lemma EmptyDifference<T>(a: set<T>, b: set<T>)
    ensures |a - b| == 0 <==> a <= b
  {
    if |a - b| == 0 {
      assert a - b == {};
      forall x | x in a ensures x in b {
        assert x !in a - b;
      }
    }
  }

  /** So when it comes back empty, the 20 nearest ids ever offered have all been queried. */
  lemma EmptyBatchMeansDone(target: PeerId, seeds: seq<Entry>, ops: seq<Op>)
    requires Batch(Run(target, seeds, ops)) == []
    ensures var l := Run(target, seeds, ops);
            forall r :: IsNearest(r, Offered(seeds, ops), Routing.K, IdKey(target)) ==> Elements(r) <= l.queried
  {
    hide Batch, Distance, Run, Offered, Injective, IsNearest;
    var l := Run(target, seeds, ops);
    EmptyBatchIff(target, seeds, ops);
    ResultIsNearest(target, seeds, ops);
    DistancesInjective(Offered(seeds, ops), target);
    forall r | IsNearest(r, Offered(seeds, ops), Routing.K, IdKey(target)) ensures Elements(r) <= l.queried {
      NearestUnique(r, Ids(Take(l.known, Routing.K)), Offered(seeds, ops), Routing.K, IdKey(target));
      IdsTake(l.known, Routing.K);
      TakeSubset(Ids(l.known), Routing.K);
    }
  }
}
