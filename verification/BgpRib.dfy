/** The BGP routing information bases (`rib.rs`): the Adj-RIB-In, the cached Loc-RIB with
    its equal-cost hops, and the change events. */
module BgpRibModel {
  import opened Wrappers
  import opened Net
  import opened Orders
  import opened Decision
  import opened Selection
  import opened Incremental

  /** A path is offered by a peer under a received ADD-PATH identifier. */
  datatype PeerKey = PeerKey(peer: IpAddr, pathId: u32)

  type Peers = map<PeerKey, Path>
  type Entries = map<Prefix, Peers>

  function PeerKeyRank(k: PeerKey): seq<int> {
    AddrRank(k.peer) + [k.pathId]
  }

  lemma PeerKeyRankInjective()
    ensures Injective(PeerKeyRank)
  {
    AddrRankInjective();
    forall a, b | PeerKeyRank(a) == PeerKeyRank(b) ensures a == b {
      var x, y := PeerKeyRank(a), PeerKeyRank(b);
      assert AddrRank(a.peer) == x[..|x| - 1] && AddrRank(b.peer) == y[..|y| - 1];
      assert a.pathId == x[|x| - 1] && b.pathId == y[|y| - 1];
    }
  }

  // ---- The Loc-RIB as a function of the Adj-RIB-In ---------------------------------------

  /** The candidates for one prefix in `(peer, path_id)` order. */
  function Candidates(peers: Peers): (ps: seq<Path>)
    ensures |ps| > 0 <==> peers != map[]
    ensures forall p :: p in ps <==> exists k :: k in peers && peers[k] == p
  {
    PeerKeyRankInjective();
    var keys := Ascending(peers.Keys, PeerKeyRank);
    assert peers != map[] ==> exists k :: k in peers.Keys;
    var ps := seq(|keys|, i requires 0 <= i < |keys| => peers[keys[i]]);
    assert forall i | 0 <= i < |keys| :: ps[i] == peers[keys[i]];
    ps
  }

  datatype Selected = Selected(path: Path, hops: seq<NextHop>)

  type View = map<Prefix, Selected>

  /** `RibEvent`: `Best` with the path and hops, or `Withdrawn`. */
  type RibEvent = Change<Prefix, Selected>

  /** Selection for one prefix, from scratch. */
  ghost function SelectFrom(peers: Peers, maxPaths: nat): Option<Selected> {
    if peers == map[] then None else
      var ps := Candidates(peers);
      Some(Selected(ps[Choice(ps)], InstalledHops(ps, maxPaths)))
  }

  ghost function Sel(maxPaths: nat): Peers -> Option<Selected> {
    peers => SelectFrom(peers, maxPaths)
  }

  // ---- The operations on the Adj-RIB-In ----------------------------------------------------

  datatype Op =
    | Update(peer: IpAddr, pathId: u32, prefix: Prefix, path: Path)
    | Withdraw(peer: IpAddr, pathId: u32, prefix: Prefix)
    | PeerDown(peer: IpAddr)

  function PeersOf(entries: Entries, p: Prefix): Peers {
    if p in entries then entries[p] else map[]
  }

  /** A prefix without candidates has no entry. */
  function WithPeers(entries: Entries, p: Prefix, peers: Peers): Entries {
    if peers == map[] then entries - {p} else entries[p := peers]
  }

  function NotFrom(peers: Peers, peer: IpAddr): Peers {
    map k | k in peers && k.peer != peer :: peers[k]
  }

  /** `peer`'s paths dropped from the prefixes in `s`. */
  function Dropped(entries: Entries, peer: IpAddr, s: set<Prefix>): Entries {
    map p | p in entries && (p in s ==> NotFrom(entries[p], peer) != map[]) ::
      if p in s then NotFrom(entries[p], peer) else entries[p]
  }

  function OffersAny(peers: Peers, peer: IpAddr): bool {
    exists k :: k in peers && k.peer == peer
  }

  /** The prefixes `peer` offers a path for, in prefix order. */
  function Affected(entries: Entries, peer: IpAddr): (r: seq<Prefix>)
    ensures forall p :: p in r <==> p in entries && OffersAny(entries[p], peer)
    ensures forall i, j | 0 <= i < j < |r| :: r[i] != r[j]
  {
    PrefixRankInjective();
    Ascending((set p | p in entries && OffersAny(entries[p], peer)), PrefixRank)
  }

  function Step(entries: Entries, op: Op): Entries {
    match op
    case Update(peer, id, p, path) => entries[p := PeersOf(entries, p)[PeerKey(peer, id) := path]]
    case Withdraw(peer, id, p) => WithPeers(entries, p, PeersOf(entries, p) - {PeerKey(peer, id)})
    case PeerDown(peer) => Dropped(entries, peer, entries.Keys)
  }

  /** The prefixes an operation reselects. */
  function Touched(entries: Entries, op: Op): seq<Prefix> {
    match op
    case Update(_, _, p, _) => [p]
    case Withdraw(_, _, p) => [p]
    case PeerDown(peer) => Affected(entries, peer)
  }

  /** The events an operation owes its consumer: one per touched prefix that changed. */
  ghost function EventsOf(entries: Entries, op: Op, sel: Peers -> Option<Selected>): seq<RibEvent> {
    DiffAll(Touched(entries, op), FromScratch(entries, sel), FromScratch(Step(entries, op), sel))
  }

  predicate NoEmptyEntry(entries: Entries) {
    forall p | p in entries :: entries[p] != map[]
  }

  // ---- Whole runs --------------------------------------------------------------------------

  function Run(ops: seq<Op>): Entries {
    if ops == [] then map[] else Step(Run(ops[..|ops| - 1]), ops[|ops| - 1])
  }

  ghost function RunEvents(ops: seq<Op>, sel: Peers -> Option<Selected>): seq<RibEvent> {
    if ops == [] then [] else
      var front := ops[..|ops| - 1];
      RunEvents(front, sel) + EventsOf(Run(front), ops[|ops| - 1], sel)
  }

  /** An operation changes nothing outside the prefixes it touches. */
  lemma UntouchedKeepTheirCandidates(entries: Entries, op: Op, p: Prefix)
    requires NoEmptyEntry(entries) && p !in Touched(entries, op)
    ensures Lookup(Step(entries, op), p) == Lookup(entries, p)
  {
    if op.PeerDown? && p in entries {
      assert !OffersAny(entries[p], op.peer);
      assert NotFrom(entries[p], op.peer) == entries[p];
    }
  }

  lemma StepKeepsNoEmptyEntry(entries: Entries, op: Op)
    requires NoEmptyEntry(entries)
    ensures NoEmptyEntry(Step(entries, op))
  {
    if op.Update? {
      assert PeerKey(op.peer, op.pathId) in Step(entries, op)[op.prefix];
    }
  }

  /** One operation: replaying its events turns the old Loc-RIB into the new one, every
      event is a change, and there is none without one. */
  lemma EventsReplayStep(entries: Entries, op: Op, sel: Peers -> Option<Selected>)
    requires NoEmptyEntry(entries)
    ensures
      var before, after := FromScratch(entries, sel), FromScratch(Step(entries, op), sel);
      var events := EventsOf(entries, op, sel);
      && ReplayAll(before, events) == after
      && EachChanges(before, events)
      && (events == [] <==> after == before)
  {
    var before, after := FromScratch(entries, sel), FromScratch(Step(entries, op), sel);
    forall p | p !in Touched(entries, op) ensures Lookup(after, p) == Lookup(before, p) {
      UntouchedKeepTheirCandidates(entries, op, p);
      assert Lookup(Step(entries, op), p) == Lookup(entries, p);
    }
    DiffsReplay(Touched(entries, op), before, after);
  }

  /** After any sequence of updates, withdrawals and peer losses, replaying every event
      emitted so far from an empty table gives the Loc-RIB selected from scratch. */
  lemma {:induction false} EventStreamRebuildsLocRib(ops: seq<Op>, sel: Peers -> Option<Selected>)
    ensures NoEmptyEntry(Run(ops))
    ensures ReplayAll(map[], RunEvents(ops, sel)) == FromScratch(Run(ops), sel)
  {
    if ops == [] {
      assert FromScratch(Run(ops), sel) == map[];
    } else {
      var front, op := ops[..|ops| - 1], ops[|ops| - 1];
      EventStreamRebuildsLocRib(front, sel);
      StepKeepsNoEmptyEntry(Run(front), op);
      EventsReplayStep(Run(front), op, sel);
      ReplayAppend(map[], RunEvents(front, sel), EventsOf(Run(front), op, sel));
    }
  }

  lemma OnePrefixKeys(entries: Entries, op: Op, p: Prefix)
    requires NoEmptyEntry(entries) && Touched(entries, op) == [p]
    ensures NoEmptyEntry(Step(entries, op))
    ensures Step(entries, op).Keys - {p} == entries.Keys - {p}
  {
    StepKeepsNoEmptyEntry(entries, op);
    forall q | q != p ensures q in Step(entries, op) <==> q in entries {
      UntouchedKeepTheirCandidates(entries, op, q);
      assert Lookup(Step(entries, op), q) == Lookup(entries, q);
    }
  }

  /** An update or withdrawal of one prefix, as the cache has to follow it. */
  lemma OnePrefixStep(entries: Entries, op: Op, p: Prefix, sel: Peers -> Option<Selected>)
    requires NoEmptyEntry(entries) && Touched(entries, op) == [p]
    ensures FromScratch(Step(entries, op), sel) ==
      if p in Step(entries, op) && sel(Step(entries, op)[p]).Some?
      then FromScratch(entries, sel)[p := sel(Step(entries, op)[p]).value]
      else FromScratch(entries, sel) - {p}
    ensures EventsOf(entries, op, sel) ==
      Listed(Diff(p, Lookup(FromScratch(entries, sel), p), Lookup(FromScratch(Step(entries, op), sel), p)))
  {
    var next := Step(entries, op);
    forall q | q != p ensures Lookup(next, q) == Lookup(entries, q) {
      UntouchedKeepTheirCandidates(entries, op, q);
    }
    ReselectOneKey(entries, next, p, sel);
    OneKey(p, FromScratch(entries, sel), FromScratch(next, sel));
  }

  ghost function LocOf(best: map<Prefix, Path>, hops: map<Prefix, seq<NextHop>>): View
    requires best.Keys == hops.Keys
  {
    map p | p in best :: Selected(best[p], hops[p])
  }

  lemma LocInsert(best: map<Prefix, Path>, hops: map<Prefix, seq<NextHop>>, p: Prefix, path: Path, hs: seq<NextHop>)
    requires best.Keys == hops.Keys
    ensures LocOf(best[p := path], hops[p := hs]) == LocOf(best, hops)[p := Selected(path, hs)]
  {
  }

  lemma LocRemove(best: map<Prefix, Path>, hops: map<Prefix, seq<NextHop>>, p: Prefix)
    requires best.Keys == hops.Keys
    ensures LocOf(best - {p}, hops - {p}) == LocOf(best, hops) - {p}
    ensures p !in best ==> best - {p} == best && hops - {p} == hops
  {
  }

  // ---- The table -----------------------------------------------------------------------------

  class BgpRib {
    var entries: Entries
    var best: map<Prefix, Path>
    var hops: map<Prefix, seq<NextHop>>
    const maxPaths: nat
    /** The selection this table caches, fixed by `maxPaths`. */
    ghost const sel: Peers -> Option<Selected>

    ghost predicate Configured() {
      forall peers {:trigger SelectFrom(peers, maxPaths)} :: sel(peers) == SelectFrom(peers, maxPaths)
    }

    /** The cached Loc-RIB. */
    ghost function LocRib(): View
      reads this
      requires best.Keys == hops.Keys
    {
      LocOf(best, hops)
    }

    /** The caches agree with selection from scratch and exist exactly where candidates do. */
    ghost predicate Valid()
      reads this
    {
      && maxPaths >= 1 && Configured()
      && NoEmptyEntry(entries)
      && best.Keys == hops.Keys == entries.Keys
      && LocRib() == FromScratch(entries, sel)
    }

    /** `with_max_paths`: the cap is at least one. */
    constructor WithMaxPaths(n: nat)
      ensures Valid() && entries == map[] && maxPaths == if n == 0 then 1 else n
    {
      entries, best, hops := map[], map[], map[];
      maxPaths := if n == 0 then 1 else n;
      sel := Sel(if n == 0 then 1 else n);
    }

    /** The equal-cost hop loop of `reselect`. */
    method CollectHops(ps: seq<Path>, w: nat) returns (r: seq<NextHop>)
      requires maxPaths >= 1 && w < |ps|
      ensures r == UpTo(Collected(ps[w], ps, |ps|), maxPaths)
    {
      var best := ps[w];
      r := [best.Hop()];
      CollectedFront(best, ps, 0, |ps|);
      if maxPaths > 1 {
        for i := 0 to |ps|
          invariant r == Collected(best, ps, i)
          invariant |r| < maxPaths && best.Hop() in r
        {
          var p := ps[i];
          if i == w || !MultipathEligible(best, p) {
            continue;
          }
          var hop := p.Hop();
          if hop !in r {
            r := r + [hop];
          }
          if |r| >= maxPaths {
            CollectedFront(best, ps, i + 1, |ps|);
            return;
          }
        }
      }
    }

    method SelectFor(peers: Peers) returns (r: Option<Selected>)
      requires maxPaths >= 1 && Configured()
      ensures r == sel(peers)
    {
      assert sel(peers) == SelectFrom(peers, maxPaths);
      var ps := Candidates(peers);
      var w := SelectBest(ps);
      if w.None? {
        return None;
      }
      var hs := CollectHops(ps, w.value);
      r := Some(Selected(ps[w.value], hs));
    }

    method Reselect(prefix: Prefix) returns (ev: Option<RibEvent>)
      requires maxPaths >= 1 && Configured() && best.Keys == hops.Keys
      requires prefix in entries ==> entries[prefix] != map[]
      modifies this`best, this`hops
      ensures best.Keys == hops.Keys
        == if prefix in entries then old(best.Keys) + {prefix} else old(best.Keys) - {prefix}
      ensures prefix in entries ==> sel(entries[prefix]).Some?
      ensures LocRib() == if prefix in entries
        then old(LocRib())[prefix := sel(entries[prefix]).value]
        else old(LocRib()) - {prefix}
      ensures ev == Diff(prefix, Lookup(old(LocRib()), prefix), Lookup(LocRib(), prefix))
    {
      if prefix in entries {
        SelectsSomething(entries[prefix]);
        var chosen := SelectFor(entries[prefix]);
        var Selected(path, hs) := chosen.value;
        if prefix in best && best[prefix] == path && prefix in hops && hops[prefix] == hs {
          ev := None;
        } else {
          LocInsert(best, hops, prefix, path, hs);
          best := best[prefix := path];
          hops := hops[prefix := hs];
          ev := Some(Best(prefix, chosen.value));
        }
      } else {
        LocRemove(best, hops, prefix);
        hops := hops - {prefix};
        if prefix in best {
          best := best - {prefix};
          ev := Some(Withdrawn(prefix));
        } else {
          ev := None;
        }
      }
    }

    lemma SelectsSomething(peers: Peers)
      requires Configured() && peers != map[]
      ensures sel(peers).Some?
    {
      assert sel(peers) == SelectFrom(peers, maxPaths);
    }

    method UpdateWithId(peer: IpAddr, pathId: u32, prefix: Prefix, path: Path) returns (ev: Option<RibEvent>)
      requires Valid()
      modifies this
      ensures Valid()
      ensures entries == Step(old(entries), Update(peer, pathId, prefix, path))
      ensures Listed(ev) == EventsOf(old(entries), Update(peer, pathId, prefix, path), sel)
    {
      OnePrefixStep(entries, Update(peer, pathId, prefix, path), prefix, sel);
      OnePrefixKeys(entries, Update(peer, pathId, prefix, path), prefix);
      var peers := if prefix in entries then entries[prefix] else map[];
      entries := entries[prefix := peers[PeerKey(peer, pathId) := path]];
      ev := Reselect(prefix);
    }

    method WithdrawWithId(peer: IpAddr, pathId: u32, prefix: Prefix) returns (ev: Option<RibEvent>)
      requires Valid()
      modifies this
      ensures Valid()
      ensures entries == Step(old(entries), Withdraw(peer, pathId, prefix))
      ensures Listed(ev) == EventsOf(old(entries), Withdraw(peer, pathId, prefix), sel)
    {
      OnePrefixStep(entries, Withdraw(peer, pathId, prefix), prefix, sel);
      OnePrefixKeys(entries, Withdraw(peer, pathId, prefix), prefix);
      if prefix in entries {
        var peers := entries[prefix] - {PeerKey(peer, pathId)};
        if peers == map[] {
          entries := entries - {prefix};
        } else {
          entries := entries[prefix := peers];
        }
      } else {
        NothingToWithdraw(entries, PeerKey(peer, pathId), prefix);
      }
      ev := Reselect(prefix);
    }

    /** One turn of `withdraw_peer`: drop `peer`'s paths for one prefix and reselect it. */
    method DropPeerFrom(peer: IpAddr, prefix: Prefix) returns (ev: Option<RibEvent>)
      requires Valid() && prefix in entries
      modifies this
      ensures Valid()
      ensures entries == WithPeers(old(entries), prefix, NotFrom(old(entries)[prefix], peer))
      ensures ev == Diff(prefix, Lookup(FromScratch(old(entries), sel), prefix), Lookup(FromScratch(entries, sel), prefix))
    {
      var peers := NotFrom(entries[prefix], peer);
      if peers == map[] {
        entries := entries - {prefix};
      } else {
        entries := entries[prefix := peers];
      }
      ReselectOneKey(old(entries), entries, prefix, sel);
      ev := Reselect(prefix);
    }

    /** The loop of `withdraw_peer`. The stages are the tables it goes through. */
    method DropPeerFromEach(peer: IpAddr, prefixes: seq<Prefix>,
                            ghost stages: seq<Entries>, ghost before: View, ghost after: View)
      returns (events: seq<RibEvent>)
      requires Valid() && |stages| == |prefixes| + 1 && stages[0] == entries
      requires forall k | 0 <= k < |prefixes| ::
        DropStage(stages[k], stages[k + 1], peer, prefixes[k], before, after, sel)
      modifies this
      ensures Valid() && entries == stages[|prefixes|]
      ensures events == DiffAll(prefixes, before, after)
    {
      events := [];
      for k := 0 to |prefixes|
        invariant Valid() && entries == stages[k]
        invariant events == DiffAll(prefixes[..k], before, after)
      {
        assert DropStage(stages[k], stages[k + 1], peer, prefixes[k], before, after, sel);
        NextDiff(prefixes, k, before, after);
        var ev := DropPeerFrom(peer, prefixes[k]);
        if ev.Some? {
          events := events + [ev.value];
        }
      }
      assert prefixes[..|prefixes|] == prefixes;
    }

    method WithdrawPeer(peer: IpAddr) returns (events: seq<RibEvent>)
      requires Valid()
      modifies this
      ensures Valid()
      ensures entries == Step(old(entries), PeerDown(peer))
      ensures events == EventsOf(old(entries), PeerDown(peer), sel)
    {
      var affected := Affected(entries, peer);
      ghost var stages := DropStages(entries, peer, affected, sel);
      events := DropPeerFromEach(peer, affected, stages,
                                 FromScratch(entries, sel), FromScratch(Step(entries, PeerDown(peer)), sel));
    }
  }

  lemma NextDiff(prefixes: seq<Prefix>, k: nat, before: View, after: View)
    requires k < |prefixes|
    ensures DiffAll(prefixes[..k + 1], before, after) == DiffAll(prefixes[..k], before, after)
      + Listed(Diff(prefixes[k], Lookup(before, prefixes[k]), Lookup(after, prefixes[k])))
  {
    assert prefixes[..k + 1] == prefixes[..k] + [prefixes[k]];
    DiffAllStep(prefixes[..k], prefixes[k], before, after);
  }

  /** Dropping `peer`'s paths for `p` takes `now` to `next`, and moves the selection of `p`
      from `before` to `after`. */
  ghost predicate DropStage(now: Entries, next: Entries, peer: IpAddr, p: Prefix,
                            before: View, after: View, sel: Peers -> Option<Selected>) {
    && p in now
    && next == WithPeers(now, p, NotFrom(now[p], peer))
    && Lookup(FromScratch(now, sel), p) == Lookup(before, p)
    && Lookup(FromScratch(next, sel), p) == Lookup(after, p)
  }

  lemma NothingToWithdraw(entries: Entries, key: PeerKey, p: Prefix)
    requires p !in entries
    ensures WithPeers(entries, p, PeersOf(entries, p) - {key}) == entries
  {
    var none: Peers := map[];
    assert none - {key} == map[];
    assert entries - {p} == entries;
  }

  /** `peer`'s paths dropped from the listed prefixes. */
  ghost function DroppedFrom(entries: Entries, peer: IpAddr, done: seq<Prefix>): Entries {
    Dropped(entries, peer, set p | p in done)
  }

  /** The tables `withdraw_peer` goes through. A prefix not yet visited still has its old
      candidates, and gets its final ones when it is: its diff is the diff between the
      first and the last Loc-RIB. */
  lemma DropStages(entries: Entries, peer: IpAddr, affected: seq<Prefix>, sel: Peers -> Option<Selected>)
    returns (stages: seq<Entries>)
    requires NoEmptyEntry(entries) && affected == Affected(entries, peer)
    ensures |stages| == |affected| + 1 && stages[0] == entries && stages[|affected|] == Step(entries, PeerDown(peer))
    ensures forall k | 0 <= k < |affected| ::
      DropStage(stages[k], stages[k + 1], peer, affected[k],
                FromScratch(entries, sel), FromScratch(Step(entries, PeerDown(peer)), sel), sel)
  {
    var before, after := FromScratch(entries, sel), FromScratch(Step(entries, PeerDown(peer)), sel);
    stages := StagesOf(entries, peer, affected);
    StageEnds(entries, peer, affected);
    forall k | 0 <= k < |affected|
      ensures DropStage(stages[k], stages[k + 1], peer, affected[k], before, after, sel)
    {
      NotYetVisited(entries, peer, affected, k);
      DroppedStepAt(entries, peer, affected, k, sel);
    }
  }

  lemma StageEnds(entries: Entries, peer: IpAddr, affected: seq<Prefix>)
    requires NoEmptyEntry(entries) && affected == Affected(entries, peer)
    ensures DroppedFrom(entries, peer, affected[..0]) == entries
    ensures DroppedFrom(entries, peer, affected[..|affected|]) == Step(entries, PeerDown(peer))
  {
    assert affected[..|affected|] == affected;
    DroppedEverywhere(entries, peer, affected);
    DroppedNowhere(entries, peer);
  }

  lemma DroppedStepAt(entries: Entries, peer: IpAddr, affected: seq<Prefix>, k: nat, sel: Peers -> Option<Selected>)
    requires NoEmptyEntry(entries) && k < |affected| && affected[k] in entries && affected[k] !in affected[..k]
    ensures DropStage(DroppedFrom(entries, peer, affected[..k]), DroppedFrom(entries, peer, affected[..k + 1]), peer, affected[k],
                      FromScratch(entries, sel), FromScratch(Step(entries, PeerDown(peer)), sel), sel)
  {
    assert affected[..k + 1] == affected[..k] + [affected[k]];
    DroppedStep(entries, peer, affected[..k], affected[k], sel);
  }

  lemma NotYetVisited(entries: Entries, peer: IpAddr, affected: seq<Prefix>, k: nat)
    requires affected == Affected(entries, peer) && k < |affected|
    ensures affected[k] in entries && affected[k] !in affected[..k]
  {
    assert affected[k] in affected;
  }

  ghost function StagesOf(entries: Entries, peer: IpAddr, affected: seq<Prefix>): (stages: seq<Entries>)
    ensures |stages| == |affected| + 1
    ensures forall k | 0 <= k <= |affected| :: stages[k] == DroppedFrom(entries, peer, affected[..k])
  {
    seq(|affected| + 1, k requires 0 <= k <= |affected| => DroppedFrom(entries, peer, affected[..k]))
  }

  lemma DroppedNowhere(entries: Entries, peer: IpAddr)
    ensures DroppedFrom(entries, peer, []) == entries
  {
  }

  lemma DroppedStep(entries: Entries, peer: IpAddr, done: seq<Prefix>, p: Prefix, sel: Peers -> Option<Selected>)
    requires NoEmptyEntry(entries) && p in entries && p !in done
    ensures DropStage(DroppedFrom(entries, peer, done), DroppedFrom(entries, peer, done + [p]), peer, p,
                      FromScratch(entries, sel), FromScratch(Step(entries, PeerDown(peer)), sel), sel)
  {
    DroppedOneMore(entries, peer, done, p);
    var next, last := DroppedFrom(entries, peer, done + [p]), Step(entries, PeerDown(peer));
    assert p in done + [p];
    assert p in next <==> p in last;
    assert p in next ==> next[p] == last[p];
  }

  lemma DroppedOneMore(entries: Entries, peer: IpAddr, done: seq<Prefix>, p: Prefix)
    requires NoEmptyEntry(entries) && p in entries && p !in done
    ensures DroppedFrom(entries, peer, done + [p])
         == WithPeers(DroppedFrom(entries, peer, done), p, NotFrom(entries[p], peer))
  {
  }

  /** Prefixes the peer offers nothing for need not be visited. */
  lemma DroppedEverywhere(entries: Entries, peer: IpAddr, affected: seq<Prefix>)
    requires NoEmptyEntry(entries)
    requires forall p :: p in affected <==> p in entries && OffersAny(entries[p], peer)
    ensures DroppedFrom(entries, peer, affected) == Dropped(entries, peer, entries.Keys)
  {
    forall p | p in entries && p !in affected ensures NotFrom(entries[p], peer) == entries[p] {
      assert !OffersAny(entries[p], peer);
    }
  }
}
