/** The core RIB and the forwarding table it drives (`wren-core`). */
module RibFib {
  import opened Wrappers
  import opened Net
  import opened Orders
  import opened Incremental

  datatype Protocol = Connected | Static | Kernel | Rip | Ospf | Isis | Babel | Bgp

  datatype Route = Route(
    prefix: Prefix,
    table: u32,
    nexthops: seq<NextHop>,
    protocol: Protocol,
    preference: u32,
    metric: u32,
    source: u64,
    communities: seq<u32>,
    largeCommunities: seq<(u32, u32, u32)>,
    extCommunities: seq<Octets8>)
  {
    /** What re-announcing replaces and withdrawing removes. */
    function Key(): (Protocol, u64) { (protocol, source) }

    predicate IsBetterThan(other: Route) {
      preference > other.preference || (preference == other.preference && metric < other.metric)
    }
  }

  /** RIB and FIB are keyed by VRF table and prefix. */
  datatype Dest = Dest(table: u32, prefix: Prefix)

  /** `FibChange`: `Best` installs a route, `Withdrawn` removes a destination. */
  type FibChange = Change<Dest, Route>

  type Entries = map<Dest, seq<Route>>

  // ---- The best candidate ----------------------------------------------------------------

  /** Candidate `i` is preferred to `j`: strictly better, or tied and announced earlier. */
  predicate Ahead(cs: seq<Route>, i: nat, j: nat)
    requires i < |cs| && j < |cs|
  {
    cs[i].IsBetterThan(cs[j]) || (!cs[j].IsBetterThan(cs[i]) && i < j)
  }

  /** `w` is the first candidate of highest preference and, among those, lowest metric. */
  predicate IsBest(cs: seq<Route>, w: nat) {
    w < |cs| && forall j | 0 <= j < |cs| && j != w :: Ahead(cs, w, j)
  }

  lemma {:induction false} BestExists(cs: seq<Route>) returns (w: nat)
    requires cs != []
    ensures IsBest(cs, w)
  {
    if |cs| == 1 {
      w := 0;
    } else {
      w := BestExists(cs[..|cs| - 1]);
      BestStep(cs, |cs| - 1, w);
      assert cs[..|cs|] == cs;
      if cs[|cs| - 1].IsBetterThan(cs[w]) { w := |cs| - 1; }
    }
  }

  /** One more candidate takes over exactly when strictly better. */
  lemma BestStep(cs: seq<Route>, i: nat, w: nat)
    requires i < |cs| && IsBest(cs[..i], w)
    ensures IsBest(cs[..i + 1], if cs[i].IsBetterThan(cs[w]) then i else w)
  {
    var front, more := cs[..i], cs[..i + 1];
    if cs[i].IsBetterThan(cs[w]) {
      forall j | 0 <= j < |more| && j != i ensures Ahead(more, i, j) {
        if j != w { assert Ahead(front, w, j); }
      }
      assert IsBest(more, i);
    } else {
      forall j | 0 <= j < |more| && j != w ensures Ahead(more, w, j) {
        if j != i { assert Ahead(front, w, j); }
      }
      assert IsBest(more, w);
    }
  }

  lemma BestUnique(cs: seq<Route>, v: nat, w: nat)
    requires IsBest(cs, v) && IsBest(cs, w)
    ensures v == w
  {
    if v != w { AheadAsymmetric(cs, v, w); }
  }

  lemma AheadAsymmetric(cs: seq<Route>, i: nat, j: nat)
    requires i < |cs| && j < |cs|
    ensures !(Ahead(cs, i, j) && Ahead(cs, j, i))
  {
  }

  ghost function BestOf(cs: seq<Route>): (r: Option<Route>)
    ensures r.None? <==> cs == []
    ensures r.Some? ==> exists w: nat :: IsBest(cs, w) && cs[w] == r.value
  {
    if cs == [] then None else
      BestExistsSomewhere(cs);
      var w: nat :| IsBest(cs, w);
      Some(cs[w])
  }

  lemma BestExistsSomewhere(cs: seq<Route>)
    requires cs != []
    ensures exists w: nat :: IsBest(cs, w)
  {
    var w := BestExists(cs);
  }

  /** `RibEntry::best`: one pass in insertion order. */
  method EntryBest(cs: seq<Route>) returns (best: Option<Route>)
    ensures best == BestOf(cs)
  {
    best := None;
    ghost var w := 0;
    for i := 0 to |cs|
      invariant best.None? <==> i == 0
      invariant best.Some? ==> IsBest(cs[..i], w) && best.value == cs[w]
    {
      var c := cs[i];
      match best
      case None => best, w := Some(c), i;
      case Some(b) =>
        BestStep(cs, i, w);
        if c.IsBetterThan(b) {
          best, w := Some(c), i;
        }
    }
    assert cs[..|cs|] == cs;
    if cs != [] {
      ghost var v: nat :| IsBest(cs, v) && cs[v] == BestOf(cs).value;
      BestUnique(cs, v, w);
    }
  }

  // ---- The operations ----------------------------------------------------------------------

  datatype Op =
    | Announce(route: Route)
    | Retract(dest: Dest, protocol: Protocol, source: u64)

  function CandidatesAt(entries: Entries, d: Dest): seq<Route> {
    if d in entries then entries[d] else []
  }

  /** The position of the first candidate with `key`, or the end. */
  function Position(cs: seq<Route>, key: (Protocol, u64)): (i: nat)
    ensures i <= |cs|
    ensures forall j | 0 <= j < i :: cs[j].Key() != key
    ensures i < |cs| ==> cs[i].Key() == key
  {
    if cs == [] || cs[0].Key() == key then 0 else 1 + Position(cs[1..], key)
  }

  /** Replace the candidate of the same source in place, or append. */
  function Put(cs: seq<Route>, r: Route): seq<Route> {
    var i := Position(cs, r.Key());
    if i < |cs| then cs[i := r] else cs + [r]
  }

  /** `retain(|c| c.key() != key)`. */
  function Without(cs: seq<Route>, key: (Protocol, u64)): (r: seq<Route>)
    ensures forall c :: c in r <==> c in cs && c.Key() != key
  {
    if cs == [] then [] else
      var front, last := cs[..|cs| - 1], cs[|cs| - 1];
      assert cs == front + [last];
      if last.Key() == key then Without(front, key) else Without(front, key) + [last]
  }

  function DestOf(r: Route): Dest { Dest(r.table, r.prefix) }

  function Touched(op: Op): Dest {
    match op
    case Announce(r) => DestOf(r)
    case Retract(d, _, _) => d
  }

  function Step(entries: Entries, op: Op): Entries {
    match op
    case Announce(r) => entries[DestOf(r) := Put(CandidatesAt(entries, DestOf(r)), r)]
    case Retract(d, protocol, source) =>
      var left := Without(CandidatesAt(entries, d), (protocol, source));
      if left == [] then entries - {d} else entries[d := left]
  }

  /** Candidates sit under their own destination, one per source, and no entry is empty. */
  predicate WellKept(entries: Entries) {
    forall d | d in entries ::
      && entries[d] != []
      && (forall c | c in entries[d] :: DestOf(c) == d)
      && UniqueKeys(entries[d])
  }

  predicate UniqueKeys(cs: seq<Route>) {
    forall i, j | 0 <= i < j < |cs| :: cs[i].Key() != cs[j].Key()
  }

  lemma {:induction false} WithoutKeepsUniqueKeys(cs: seq<Route>, key: (Protocol, u64))
    requires UniqueKeys(cs)
    ensures UniqueKeys(Without(cs, key))
  {
    if cs != [] {
      var front, last := cs[..|cs| - 1], cs[|cs| - 1];
      WithoutKeepsUniqueKeys(front, key);
      forall c | c in Without(front, key) ensures c.Key() != last.Key() {
        var i :| 0 <= i < |front| && front[i] == c;
      }
    }
  }

  lemma StepKeepsWellKept(entries: Entries, op: Op)
    requires WellKept(entries)
    ensures WellKept(Step(entries, op))
  {
    match op
    case Announce(r) =>
      var d := DestOf(r);
      var cs := CandidatesAt(entries, d);
      var put := Put(cs, r);
      assert forall c | c in put :: c == r || c in cs;
      assert UniqueKeys(put);
    case Retract(d, protocol, source) =>
      WithoutKeepsUniqueKeys(CandidatesAt(entries, d), (protocol, source));
  }

  // ---- The forwarding table ------------------------------------------------------------------

  /** The best route of every destination. */
  ghost function BestRoutes(entries: Entries): map<Dest, Route> {
    FromScratch(entries, cs => BestOf(cs))
  }

  ghost function ChangeOf(entries: Entries, op: Op): Option<FibChange> {
    var d := Touched(op);
    Diff(d, BestOf(CandidatesAt(entries, d)), BestOf(CandidatesAt(Step(entries, op), d)))
  }

  lemma BestRouteLookup(entries: Entries, d: Dest)
    ensures Lookup(BestRoutes(entries), d) == BestOf(CandidatesAt(entries, d))
  {
  }

  /** The forwarding table after one operation's change is again exactly the best routes;
      no change is sent unless some best route changed. */
  lemma ChangeKeepsFibExact(entries: Entries, op: Op)
    requires WellKept(entries)
    ensures ReplayAll(BestRoutes(entries), Listed(ChangeOf(entries, op))) == BestRoutes(Step(entries, op))
    ensures ChangeOf(entries, op).None? <==> BestRoutes(Step(entries, op)) == BestRoutes(entries)
  {
    var d := Touched(op);
    var before, after := BestRoutes(entries), BestRoutes(Step(entries, op));
    forall q ensures q != d ==> Lookup(after, q) == Lookup(before, q) {
      BestRouteLookup(entries, q);
      BestRouteLookup(Step(entries, op), q);
    }
    BestRouteLookup(entries, d);
    BestRouteLookup(Step(entries, op), d);
    DiffsReplay([d], before, after);
    OneKey(d, before, after);
  }

  function Run(ops: seq<Op>): Entries {
    if ops == [] then map[] else Step(Run(ops[..|ops| - 1]), ops[|ops| - 1])
  }

  ghost function RunChanges(ops: seq<Op>): seq<FibChange> {
    if ops == [] then [] else
      var front := ops[..|ops| - 1];
      RunChanges(front) + Listed(ChangeOf(Run(front), ops[|ops| - 1]))
  }

  /** Over every run of announcements and withdrawals, the forwarding table driven by the
      changes alone holds exactly each destination's current best route. */
  lemma {:induction false} FibFollowsRib(ops: seq<Op>)
    ensures WellKept(Run(ops))
    ensures ReplayAll(map[], RunChanges(ops)) == BestRoutes(Run(ops))
  {
    if ops == [] {
      assert BestRoutes(Run(ops)) == map[];
    } else {
      var front, op := ops[..|ops| - 1], ops[|ops| - 1];
      FibFollowsRib(front);
      StepKeepsWellKept(Run(front), op);
      ChangeKeepsFibExact(Run(front), op);
      ReplayAppend(map[], RunChanges(front), Listed(ChangeOf(Run(front), op)));
    }
  }

  // ---- The tables as objects -------------------------------------------------------------------

  class Rib {
    var entries: Entries

    constructor ()
      ensures entries == map[]
    {
      entries := map[];
    }

    method Update(route: Route) returns (change: Option<FibChange>)
      requires WellKept(entries)
      modifies this
      ensures WellKept(entries) && entries == Step(old(entries), Announce(route))
      ensures change == ChangeOf(old(entries), Announce(route))
      ensures change.Some? && change.value.Best? ==> DestOf(change.value.value) == change.value.key
    {
      StepKeepsWellKept(entries, Announce(route));
      var d := Dest(route.table, route.prefix);
      var cs := if d in entries then entries[d] else [];
      var before := EntryBest(cs);
      var i := FindSlot(cs, route.Key());
      if i < |cs| {
        cs := cs[i := route];
      } else {
        cs := cs + [route];
      }
      entries := entries[d := cs];
      var after := EntryBest(cs);
      change := DiffBest(d, before, after);
    }

    method Withdraw(table: u32, prefix: Prefix, protocol: Protocol, source: u64) returns (change: Option<FibChange>)
      requires WellKept(entries)
      modifies this
      ensures WellKept(entries) && entries == Step(old(entries), Retract(Dest(table, prefix), protocol, source))
      ensures change == ChangeOf(old(entries), Retract(Dest(table, prefix), protocol, source))
      ensures change.Some? && change.value.Best? ==> DestOf(change.value.value) == change.value.key
    {
      var d := Dest(table, prefix);
      StepKeepsWellKept(entries, Retract(d, protocol, source));
      if d !in entries {
        assert entries - {d} == entries;
        return None;
      }
      var before := EntryBest(entries[d]);
      var left := Without(entries[d], (protocol, source));
      var after := EntryBest(left);
      if left == [] {
        entries := entries - {d};
      } else {
        entries := entries[d := left];
      }
      change := DiffBest(d, before, after);
    }

    method DiffBest(d: Dest, before: Option<Route>, after: Option<Route>) returns (change: Option<FibChange>)
      ensures change == Diff(d, before, after)
    {
      match after
      case Some(best) => change := if before == Some(best) then None else Some(Best(d, best));
      case None => change := if before.Some? then Some(Withdrawn(d)) else None;
    }
  }

  method FindSlot(cs: seq<Route>, key: (Protocol, u64)) returns (i: nat)
    ensures i == Position(cs, key)
  {
    i := 0;
    while i < |cs| && cs[i].Key() != key
      invariant i <= |cs| && Position(cs, key) == i + Position(cs[i..], key)
    {
      i := i + 1;
    }
  }

  /** `MemoryFib`: an installed route is filed under its own table and prefix. */
  class MemoryFib {
    var installed: map<Dest, Route>

    constructor ()
      ensures installed == map[]
    {
      installed := map[];
    }

    method Apply(change: FibChange)
      requires change.Best? ==> DestOf(change.value) == change.key
      modifies this
      ensures installed == Replay(old(installed), change)
    {
      match change
      case Best(_, r) => installed := installed[Dest(r.table, r.prefix) := r];
      case Withdrawn(d) => installed := installed - {d};
    }
  }
}
