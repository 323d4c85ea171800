/** The Babel route table and its feasibility distances (`table.rs`). */
module BabelTable {
  import opened Wrappers
  import opened Net
  import opened Orders
  import opened Incremental

  const INFINITY: u16 := 0xFFFF

  /** `a` is strictly more recent than `b` in the circular 16-bit space. */
  predicate SeqnoNewer(a: u16, b: u16) {
    a != b && (a - b) % 0x1_0000 < 0x8000
  }

  /** Metric plus link cost, saturating at infinity. */
  function AddMetric(metric: u16, cost: u16): u16 {
    if metric == INFINITY || cost == INFINITY || metric + cost > INFINITY then INFINITY
    else metric + cost
  }

  datatype Fd = Fd(seqno: u16, metric: u16)

  predicate StrictlyBetter(seqno: u16, metric: u16, fd: Fd) {
    SeqnoNewer(seqno, fd.seqno) || (seqno == fd.seqno && metric < fd.metric)
  }

  datatype Source = Source(prefix: Prefix, routerId: Octets8)

  type Fds = map<Source, Fd>

  datatype RouteKey = RouteKey(prefix: Prefix, routerId: Octets8, neighbour: IpAddr)

  datatype RouteEntry = RouteEntry(seqno: u16, advertised: u16, cost: u16, nextHop: IpAddr, feasible: bool) {
    function Metric(): u16 { AddMetric(advertised, cost) }
  }

  type Routes = map<RouteKey, RouteEntry>

  /** What is remembered of the route last emitted for a prefix. */
  datatype Choice = Choice(key: RouteKey, nextHop: IpAddr, metric: u16)

  datatype State = State(fds: Fds, routes: Routes, selected: map<Prefix, Choice>)

  // ---- Selection ---------------------------------------------------------------------------

  /** The derived order of route keys. */
  function KeyRank(k: RouteKey): seq<int> {
    PrefixRank(k.prefix) + (k.routerId + AddrRank(k.neighbour))
  }

  lemma KeyRankInjective()
    ensures Injective(KeyRank)
  {
    PrefixRankInjective();
    AddrRankInjective();
    forall a, b | KeyRank(a) == KeyRank(b) ensures a == b {
      assert KeyRank(a)[0] == PrefixRank(a.prefix)[0] && KeyRank(b)[0] == PrefixRank(b.prefix)[0];
      AppendInjective(PrefixRank(a.prefix), a.routerId + AddrRank(a.neighbour),
                      PrefixRank(b.prefix), b.routerId + AddrRank(b.neighbour));
      AppendInjective(a.routerId, AddrRank(a.neighbour), b.routerId, AddrRank(b.neighbour));
      assert PrefixRank(a.prefix) == PrefixRank(b.prefix) && AddrRank(a.neighbour) == AddrRank(b.neighbour);
    }
  }

  /** Feasible, of finite metric, and for this prefix. */
  predicate Eligible(routes: Routes, p: Prefix, k: RouteKey) {
    k in routes && k.prefix == p && routes[k].feasible && routes[k].Metric() < INFINITY
  }

  /** `a` is selected before `b`: smaller metric, ties broken by route key. */
  predicate Preferred(routes: Routes, a: RouteKey, b: RouteKey)
    requires a in routes && b in routes
  {
    || routes[a].Metric() < routes[b].Metric()
    || (routes[a].Metric() == routes[b].Metric() && LexLess(KeyRank(a), KeyRank(b)))
  }

  predicate IsBest(routes: Routes, p: Prefix, k: RouteKey) {
    Eligible(routes, p, k) && forall j | j in routes && Eligible(routes, p, j) && j != k :: Preferred(routes, k, j)
  }

  /** `(metric, key)`, the key `min_by_key` minimises. */
  function RouteRank(routes: Routes, k: RouteKey): seq<int> {
    [if k in routes then routes[k].Metric() as int else 0] + KeyRank(k)
  }

  /** `min_by_key` over the eligible routes of a prefix. */
  function FindBest(routes: Routes, p: Prefix): (r: Option<RouteKey>)
    ensures r.None? <==> forall k | k in routes :: !Eligible(routes, p, k)
    ensures r.Some? ==> IsBest(routes, p, r.value)
  {
    var s := set k | k in routes && Eligible(routes, p, k);
    assert forall k | k in routes && Eligible(routes, p, k) :: k in s;
    if s == {} then None else
      var rank := (k: RouteKey) => RouteRank(routes, k);
      RouteRankInjective(routes, rank);
      var k := TheLeast(s, rank);
      LeastIsBest(routes, p, k, s, rank);
      Some(k)
  }

  lemma RouteRankInjective(routes: Routes, rank: RouteKey -> seq<int>)
    requires forall k :: rank(k) == RouteRank(routes, k)
    ensures Injective(rank)
  {
    KeyRankInjective();
    forall a, b | rank(a) == rank(b) ensures a == b {
      assert KeyRank(a) == rank(a)[1..] && KeyRank(b) == rank(b)[1..];
    }
  }

  lemma LeastIsBest(routes: Routes, p: Prefix, k: RouteKey, s: set<RouteKey>, rank: RouteKey -> seq<int>)
    requires forall j :: rank(j) == RouteRank(routes, j)
    requires s == set j | j in routes && Eligible(routes, p, j)
    requires Least(k, s, rank)
    ensures IsBest(routes, p, k)
  {
    forall j | j in routes && Eligible(routes, p, j) && j != k ensures Preferred(routes, k, j) {
      assert j in s && LexLess(rank(k), rank(j));
      assert rank(k)[1..] == KeyRank(k) && rank(j)[1..] == KeyRank(j);
    }
  }

  /** No two routes are both best: the selection is the unique minimum. */
  lemma BestIsUnique(routes: Routes, p: Prefix, a: RouteKey, b: RouteKey)
    requires IsBest(routes, p, a) && IsBest(routes, p, b)
    ensures a == b
  {
    if a != b {
      assert Preferred(routes, a, b) && Preferred(routes, b, a);
      LexAsymmetric(KeyRank(a), KeyRank(b));
    }
  }

  function ChoiceAt(routes: Routes, k: RouteKey): Choice
    requires k in routes
  {
    Choice(k, routes[k].nextHop, routes[k].Metric())
  }

  /** The selection for one prefix, from scratch. */
  function Selection(routes: Routes, p: Prefix): (r: Option<Choice>)
    ensures r.Some? ==> IsBest(routes, p, r.value.key) && r.value == ChoiceAt(routes, r.value.key)
  {
    match FindBest(routes, p)
    case None => None
    case Some(k) => Some(ChoiceAt(routes, k))
  }

  /** Routes to other prefixes do not matter. */
  lemma SelectionIsLocal(r: Routes, t: Routes, p: Prefix)
    requires forall k: RouteKey | k.prefix == p :: Lookup(r, k) == Lookup(t, k)
    ensures Selection(r, p) == Selection(t, p)
  {
    forall k: RouteKey | k.prefix == p ensures (k in r <==> k in t) && (k in r ==> r[k] == t[k]) {
      assert Lookup(r, k) == Lookup(t, k);
    }
    assert forall k :: Eligible(r, p, k) <==> Eligible(t, p, k);
    var a, b := FindBest(r, p), FindBest(t, p);
    assert a.Some? ==> Eligible(t, p, a.value);
    assert b.Some? ==> Eligible(r, p, b.value);
    if a.Some? {
      forall j | j in t && Eligible(t, p, j) && j != a.value ensures Preferred(t, a.value, j) {
        assert Preferred(r, a.value, j);
      }
      BestIsUnique(t, p, a.value, b.value);
    }
  }

  // ---- The operations ------------------------------------------------------------------------

  /** Lower a source's feasibility distance if the pair improves on it. */
  function Lowered(fds: Fds, s: Source, seqno: u16, metric: u16): Fds {
    if metric == INFINITY then fds
    else if s !in fds || StrictlyBetter(seqno, metric, fds[s]) then fds[s := Fd(seqno, metric)]
    else fds
  }

  function SourceOf(c: Choice): Source { Source(c.key.prefix, c.key.routerId) }

  /** `reselect`: commit to the selection and remember it. */
  function Reselected(st: State, p: Prefix): State {
    match Selection(st.routes, p)
    case None => st.(selected := st.selected - {p})
    case Some(c) =>
      var e := st.routes[c.key];
      st.(fds := Lowered(st.fds, SourceOf(c), e.seqno, e.advertised), selected := st.selected[p := c])
  }

  ghost function ReselectChange(st: State, p: Prefix): Option<Change<Prefix, Choice>> {
    Diff(p, Lookup(st.selected, p), Selection(st.routes, p))
  }

  function ReselectedAll(st: State, ps: seq<Prefix>): State
    decreases ps
  {
    if ps == [] then st else ReselectedAll(Reselected(st, ps[0]), ps[1..])
  }

  ghost function ReselectChanges(st: State, ps: seq<Prefix>): seq<Change<Prefix, Choice>>
    decreases ps
  {
    if ps == [] then [] else Listed(ReselectChange(st, ps[0])) + ReselectChanges(Reselected(st, ps[0]), ps[1..])
  }

  datatype Op =
    | Offer(key: RouteKey, nextHop: IpAddr, seqno: u16, advertised: u16, cost: u16)
    | Lost(neighbour: IpAddr)

  predicate IsFeasible(fds: Fds, s: Source, seqno: u16, metric: u16) {
    metric == INFINITY || s !in fds || StrictlyBetter(seqno, metric, fds[s])
  }

  predicate IsSelectedRoute(st: State, k: RouteKey) {
    k.prefix in st.selected && st.selected[k.prefix].key == k
  }

  /** The route table after an operation, before reselection. */
  function RoutesAfter(st: State, op: Op): Routes {
    match op
    case Offer(k, nh, seqno, advertised, cost) =>
      if advertised == INFINITY then st.routes - {k} else
        var feasible := IsSelectedRoute(st, k) ||
                        IsFeasible(st.fds, Source(k.prefix, k.routerId), seqno, advertised);
        st.routes[k := RouteEntry(seqno, advertised, cost, nh, feasible)]
    case Lost(n) => map k | k in st.routes && k.neighbour != n :: st.routes[k]
  }

  /** The prefixes an operation reselects, in order. */
  function Touched(st: State, op: Op): (r: seq<Prefix>)
    ensures Distinct(r)
    ensures op.Lost? ==> forall p :: p in r <==> exists k :: k in st.routes && k.neighbour == op.neighbour && k.prefix == p
  {
    match op
    case Offer(k, _, _, _, _) => [k.prefix]
    case Lost(n) =>
      PrefixRankInjective();
      Ascending(set k | k in st.routes && k.neighbour == n :: k.prefix, PrefixRank)
  }

  function Step(st: State, op: Op): State {
    ReselectedAll(st.(routes := RoutesAfter(st, op)), Touched(st, op))
  }

  ghost function ChangesOf(st: State, op: Op): seq<Change<Prefix, Choice>> {
    ReselectChanges(st.(routes := RoutesAfter(st, op)), Touched(st, op))
  }

  // ---- What the table keeps --------------------------------------------------------------------

  /** The remembered selection of `p` is the selection from scratch. */
  ghost predicate Current(st: State, p: Prefix) {
    Lookup(st.selected, p) == Selection(st.routes, p)
  }

  /** A selected route's source has a feasibility distance the route does not beat. */
  ghost predicate Committed(st: State, p: Prefix) {
    p in st.selected ==>
      var c := st.selected[p];
      && c.key.prefix == p && c.key in st.routes && SourceOf(c) in st.fds
      && !StrictlyBetter(st.routes[c.key].seqno, st.routes[c.key].advertised, st.fds[SourceOf(c)])
  }

  ghost predicate InvExcept(st: State, stale: seq<Prefix>) {
    && (forall p | p !in stale :: Current(st, p) && Committed(st, p))
    && (forall k | k in st.routes :: st.routes[k].advertised < INFINITY)
  }

  ghost predicate Inv(st: State) {
    InvExcept(st, [])
  }

  lemma ReselectRepairs(st: State, p: Prefix, rest: seq<Prefix>)
    requires InvExcept(st, [p] + rest)
    ensures InvExcept(Reselected(st, p), rest)
    ensures Reselected(st, p).routes == st.routes
    ensures Lookup(Reselected(st, p).selected, p) == Selection(st.routes, p)
    ensures forall q | q != p :: Lookup(Reselected(st, p).selected, q) == Lookup(st.selected, q)
  {
    var next := Reselected(st, p);
    forall q | q !in rest ensures Current(next, q) && Committed(next, q) {
      if q != p {
        assert q !in [p] + rest;
        assert Current(st, q) && Committed(st, q);
      }
    }
  }

  lemma {:induction false} ReselectAllRepairs(st: State, ps: seq<Prefix>)
    requires InvExcept(st, ps)
    ensures Inv(ReselectedAll(st, ps))
    ensures ReplayAll(st.selected, ReselectChanges(st, ps)) == ReselectedAll(st, ps).selected
    decreases ps
  {
    if ps != [] {
      var p, next := ps[0], Reselected(st, ps[0]);
      assert ps == [p] + ps[1..];
      ReselectRepairs(st, p, ps[1..]);
      ReselectAllRepairs(next, ps[1..]);
      ReplayOneDiff(st.selected, p, Selection(st.routes, p));
      ReplayAppend(st.selected, Listed(ReselectChange(st, p)), ReselectChanges(next, ps[1..]));
      OneReselect(st, p);
    }
  }

  lemma OneReselect(st: State, p: Prefix)
    ensures ReplayAll(st.selected, Listed(ReselectChange(st, p))) == Reselected(st, p).selected
  {
    var view := ReplayAll(st.selected, Listed(ReselectChange(st, p)));
    ReplayOneDiff(st.selected, p, Selection(st.routes, p));
    var c := ReselectChange(st, p);
    ReplayListed(st.selected, c);
    forall q ensures Lookup(view, q) == Lookup(Reselected(st, p).selected, q) {
      if q != p { assert Lookup(view, q) == Lookup(st.selected, q); }
    }
    SameLookups(view, Reselected(st, p).selected);
  }

  /** Every operation keeps the invariant, and its events rebuild the new selection. */
  lemma StepKeepsInv(st: State, op: Op)
    requires Inv(st)
    ensures Inv(Step(st, op))
    ensures ReplayAll(st.selected, ChangesOf(st, op)) == Step(st, op).selected
  {
    var mid := st.(routes := RoutesAfter(st, op));
    forall p | p !in Touched(st, op) ensures Current(mid, p) && Committed(mid, p) {
      assert Current(st, p) && Committed(st, p);
      UntouchedRoutes(st, op, p);
      SelectionIsLocal(st.routes, mid.routes, p);
      if p in st.selected {
        var k := st.selected[p].key;
        assert Lookup(st.routes, k) == Lookup(mid.routes, k);
      }
    }
    ReselectAllRepairs(mid, Touched(st, op));
  }

  lemma UntouchedRoutes(st: State, op: Op, p: Prefix)
    requires p !in Touched(st, op)
    ensures forall k: RouteKey | k.prefix == p :: Lookup(st.routes, k) == Lookup(RoutesAfter(st, op), k)
  {
    forall k: RouteKey | k.prefix == p ensures Lookup(st.routes, k) == Lookup(RoutesAfter(st, op), k) {
      if op.Lost? && k in st.routes { assert k.neighbour != op.neighbour; }
    }
  }

  function Run(ops: seq<Op>): State {
    if ops == [] then State(map[], map[], map[]) else Step(Run(ops[..|ops| - 1]), ops[|ops| - 1])
  }

  ghost function RunChanges(ops: seq<Op>): seq<Change<Prefix, Choice>> {
    if ops == [] then [] else
      var front := ops[..|ops| - 1];
      RunChanges(front) + ChangesOf(Run(front), ops[|ops| - 1])
  }

  /** In every reachable state the remembered selection is the selection from scratch, each
      selected route's source has a distance it does not beat, and replaying every change
      emitted so far from an empty table rebuilds the selection. */
  lemma {:induction false} RunKeepsInv(ops: seq<Op>)
    ensures Inv(Run(ops))
    ensures ReplayAll(map[], RunChanges(ops)) == Run(ops).selected
  {
    if ops == [] {
      forall p ensures Selection(Run(ops).routes, p) == None { }
    } else {
      var front, op := ops[..|ops| - 1], ops[|ops| - 1];
      RunKeepsInv(front);
      StepKeepsInv(Run(front), op);
      ReplayAppend(map[], RunChanges(front), ChangesOf(Run(front), op));
    }
  }

  /** A second reselection changes nothing and reports nothing. */
  lemma ReselectIsIdempotent(st: State, p: Prefix)
    ensures Reselected(Reselected(st, p), p) == Reselected(st, p)
    ensures ReselectChange(Reselected(st, p), p) == None
  {
  }

  /** What "current" means: the remembered route is the eligible route of smallest metric,
      ties broken by key, with its next hop and metric; absent when nothing is eligible. */
  lemma CurrentMeaning(st: State, p: Prefix)
    requires Inv(st)
    ensures p in st.selected <==> exists k :: k in st.routes && Eligible(st.routes, p, k)
    ensures p in st.selected ==>
      var c := st.selected[p];
      IsBest(st.routes, p, c.key) && c == ChoiceAt(st.routes, c.key)
  {
    assert Current(st, p);
    assert Lookup(st.selected, p) == Selection(st.routes, p);
  }

  /** What the table does not keep: after losing a neighbour it may fall back to a route
      that its source's distance strictly beats, because feasibility is recorded on arrival
      and the distance has tightened since. */
  lemma FallbackMayBeInfeasible(p: Prefix, rid: Octets8, n1: IpAddr, n2: IpAddr)
    requires n1 != n2
    ensures
      var ops := [Offer(RouteKey(p, rid, n1), n1, 1, 100, 50), Offer(RouteKey(p, rid, n2), n2, 2, 100, 10), Lost(n2)];
      var st := Run(ops);
      && p in st.selected && st.selected[p].key == RouteKey(p, rid, n1)
      && Lookup(st.fds, Source(p, rid)) == Some(Fd(2, 100)) && StrictlyBetter(2, 100, Fd(1, 100))
  {
    var k1, k2, s := RouteKey(p, rid, n1), RouteKey(p, rid, n2), Source(p, rid);
    var o1, o2, o3 := Offer(k1, n1, 1, 100, 50), Offer(k2, n2, 2, 100, 10), Lost(n2);
    var ops := [o1, o2, o3];
    assert ops[..2] == [o1, o2] && [o1, o2][..1] == [o1] && [o1][..0] == [];
    var e1, e2 := RouteEntry(1, 100, 50, n1, true), RouteEntry(2, 100, 10, n2, true);
    var st0 := Run([]);
    OfferStep(st0, o1, e1, k1);
    var st1 := Run([o1]);
    OfferStep(st1, o2, e2, k2);
    var st2 := Run([o1, o2]);
    assert st2.routes == map[k1 := e1, k2 := e2] && st2.fds[s] == Fd(2, 100);
    LostStep(st2, k1, k2);
  }

  /** One offer that becomes the best route of its prefix. */
  lemma OfferStep(st: State, op: Op, e: RouteEntry, k: RouteKey)
    requires op.Offer? && op.key == k && op.advertised != INFINITY
    requires RoutesAfter(st, op)[k] == e && IsBest(RoutesAfter(st, op), k.prefix, k)
    ensures Step(st, op).routes == RoutesAfter(st, op)
    ensures Step(st, op).fds == Lowered(st.fds, Source(k.prefix, k.routerId), e.seqno, e.advertised)
  {
    var mid := st.(routes := RoutesAfter(st, op));
    BestIsUnique(mid.routes, k.prefix, k, Selection(mid.routes, k.prefix).value.key);
    OneReselected(mid, k.prefix);
  }

  lemma OneReselected(st: State, p: Prefix)
    ensures ReselectedAll(st, [p]) == Reselected(st, p)
  {
    assert ReselectedAll(Reselected(st, p), [p][1..]) == Reselected(st, p);
  }

  /** Losing the neighbour of one of two routes leaves the other selected. */
  lemma LostStep(st: State, k1: RouteKey, k2: RouteKey)
    requires k1.prefix == k2.prefix && k1.neighbour != k2.neighbour && st.routes.Keys == {k1, k2}
    requires st.routes[k1].feasible && st.routes[k1].Metric() < INFINITY
    ensures
      var next, e := Step(st, Lost(k2.neighbour)), st.routes[k1];
      && k1.prefix in next.selected && next.selected[k1.prefix].key == k1
      && next.fds == Lowered(st.fds, Source(k1.prefix, k1.routerId), e.seqno, e.advertised)
  {
    var op, p := Lost(k2.neighbour), k1.prefix;
    var mid := st.(routes := RoutesAfter(st, op));
    assert mid.routes.Keys == {k1};
    assert IsBest(mid.routes, p, k1);
    BestIsUnique(mid.routes, p, k1, Selection(mid.routes, p).value.key);
    var ps := Touched(st, op);
    assert k2 in st.routes && p in ps;
    assert (set k | k in st.routes && k.neighbour == k2.neighbour :: k.prefix) == {p};
    assert ps == [p];
    OneReselected(mid, p);
  }

  /** Of a prefix only its own reselection changes anything. */
  lemma OtherReselections(st: State, q: Prefix, p: Prefix)
    requires q != p
    ensures Lookup(Reselected(st, q).selected, p) == Lookup(st.selected, p)
    ensures forall s: Source | s.prefix == p :: Lookup(Reselected(st, q).fds, s) == Lookup(st.fds, s)
    ensures Reselected(st, q).routes == st.routes
  {
  }

  lemma {:induction false} Unreselected(st: State, ps: seq<Prefix>, p: Prefix)
    requires p !in ps
    ensures Lookup(ReselectedAll(st, ps).selected, p) == Lookup(st.selected, p)
    ensures forall s: Source | s.prefix == p :: Lookup(ReselectedAll(st, ps).fds, s) == Lookup(st.fds, s)
    decreases ps
  {
    if ps != [] {
      OtherReselections(st, ps[0], p);
      Unreselected(Reselected(st, ps[0]), ps[1..], p);
    }
  }

  lemma {:induction false} ReselectedOnce(st: State, ps: seq<Prefix>, p: Prefix, c: Choice)
    requires Distinct(ps) && p in ps && Selection(st.routes, p) == Some(c)
    ensures
      var next, e := ReselectedAll(st, ps), st.routes[c.key];
      && Lookup(next.selected, p) == Some(c)
      && Lookup(next.fds, SourceOf(c)) == Lookup(Lowered(st.fds, SourceOf(c), e.seqno, e.advertised), SourceOf(c))
    decreases ps
  {
    if ps[0] == p {
      Unreselected(Reselected(st, p), ps[1..], p);
    } else {
      OtherReselections(st, ps[0], p);
      ReselectedOnce(Reselected(st, ps[0]), ps[1..], p, c);
    }
  }

  /** What an operation selects stands at its source's distance exactly when the source was
      unknown or the route is as good as the distance was before. It is strictly beaten, an
      infeasible fallback, exactly when the distance before strictly beat it. */
  lemma SelectedRouteMeetsItsDistance(st: State, op: Op, p: Prefix, c: Choice)
    requires p in Touched(st, op) && Selection(RoutesAfter(st, op), p) == Some(c)
    ensures
      var next, e, s := Step(st, op), RoutesAfter(st, op)[c.key], SourceOf(c);
      var was, route := Lookup(st.fds, s), Fd(e.seqno, e.advertised);
      && Lookup(next.selected, p) == Some(c) && s in next.fds
      && (next.fds[s] == route <==>
          was.None? || was.value == route || StrictlyBetter(route.seqno, route.metric, was.value))
      && (StrictlyBetter(next.fds[s].seqno, next.fds[s].metric, route) <==>
          was.Some? && StrictlyBetter(was.value.seqno, was.value.metric, route))
  {
    ReselectedOnce(st.(routes := RoutesAfter(st, op)), Touched(st, op), p, c);
    var e, s := RoutesAfter(st, op)[c.key], SourceOf(c);
    if s in st.fds { BetterIsAsymmetric(st.fds[s], Fd(e.seqno, e.advertised)); }
  }

  lemma BetterIsAsymmetric(a: Fd, b: Fd)
    ensures !(StrictlyBetter(a.seqno, a.metric, b) && StrictlyBetter(b.seqno, b.metric, a))
  {
  }

  // ---- The feasibility-distance ratchet --------------------------------------------------------

  /** The place of a sequence number in the window that opens at `base`. */
  function Unwrap(base: u16, seqno: u16): nat {
    (seqno - base) % 0x1_0000
  }

  predicate InWindow(base: u16, seqno: u16) {
    Unwrap(base, seqno) <= 32767
  }

  /** Inside a window of 32767, circular recency is the integer order. */
  lemma SeqnoOrderInWindow(base: u16, a: u16, b: u16)
    requires InWindow(base, a) && InWindow(base, b)
    ensures SeqnoNewer(a, b) <==> Unwrap(base, a) > Unwrap(base, b)
    ensures a == b <==> Unwrap(base, a) == Unwrap(base, b)
  {
  }

  /** Recency passes through a middle number exactly when the two steps together stay below
      half of the circle. */
  lemma SeqnoRecencyIsTransitive(a: u16, b: u16, c: u16)
    requires SeqnoNewer(a, b) && SeqnoNewer(b, c)
    ensures SeqnoNewer(a, c) <==> Unwrap(b, a) + Unwrap(c, b) < 0x8000
  {
  }

  /** Beyond that it may even run in a circle. */
  lemma SeqnoRecencyMayCycle()
    ensures SeqnoNewer(20000, 0) && SeqnoNewer(40000, 20000) && SeqnoNewer(0, 40000)
  {
  }

  /** `a` is a later distance than `b` in integer order, or the same one. */
  predicate Ratcheted(base: u16, b: Fd, a: Fd) {
    || a == b
    || Unwrap(base, a.seqno) > Unwrap(base, b.seqno)
    || (a.seqno == b.seqno && a.metric < b.metric)
  }

  ghost predicate FdsRatcheted(base: u16, was: Fds, now: Fds) {
    forall s | s in was :: s in now && Ratcheted(base, was[s], now[s])
  }

  /** Every sequence number the table holds lies in the window. */
  ghost predicate WithinWindow(base: u16, st: State) {
    && (forall s | s in st.fds :: InWindow(base, st.fds[s].seqno))
    && (forall k | k in st.routes :: InWindow(base, st.routes[k].seqno))
  }

  predicate OpInWindow(base: u16, op: Op) {
    op.Offer? && op.advertised != INFINITY ==> InWindow(base, op.seqno)
  }

  lemma LoweredRatchets(base: u16, fds: Fds, s: Source, seqno: u16, metric: u16)
    requires InWindow(base, seqno) && forall t | t in fds :: InWindow(base, fds[t].seqno)
    ensures FdsRatcheted(base, fds, Lowered(fds, s, seqno, metric))
    ensures forall t | t in Lowered(fds, s, seqno, metric) :: InWindow(base, Lowered(fds, s, seqno, metric)[t].seqno)
  {
    if s in fds { SeqnoOrderInWindow(base, seqno, fds[s].seqno); }
  }

  lemma RatchetedTransitive(base: u16, x: Fds, y: Fds, z: Fds)
    requires FdsRatcheted(base, x, y) && FdsRatcheted(base, y, z)
    ensures FdsRatcheted(base, x, z)
  {
    forall s | s in x ensures s in z && Ratcheted(base, x[s], z[s]) {
      assert Ratcheted(base, x[s], y[s]) && Ratcheted(base, y[s], z[s]);
    }
  }

  lemma {:induction false} ReselectAllRatchets(base: u16, st: State, ps: seq<Prefix>)
    requires WithinWindow(base, st)
    ensures WithinWindow(base, ReselectedAll(st, ps))
    ensures FdsRatcheted(base, st.fds, ReselectedAll(st, ps).fds)
    decreases ps
  {
    if ps != [] {
      var c := Selection(st.routes, ps[0]);
      var next := Reselected(st, ps[0]);
      if c.Some? {
        var e := st.routes[c.value.key];
        LoweredRatchets(base, st.fds, SourceOf(c.value), e.seqno, e.advertised);
      }
      ReselectAllRatchets(base, next, ps[1..]);
      RatchetedTransitive(base, st.fds, next.fds, ReselectedAll(st, ps).fds);
    }
  }

  lemma StepRatchets(base: u16, st: State, op: Op)
    requires WithinWindow(base, st) && OpInWindow(base, op)
    ensures WithinWindow(base, Step(st, op)) && FdsRatcheted(base, st.fds, Step(st, op).fds)
  {
    var mid := st.(routes := RoutesAfter(st, op));
    assert WithinWindow(base, mid);
    ReselectAllRatchets(base, mid, Touched(st, op));
  }

  lemma StepKeepsWindow(base: u16, st: State, op: Op)
    requires WithinWindow(base, st) && OpInWindow(base, op)
    ensures WithinWindow(base, Step(st, op))
  {
    StepRatchets(base, st, op);
  }

  /** What holds at the start and is kept by every step of a run holds at its end. */
  lemma {:induction false} HoldsThroughout(ops: seq<Op>, run: seq<Op> -> State, step: (State, Op) -> State, holds: State -> bool)
    requires holds(run([]))
    requires forall s: seq<Op> {:trigger run(s)} | s != [] :: run(s) == step(run(s[..|s| - 1]), s[|s| - 1])
    requires forall st, op {:trigger step(st, op)} | op in ops && holds(st) :: holds(step(st, op))
    ensures holds(run(ops))
  {
    if ops != [] {
      assert forall op | op in ops[..|ops| - 1] :: op in ops;
      HoldsThroughout(ops[..|ops| - 1], run, step, holds);
      assert run(ops) == step(run(ops[..|ops| - 1]), ops[|ops| - 1]);
    }
  }

  lemma RunWithinWindow(base: u16, ops: seq<Op>)
    requires forall op | op in ops :: OpInWindow(base, op)
    ensures WithinWindow(base, Run(ops))
  {
    var holds := st => WithinWindow(base, st);
    forall st, op | op in ops && holds(st) ensures holds(Step(st, op)) {
      StepKeepsWindow(base, st, op);
    }
    HoldsThroughout(ops, Run, Step, holds);
  }

  /** Over any run whose sequence numbers stay within one window, a source once known stays
      known, and between any two moments its distance is unchanged or strictly improved:
      a higher sequence number, or the same one and a lower metric. */
  lemma DistancesOnlyImprove(base: u16, ops: seq<Op>, i: nat, j: nat)
    requires i <= j <= |ops| && forall op | op in ops :: OpInWindow(base, op)
    ensures FdsRatcheted(base, Run(ops[..i]).fds, Run(ops[..j]).fds)
  {
    var chain := seq(|ops| + 1, n requires 0 <= n <= |ops| => Run(ops[..n]).fds);
    forall n | 0 <= n < |ops| ensures FdsRatcheted(base, chain[n], chain[n + 1]) {
      assert ops[..n + 1][..n] == ops[..n];
      forall o | o in ops[..n] ensures OpInWindow(base, o) { assert o in ops; }
      RunWithinWindow(base, ops[..n]);
      StepRatchets(base, Run(ops[..n]), ops[n]);
    }
    RatchetChain(base, chain, i, j);
  }

  lemma {:induction false} RatchetChain(base: u16, chain: seq<Fds>, i: nat, j: nat)
    requires i <= j < |chain|
    requires forall n | 0 <= n < |chain| - 1 :: FdsRatcheted(base, chain[n], chain[n + 1])
    ensures FdsRatcheted(base, chain[i], chain[j])
    decreases j
  {
    if i < j {
      RatchetChain(base, chain, i, j - 1);
      var n := j - 1;
      assert FdsRatcheted(base, chain[n], chain[n + 1]);
      RatchetedTransitive(base, chain[i], chain[n], chain[j]);
    }
  }

  // ---- Events ------------------------------------------------------------------------------------

  datatype BabelEvent =
    | Select(prefix: Prefix, nextHop: IpAddr, metric: u16)
    | Retract(prefix: Prefix)

  type Visible = map<Prefix, (IpAddr, u16)>

  function Emit(c: Change<Prefix, Choice>): BabelEvent {
    match c
    case Best(p, choice) => Select(p, choice.nextHop, choice.metric)
    case Withdrawn(p) => Retract(p)
  }

  ghost function EmitAll(cs: seq<Change<Prefix, Choice>>): seq<BabelEvent> {
    if cs == [] then [] else EmitAll(cs[..|cs| - 1]) + [Emit(cs[|cs| - 1])]
  }

  /** What the table shows: next hop and metric. */
  ghost function VisibleOf(selected: map<Prefix, Choice>): Visible {
    map p | p in selected :: (selected[p].nextHop, selected[p].metric)
  }

  ghost function ReplayEvents(view: Visible, evs: seq<BabelEvent>): Visible {
    if evs == [] then view else
      var before := ReplayEvents(view, evs[..|evs| - 1]);
      match evs[|evs| - 1]
      case Select(p, nh, m) => before[p := (nh, m)]
      case Retract(p) => before - {p}
  }

  lemma {:induction false} EventsReplayChanges(selected: map<Prefix, Choice>, cs: seq<Change<Prefix, Choice>>)
    ensures ReplayEvents(VisibleOf(selected), EmitAll(cs)) == VisibleOf(ReplayAll(selected, cs))
  {
    if cs != [] {
      var front, evs := cs[..|cs| - 1], EmitAll(cs);
      assert evs[..|evs| - 1] == EmitAll(front);
      EventsReplayChanges(selected, front);
    }
  }

  /** Replaying the events of a whole run from empty gives the routes the table shows. */
  lemma EventStreamRebuildsSelection(ops: seq<Op>)
    ensures ReplayEvents(map[], EmitAll(RunChanges(ops))) == VisibleOf(Run(ops).selected)
  {
    RunKeepsInv(ops);
    EventsReplayChanges(map[], RunChanges(ops));
    assert VisibleOf(map[]) == map[];
  }

  lemma EmitStep(cs: seq<Change<Prefix, Choice>>, c: Option<Change<Prefix, Choice>>)
    ensures EmitAll(cs + Listed(c)) == EmitAll(cs) + if c.Some? then [Emit(c.value)] else []
  {
    if c.Some? {
      assert (cs + Listed(c))[..|cs|] == cs;
    } else {
      assert cs + Listed(c) == cs;
    }
  }

  // ---- The tables as objects -----------------------------------------------------------------------

  class SourceTable {
    var fds: Fds

    constructor ()
      ensures fds == map[]
    {
      fds := map[];
    }

    /** `SourceTable::update`: never raises the distance of one sequence number. */
    method Update(s: Source, seqno: u16, metric: u16)
      modifies this
      ensures fds == Lowered(old(fds), s, seqno, metric)
    {
      if metric == INFINITY {
        return;
      }
      var better := s !in fds || StrictlyBetter(seqno, metric, fds[s]);
      if better {
        fds := fds[s := Fd(seqno, metric)];
      }
    }
  }

  class RouteTable {
    const sources: SourceTable
    var routes: Routes
    var selected: map<Prefix, Choice>

    ghost function View(): State
      reads this, sources
    {
      State(sources.fds, routes, selected)
    }

    constructor ()
      ensures View() == Run([]) && fresh(sources)
    {
      sources := new SourceTable();
      routes, selected := map[], map[];
    }

    method Reselect(p: Prefix) returns (ev: Option<BabelEvent>)
      modifies this`selected, sources
      ensures View() == Reselected(old(View()), p)
      ensures ev == match ReselectChange(old(View()), p) case None => None case Some(c) => Some(Emit(c))
    {
      var best := FindBest(routes, p);
      match best
      case Some(k) =>
        var entry := routes[k];
        sources.Update(Source(k.prefix, k.routerId), entry.seqno, entry.advertised);
        var now := Choice(k, entry.nextHop, entry.Metric());
        if p in selected && selected[p] == now {
          assert selected[p := now] == selected;
          ev := None;
        } else {
          selected := selected[p := now];
          ev := Some(Select(p, entry.nextHop, entry.Metric()));
        }
      case None =>
        if p in selected {
          selected := selected - {p};
          ev := Some(Retract(p));
        } else {
          assert selected - {p} == selected;
          ev := None;
        }
    }

    method Update(key: RouteKey, nextHop: IpAddr, seqno: u16, advertised: u16, cost: u16)
      returns (ev: Option<BabelEvent>)
      modifies this, sources
      ensures View() == Step(old(View()), Offer(key, nextHop, seqno, advertised, cost))
      ensures (if ev.Some? then [ev.value] else [])
           == EmitAll(ChangesOf(old(View()), Offer(key, nextHop, seqno, advertised, cost)))
    {
      ghost var before, op := View(), Offer(key, nextHop, seqno, advertised, cost);
      if advertised == INFINITY {
        routes := routes - {key};
      } else {
        var feasible := (key.prefix in selected && selected[key.prefix].key == key) ||
                        IsFeasible(sources.fds, Source(key.prefix, key.routerId), seqno, advertised);
        routes := routes[key := RouteEntry(seqno, advertised, cost, nextHop, feasible)];
      }
      assert View() == before.(routes := RoutesAfter(before, op));
      OneOffer(before, op);
      ev := Reselect(key.prefix);
    }

    method NeighbourLost(neighbour: IpAddr) returns (events: seq<BabelEvent>)
      modifies this, sources
      ensures View() == Step(old(View()), Lost(neighbour))
      ensures events == EmitAll(ChangesOf(old(View()), Lost(neighbour)))
    {
      PrefixRankInjective();
      var affected := Ascending((set k | k in routes && k.neighbour == neighbour :: k.prefix), PrefixRank);
      routes := map k | k in routes && k.neighbour != neighbour :: routes[k];
      assert View() == old(View()).(routes := RoutesAfter(old(View()), Lost(neighbour)));
      events := ReselectEach(affected);
    }

    /** Reselect some prefixes in order, collecting the events. */
    method ReselectEach(ps: seq<Prefix>) returns (events: seq<BabelEvent>)
      modifies this`selected, sources
      ensures View() == ReselectedAll(old(View()), ps)
      ensures events == EmitAll(ReselectChanges(old(View()), ps))
    {
      ghost var target, total := ReselectedAll(View(), ps), ReselectChanges(View(), ps);
      events := [];
      ghost var changes := [];
      for i := 0 to |ps|
        invariant ReselectedAll(View(), ps[i..]) == target
        invariant changes + ReselectChanges(View(), ps[i..]) == total
        invariant events == EmitAll(changes)
      {
        UnrollReselect(View(), ps, i, changes);
        EmitStep(changes, ReselectChange(View(), ps[i]));
        changes := changes + Listed(ReselectChange(View(), ps[i]));
        var ev := Reselect(ps[i]);
        if ev.Some? {
          events := events + [ev.value];
        }
      }
      assert ps[|ps|..] == [];
      assert changes == total;
    }
  }

  /** An offer reselects the one prefix it is for. */
  lemma OneOffer(st: State, op: Op)
    requires op.Offer?
    ensures
      var mid, p := st.(routes := RoutesAfter(st, op)), op.key.prefix;
      && Step(st, op) == Reselected(mid, p)
      && EmitAll(ChangesOf(st, op)) ==
          match ReselectChange(mid, p) { case None => [] case Some(c) => [Emit(c)] }
  {
    var mid, p := st.(routes := RoutesAfter(st, op)), op.key.prefix;
    OneReselected(mid, p);
    assert ReselectChanges(Reselected(mid, p), [p][1..]) == [];
    assert ChangesOf(st, op) == [] + Listed(ReselectChange(mid, p));
    EmitStep([], ReselectChange(mid, p));
  }

  lemma UnrollReselect(st: State, ps: seq<Prefix>, i: nat, changes: seq<Change<Prefix, Choice>>)
    requires i < |ps|
    ensures ReselectedAll(st, ps[i..]) == ReselectedAll(Reselected(st, ps[i]), ps[i + 1..])
    ensures changes + ReselectChanges(st, ps[i..])
         == changes + Listed(ReselectChange(st, ps[i])) + ReselectChanges(Reselected(st, ps[i]), ps[i + 1..])
  {
    assert ps[i..][1..] == ps[i + 1..] && ps[i..][0] == ps[i];
  }
}
