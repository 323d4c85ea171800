/** One EVPN instance's imported view (`evpn_rib.rs`): remote MACs with their owners and MAC
    mobility (section 7.7 of RFC 7432), and the flood set of remote VTEPs. */
module Evpn {
  import opened Wrappers
  import opened Net
  import opened ByteOrder
  import opened Incremental
  import opened Decision

  type Octets6 = b: Bytes | |b| == 6 witness [0, 0, 0, 0, 0, 0]

  datatype Nlri =
    | MacIp(rd: Octets8, esi: Bytes, ethTag: u32, mac: Octets6, ip: Option<IpAddr>, label1: u32, label2: Option<u32>)
    | Imet(rd: Octets8, imetTag: u32, origIp: IpAddr)
    | IpPrefix(rd: Octets8, esi: Bytes, prefixTag: u32, prefix: Network, gw: IpAddr, l3Vni: u32)
    | OtherRoute(routeType: u8, body: Bytes)

  /** `EvpnRibEvent`. */
  type Event = Change<Nlri, Path>

  datatype MacKey = MacKey(ethTag: u32, mac: Octets6)

  datatype RemoteMac = RemoteMac(
    vtep: IpAddr, vni: u32, ip: Option<IpAddr>, srv6Sid: Option<Octets16>, routerMac: Option<Octets6>)

  datatype Mobility = Mobility(sequence: u32, sticky: bool)

  // ---- Extended communities ------------------------------------------------------------------

  /** The first EVPN community (type 6) of a sub-type. */
  function FindEvpn(ecs: seq<Octets8>, subtype: u8): (r: Option<Octets8>)
    ensures r.Some? ==> r.value in ecs && r.value[0] == 6 && r.value[1] == subtype
    ensures r.None? ==> forall ec | ec in ecs :: !(ec[0] == 6 && ec[1] == subtype)
  {
    if ecs == [] then None
    else if ecs[0][0] == 6 && ecs[0][1] == subtype then Some(ecs[0])
    else FindEvpn(ecs[1..], subtype)
  }

  /** `mac_mobility`: sub-type 0, the sticky bit in the flags octet, the sequence number last. */
  function MobilityOf(p: Path): Option<Mobility> {
    match FindEvpn(p.extCommunities, 0)
    case None => None
    case Some(ec) => Some(Mobility(U32At(ec, 4), ec[2] % 2 == 1))
  }

  /** `router_mac`: sub-type 3. */
  function RouterMacOf(p: Path): Option<Octets6> {
    match FindEvpn(p.extCommunities, 3)
    case None => None
    case Some(ec) => Some(ec[2..8])
  }

  function BuildRouterMac(mac: Octets6): Octets8 {
    [6, 3] + mac
  }

  lemma RouterMacReadsBack(p: Path, mac: Octets6)
    ensures RouterMacOf(p.(extCommunities := [BuildRouterMac(mac)] + p.extCommunities)) == Some(mac)
  {
    assert BuildRouterMac(mac)[2..8] == mac;
  }

  function MobilityCommunity(m: Mobility, reserved: u8): Octets8 {
    [6, 0, One(m.sticky), reserved] + Be32(m.sequence)
  }

  lemma MobilityReadsBack(p: Path, m: Mobility, reserved: u8)
    ensures MobilityOf(p.(extCommunities := [MobilityCommunity(m, reserved)] + p.extCommunities)) == Some(m)
  {
    var ec := MobilityCommunity(m, reserved);
    assert ec[4..8] == Be32(m.sequence);
    U32RoundTrip(ec, 4, m.sequence);
  }

  // ---- The view ------------------------------------------------------------------------------

  /** What is held for one MAC: its forwarding entry, the route behind it, its mobility. */
  datatype MacSlot = MacSlot(entry: RemoteMac, owner: Nlri, mobility: Option<Mobility>) {
    /** Without a community the sequence counts as 0. */
    function Sequence(): u32 {
      if mobility.Some? then mobility.value.sequence else 0
    }

    predicate Sticky() {
      mobility.Some? && mobility.value.sticky
    }
  }

  datatype VtepSlot = VtepSlot(sid: Option<Octets16>, owner: Nlri)

  datatype View = View(macs: map<MacKey, MacSlot>, vteps: map<IpAddr, VtepSlot>)

  function KeyOf(n: Nlri): MacKey
    requires n.MacIp?
  {
    MacKey(n.ethTag, n.mac)
  }

  /** What a MAC/IP route offers. */
  function Offer(n: Nlri, p: Path): MacSlot
    requires n.MacIp?
  {
    MacSlot(RemoteMac(p.nextHop, n.label1, n.ip, p.srv6Sid, RouterMacOf(p)), n, MobilityOf(p))
  }

  /** `imports`: some Route Target is imported. */
  predicate Imports(rts: seq<Octets8>, p: Path) {
    exists ec :: ec in p.extCommunities && ec in rts
  }

  /** Two explicit equal sequences that point to different VTEPs. */
  predicate Duplicate(cur: MacSlot, offer: MacSlot) {
    && cur.mobility.Some? && offer.mobility.Some?
    && offer.Sequence() == cur.Sequence() && cur.entry.vtep != offer.entry.vtep
  }

  /** Why a different advertiser does not take a MAC over: a lower sequence, a static MAC, or
      a duplicate of equal sequence elsewhere. */
  predicate Refuses(cur: MacSlot, offer: MacSlot) {
    || offer.Sequence() < cur.Sequence()
    || (cur.Sticky() && !offer.Sticky())
    || Duplicate(cur, offer)
  }

  predicate Blocked(macs: map<MacKey, MacSlot>, k: MacKey, offer: MacSlot) {
    k in macs && macs[k].owner != offer.owner && Refuses(macs[k], offer)
  }

  function Learn(v: View, n: Nlri, p: Path): View {
    match n
    case MacIp(_, _, _, _, _, _, _) =>
      if Blocked(v.macs, KeyOf(n), Offer(n, p)) then v else v.(macs := v.macs[KeyOf(n) := Offer(n, p)])
    case Imet(_, _, orig) => v.(vteps := v.vteps[orig := VtepSlot(p.srv6Sid, n)])
    case _ => v
  }

  /** `remove_if_owner`. */
  function Drop(v: View, n: Nlri): View {
    match n
    case MacIp(_, _, _, _, _, _, _) =>
      if KeyOf(n) in v.macs && v.macs[KeyOf(n)].owner == n then v.(macs := v.macs - {KeyOf(n)}) else v
    case Imet(_, _, orig) =>
      if orig in v.vteps && v.vteps[orig].owner == n then v.(vteps := v.vteps - {orig}) else v
    case _ => v
  }

  function Subject(ev: Event): Nlri {
    ev.key
  }

  /** The path an event leaves its route with, as this instance sees it. */
  function Said(ev: Event, rts: seq<Octets8>): Option<Path> {
    match ev
    case Best(_, p) => if Imports(rts, p) then Some(p) else None
    case Withdrawn(_) => None
  }

  /** `apply`. A route that leaves the import set counts as withdrawn. */
  function Step(v: View, ev: Event, rts: seq<Octets8>): View {
    match Said(ev, rts)
    case Some(p) => Learn(v, Subject(ev), p)
    case None => Drop(v, Subject(ev))
  }

  function Run(events: seq<Event>, rts: seq<Octets8>): View {
    if events == [] then View(map[], map[])
    else Step(Run(events[..|events| - 1], rts), events[|events| - 1], rts)
  }

  // ---- Ownership -------------------------------------------------------------------------------

  /** The last thing said about a route. */
  function LastSaid(events: seq<Event>, n: Nlri, rts: seq<Octets8>): Option<Path> {
    if events == [] then None
    else if Subject(events[|events| - 1]) == n then Said(events[|events| - 1], rts)
    else LastSaid(events[..|events| - 1], n, rts)
  }

  /** An entry of the MAC table mirrors what `says` says its owner last said. */
  ghost predicate MacBacked(k: MacKey, s: MacSlot, says: Nlri -> Option<Path>) {
    s.owner.MacIp? && KeyOf(s.owner) == k && says(s.owner).Some? && s == Offer(s.owner, says(s.owner).value)
  }

  ghost predicate VtepBacked(a: IpAddr, s: VtepSlot, says: Nlri -> Option<Path>) {
    s.owner.Imet? && s.owner.origIp == a && says(s.owner).Some? && s.sid == says(s.owner).value.srv6Sid
  }

  ghost predicate Backed(v: View, says: Nlri -> Option<Path>) {
    && (forall k | k in v.macs :: MacBacked(k, v.macs[k], says))
    && (forall a | a in v.vteps :: VtepBacked(a, v.vteps[a], says))
  }

  lemma StepKeepsBacked(v: View, ev: Event, rts: seq<Octets8>, says: Nlri -> Option<Path>, now: Nlri -> Option<Path>)
    requires Backed(v, says)
    requires forall n :: now(n) == if n == Subject(ev) then Said(ev, rts) else says(n)
    ensures Backed(Step(v, ev, rts), now)
  {
    var next := Step(v, ev, rts);
    forall k | k in next.macs ensures MacBacked(k, next.macs[k], now) {
      StepKeepsMacBacked(v, ev, rts, says, now, k);
    }
    forall a | a in next.vteps ensures VtepBacked(a, next.vteps[a], now) {
      StepKeepsVtepBacked(v, ev, rts, says, now, a);
    }
  }

  lemma StepKeepsMacBacked(v: View, ev: Event, rts: seq<Octets8>,
                           says: Nlri -> Option<Path>, now: Nlri -> Option<Path>, k: MacKey)
    requires k in v.macs ==> MacBacked(k, v.macs[k], says)
    requires forall n :: now(n) == if n == Subject(ev) then Said(ev, rts) else says(n)
    requires k in Step(v, ev, rts).macs
    ensures MacBacked(k, Step(v, ev, rts).macs[k], now)
  {
    var o := Step(v, ev, rts).macs[k].owner;
    assert now(o) == if o == Subject(ev) then Said(ev, rts) else says(o);
  }

  lemma StepKeepsVtepBacked(v: View, ev: Event, rts: seq<Octets8>,
                            says: Nlri -> Option<Path>, now: Nlri -> Option<Path>, a: IpAddr)
    requires a in v.vteps ==> VtepBacked(a, v.vteps[a], says)
    requires forall n :: now(n) == if n == Subject(ev) then Said(ev, rts) else says(n)
    requires a in Step(v, ev, rts).vteps
    ensures VtepBacked(a, Step(v, ev, rts).vteps[a], now)
  {
    var o := Step(v, ev, rts).vteps[a].owner;
    assert now(o) == if o == Subject(ev) then Said(ev, rts) else says(o);
  }

  function Sayings(events: seq<Event>, rts: seq<Octets8>): Nlri -> Option<Path> {
    n => LastSaid(events, n, rts)
  }

  /** After any run every entry names a route for its own key, and is what that route's last
      announcement offers: an owner that moved on or was withdrawn leaves nothing behind. */
  lemma {:induction false} EntriesMirrorTheirOwners(events: seq<Event>, rts: seq<Octets8>)
    ensures Backed(Run(events, rts), Sayings(events, rts))
  {
    if events != [] {
      var front, last := events[..|events| - 1], events[|events| - 1];
      EntriesMirrorTheirOwners(front, rts);
      StepKeepsBacked(Run(front, rts), last, rts, Sayings(front, rts), Sayings(events, rts));
    }
  }

  // ---- Mobility --------------------------------------------------------------------------------

  /** What one event may do to one MAC: nothing, a removal by its owner, a first announcement,
      an update by its owner, or a takeover that mobility allows. */
  lemma OneMacStep(v: View, ev: Event, rts: seq<Octets8>, k: MacKey)
    requires forall j | j in v.macs :: v.macs[j].owner.MacIp? && KeyOf(v.macs[j].owner) == j
    ensures
      var next := Step(v, ev, rts);
      && (k in v.macs && k !in next.macs ==> Subject(ev) == v.macs[k].owner && Said(ev, rts).None?)
      && (k in next.macs && (k !in v.macs || next.macs[k] != v.macs[k]) ==>
            next.macs[k].owner == Subject(ev) && Said(ev, rts).Some?)
      && (k in v.macs && k in next.macs && next.macs[k].owner != v.macs[k].owner ==>
            && next.macs[k].Sequence() >= v.macs[k].Sequence()
            && (v.macs[k].Sticky() ==> next.macs[k].Sticky())
            && !Duplicate(v.macs[k], next.macs[k]))
  {
  }

  /** An event that is not the owner of `k` taking back its own word: it neither removes the
      MAC nor announces it with a lower sequence or without the sticky bit it had. */
  predicate KeepsWord(v: View, ev: Event, rts: seq<Octets8>, k: MacKey) {
    k in v.macs && Subject(ev) == v.macs[k].owner && Subject(ev).MacIp? ==>
      Said(ev, rts).Some?
      && var offer := Offer(Subject(ev), Said(ev, rts).value);
         offer.Sequence() >= v.macs[k].Sequence() && (v.macs[k].Sticky() ==> offer.Sticky())
  }

  ghost predicate NotBehind(was: MacSlot, now: MacSlot) {
    now.Sequence() >= was.Sequence() && (was.Sticky() ==> now.Sticky())
  }

  lemma OwnersNameTheirKeys(events: seq<Event>, rts: seq<Octets8>, k: MacKey)
    requires k in Run(events, rts).macs
    ensures var o := Run(events, rts).macs[k].owner; o.MacIp? && KeyOf(o) == k
  {
    EntriesMirrorTheirOwners(events, rts);
    assert MacBacked(k, Run(events, rts).macs[k], Sayings(events, rts));
  }

  /** Over any run in which each current owner keeps its word, a MAC once learned stays, its
      sequence never falls and it never stops being sticky, whoever owns it. */
  lemma {:induction false} MobilityNeverStepsBack(events: seq<Event>, n: nat, rts: seq<Octets8>, k: MacKey)
    requires n <= |events| && k in Run(events[..n], rts).macs
    requires forall i | n <= i < |events| :: KeepsWord(Run(events[..i], rts), events[i], rts, k)
    ensures k in Run(events, rts).macs && NotBehind(Run(events[..n], rts).macs[k], Run(events, rts).macs[k])
    decreases |events|
  {
    if n == |events| {
      assert events[..n] == events;
    } else {
      var front, last := events[..|events| - 1], events[|events| - 1];
      assert front[..n] == events[..n];
      forall i | n <= i < |front| ensures KeepsWord(Run(front[..i], rts), front[i], rts, k) {
        assert front[..i] == events[..i];
        assert KeepsWord(Run(events[..i], rts), events[i], rts, k);
      }
      MobilityNeverStepsBack(front, n, rts, k);
      assert KeepsWord(Run(events[..|front|], rts), events[|front|], rts, k);
      var v := Run(front, rts);
      forall j | j in v.macs ensures v.macs[j].owner.MacIp? && KeyOf(v.macs[j].owner) == j {
        OwnersNameTheirKeys(front, rts, j);
      }
      OneMacStep(v, last, rts, k);
    }
  }

  // ---- What the view is not --------------------------------------------------------------------

  /** The view depends on more than the routes that are now best: when the owner of a MAC is
      withdrawn, another route that lost to it does not come back. */
  lemma SurvivingRouteIsNotRestored(n1: Nlri, n2: Nlri, p: Path, rts: seq<Octets8>)
    requires n1.MacIp? && n2.MacIp? && n1 != n2 && KeyOf(n1) == KeyOf(n2)
    requires Imports(rts, p)
    ensures
      var short, long := [Best(n1, p)], [Best(n1, p), Best(n2, p), Withdrawn(n2)];
      && (forall n :: LastSaid(short, n, rts) == LastSaid(long, n, rts))
      && KeyOf(n1) in Run(short, rts).macs && KeyOf(n1) !in Run(long, rts).macs
  {
    var e1, e2, e3: Event := Best(n1, p), Best(n2, p), Withdrawn(n2);
    var short, long := [e1], [e1, e2, e3];
    assert short[..0] == [] && long[..2] == [e1, e2] && [e1, e2][..1] == [e1];
    assert Run([], rts) == View(map[], map[]);
    var v1 := Run(short, rts);
    assert v1 == Learn(Run([], rts), n1, p);
    var v2 := Run([e1, e2], rts);
    assert v2 == Learn(v1, n2, p);
    assert !Blocked(v1.macs, KeyOf(n2), Offer(n2, p));
    assert Run(long, rts) == Drop(v2, n2);
    forall n ensures LastSaid(short, n, rts) == LastSaid(long, n, rts) {
      assert LastSaid([], n, rts) == None;
      assert LastSaid(short, n, rts) == if n == n1 then Some(p) else None;
      assert LastSaid([e1, e2], n, rts) == if n == n2 then Some(p) else LastSaid([e1], n, rts);
    }
  }

  /** Some route for `k` is announced and imported. */
  ghost predicate Live(says: Nlri -> Option<Path>, k: MacKey) {
    exists n: Nlri :: n.MacIp? && KeyOf(n) == k && says(n).Some?
  }

  /** The view holds `k` exactly when some route for it is live. */
  ghost predicate Covered(v: View, says: Nlri -> Option<Path>, k: MacKey) {
    k in v.macs <==> Live(says, k)
  }

  /** The event takes away the owner of `k` while another route for `k` is live. */
  ghost predicate Orphans(v: View, ev: Event, rts: seq<Octets8>, says: Nlri -> Option<Path>, k: MacKey) {
    && Said(ev, rts).None? && k in v.macs && Subject(ev) == v.macs[k].owner
    && exists n: Nlri :: n != Subject(ev) && n.MacIp? && KeyOf(n) == k && says(n).Some?
  }

  /** One event keeps `k` covered exactly when it does not orphan it, which can be told before
      the event is applied. */
  lemma StepKeepsCovered(v: View, ev: Event, rts: seq<Octets8>, says: Nlri -> Option<Path>, now: Nlri -> Option<Path>, k: MacKey)
    requires Backed(v, says) && Covered(v, says, k)
    requires forall n :: now(n) == if n == Subject(ev) then Said(ev, rts) else says(n)
    ensures Covered(Step(v, ev, rts), now, k) <==> !Orphans(v, ev, rts, says, k)
  {
    var next, s := Step(v, ev, rts), Subject(ev);
    assert k in v.macs ==> MacBacked(k, v.macs[k], says);
    if k in next.macs {
      StepKeepsMacBacked(v, ev, rts, says, now, k);
      assert now(next.macs[k].owner).Some?;
    } else if Live(now, k) {
      var n: Nlri :| n.MacIp? && KeyOf(n) == k && now(n).Some?;
      assert n != s ==> says(n).Some?;
    }
    if Orphans(v, ev, rts, says, k) {
      var n: Nlri :| n != s && n.MacIp? && KeyOf(n) == k && says(n).Some?;
      assert now(n) == says(n);
    }
  }

  ghost predicate CoveredAt(events: seq<Event>, i: nat, rts: seq<Octets8>, k: MacKey)
    requires i <= |events|
  {
    Covered(Run(events[..i], rts), Sayings(events[..i], rts), k)
  }

  ghost predicate OrphansAt(events: seq<Event>, i: nat, rts: seq<Octets8>, k: MacKey)
    requires i < |events|
  {
    Orphans(Run(events[..i], rts), events[i], rts, Sayings(events[..i], rts), k)
  }

  lemma CoverageStep(events: seq<Event>, i: nat, rts: seq<Octets8>, k: MacKey)
    requires i < |events| && CoveredAt(events, i, rts, k)
    ensures CoveredAt(events, i + 1, rts, k) <==> !OrphansAt(events, i, rts, k)
  {
    var front, more := events[..i], events[..i + 1];
    assert more[..|more| - 1] == front && more[|more| - 1] == events[i];
    EntriesMirrorTheirOwners(front, rts);
    StepKeepsCovered(Run(front, rts), events[i], rts, Sayings(front, rts), Sayings(more, rts), k);
  }

  lemma {:induction false} CoveredUpTo(events: seq<Event>, n: nat, rts: seq<Octets8>, k: MacKey)
    requires n <= |events| && forall i: nat | i < n :: !OrphansAt(events, i, rts, k)
    ensures CoveredAt(events, n, rts, k)
  {
    if n == 0 {
      assert events[..0] == [];
    } else {
      CoveredUpTo(events, n - 1, rts, k);
      CoverageStep(events, n - 1, rts, k);
    }
  }

  /** Throughout a run the view holds `k` exactly while some route for it is live, if and only
      if no event of the run orphans it. */
  lemma ViewCoversLiveRoutes(events: seq<Event>, rts: seq<Octets8>, k: MacKey)
    ensures (forall i: nat | i <= |events| :: CoveredAt(events, i, rts, k))
       <==> (forall i: nat | i < |events| :: !OrphansAt(events, i, rts, k))
  {
    if forall i: nat | i < |events| :: !OrphansAt(events, i, rts, k) {
      forall i: nat | i <= |events| ensures CoveredAt(events, i, rts, k) { CoveredUpTo(events, i, rts, k); }
    } else {
      var i: nat :| i < |events| && OrphansAt(events, i, rts, k);
      if CoveredAt(events, i, rts, k) {
        CoverageStep(events, i, rts, k);
        assert !CoveredAt(events, i + 1, rts, k);
      }
    }
  }

  // ---- The changes a forwarding plane mirrors --------------------------------------------------

  datatype Forwarding = Forwarding(macs: map<MacKey, RemoteMac>, vteps: map<IpAddr, Option<Octets16>>)

  datatype EviChange =
    | MacLearned(key: MacKey, entry: RemoteMac)
    | MacForgotten(key: MacKey)
    | VtepAdded(vtep: IpAddr, sid: Option<Octets16>)
    | VtepRemoved(vtep: IpAddr)

  function Mirror(f: Forwarding, c: EviChange): Forwarding {
    match c
    case MacLearned(k, e) => f.(macs := f.macs[k := e])
    case MacForgotten(k) => f.(macs := f.macs - {k})
    case VtepAdded(a, sid) => f.(vteps := f.vteps[a := sid])
    case VtepRemoved(a) => f.(vteps := f.vteps - {a})
  }

  function Forwards(v: View): Forwarding {
    Forwarding(map k | k in v.macs :: v.macs[k].entry, map a | a in v.vteps :: v.vteps[a].sid)
  }

  /** The change `apply` returns. */
  function Reported(v: View, ev: Event, rts: seq<Octets8>): Option<EviChange> {
    var n := Subject(ev);
    match Said(ev, rts)
    case None =>
      if n.MacIp? && KeyOf(n) in v.macs && v.macs[KeyOf(n)].owner == n then Some(MacForgotten(KeyOf(n)))
      else if n.Imet? && n.origIp in v.vteps && v.vteps[n.origIp].owner == n then Some(VtepRemoved(n.origIp))
      else None
    case Some(p) =>
      if n.MacIp? then
        var k, offer := KeyOf(n), Offer(n, p);
        if Blocked(v.macs, k, offer) || (k in v.macs && v.macs[k].entry == offer.entry) then None
        else Some(MacLearned(k, offer.entry))
      else if n.Imet? then
        if n.origIp in v.vteps && v.vteps[n.origIp].sid == p.srv6Sid then None
        else Some(VtepAdded(n.origIp, p.srv6Sid))
      else None
  }

  lemma ForwardsLearnedMac(v: View, k: MacKey, s: MacSlot)
    ensures
      var before, after := Forwards(v), Forwards(v.(macs := v.macs[k := s]));
      && after == before.(macs := before.macs[k := s.entry])
      && (after == before <==> k in v.macs && v.macs[k].entry == s.entry)
  {
    var before, after := Forwards(v), Forwards(v.(macs := v.macs[k := s]));
    assert after.macs == before.macs[k := s.entry];
    assert after.macs[k] == s.entry;
  }

  lemma ForwardsForgottenMac(v: View, k: MacKey)
    requires k in v.macs
    ensures
      var before, after := Forwards(v), Forwards(v.(macs := v.macs - {k}));
      after == before.(macs := before.macs - {k}) && after != before
  {
    var before, after := Forwards(v), Forwards(v.(macs := v.macs - {k}));
    assert after.macs == before.macs - {k};
    assert k in before.macs && k !in after.macs;
  }

  lemma ForwardsAddedVtep(v: View, a: IpAddr, s: VtepSlot)
    ensures
      var before, after := Forwards(v), Forwards(v.(vteps := v.vteps[a := s]));
      && after == before.(vteps := before.vteps[a := s.sid])
      && (after == before <==> a in v.vteps && v.vteps[a].sid == s.sid)
  {
    var before, after := Forwards(v), Forwards(v.(vteps := v.vteps[a := s]));
    assert after.vteps == before.vteps[a := s.sid];
    assert after.vteps[a] == s.sid;
  }

  lemma ForwardsRemovedVtep(v: View, a: IpAddr)
    requires a in v.vteps
    ensures
      var before, after := Forwards(v), Forwards(v.(vteps := v.vteps - {a}));
      after == before.(vteps := before.vteps - {a}) && after != before
  {
    var before, after := Forwards(v), Forwards(v.(vteps := v.vteps - {a}));
    assert after.vteps == before.vteps - {a};
    assert a in before.vteps && a !in after.vteps;
  }

  /** Applying the reported change keeps a forwarding plane equal to the view, and a change is
      reported exactly when there is one. */
  lemma ChangeKeepsForwardingExact(v: View, ev: Event, rts: seq<Octets8>)
    ensures
      var c, before, after := Reported(v, ev, rts), Forwards(v), Forwards(Step(v, ev, rts));
      && after == (if c.Some? then Mirror(before, c.value) else before)
      && (c.Some? <==> after != before)
  {
    var n := Subject(ev);
    match Said(ev, rts)
    case None =>
      if n.MacIp? && KeyOf(n) in v.macs { ForwardsForgottenMac(v, KeyOf(n)); }
      if n.Imet? && n.origIp in v.vteps { ForwardsRemovedVtep(v, n.origIp); }
    case Some(p) =>
      if n.MacIp? { ForwardsLearnedMac(v, KeyOf(n), Offer(n, p)); }
      if n.Imet? { ForwardsAddedVtep(v, n.origIp, VtepSlot(p.srv6Sid, n)); }
  }

  function MirrorRun(events: seq<Event>, rts: seq<Octets8>): Forwarding {
    if events == [] then Forwarding(map[], map[])
    else
      var front := events[..|events| - 1];
      var c := Reported(Run(front, rts), events[|events| - 1], rts);
      if c.Some? then Mirror(MirrorRun(front, rts), c.value) else MirrorRun(front, rts)
  }

  /** Replaying every change from nothing rebuilds the MAC and VTEP tables. */
  lemma {:induction false} ChangesRebuildTheView(events: seq<Event>, rts: seq<Octets8>)
    ensures MirrorRun(events, rts) == Forwards(Run(events, rts))
  {
    if events != [] {
      var front := events[..|events| - 1];
      ChangesRebuildTheView(front, rts);
      ChangeKeepsForwardingExact(Run(front, rts), events[|events| - 1], rts);
    }
  }

  // ---- The table -------------------------------------------------------------------------------

  ghost function Slots(macs: map<MacKey, RemoteMac>, owners: map<MacKey, Nlri>,
                       mobility: map<MacKey, Option<Mobility>>): map<MacKey, MacSlot>
    requires macs.Keys == owners.Keys == mobility.Keys
  {
    map k | k in macs :: MacSlot(macs[k], owners[k], mobility[k])
  }

  ghost function VtepSlots(vteps: map<IpAddr, Option<Octets16>>, owners: map<IpAddr, Nlri>): map<IpAddr, VtepSlot>
    requires vteps.Keys == owners.Keys
  {
    map a | a in vteps :: VtepSlot(vteps[a], owners[a])
  }

  lemma SlotsInsert(macs: map<MacKey, RemoteMac>, owners: map<MacKey, Nlri>, mobility: map<MacKey, Option<Mobility>>,
                    k: MacKey, s: MacSlot)
    requires macs.Keys == owners.Keys == mobility.Keys
    ensures Slots(macs[k := s.entry], owners[k := s.owner], mobility[k := s.mobility]) == Slots(macs, owners, mobility)[k := s]
  {
  }

  lemma SlotsRemove(macs: map<MacKey, RemoteMac>, owners: map<MacKey, Nlri>, mobility: map<MacKey, Option<Mobility>>, k: MacKey)
    requires macs.Keys == owners.Keys == mobility.Keys
    ensures Slots(macs - {k}, owners - {k}, mobility - {k}) == Slots(macs, owners, mobility) - {k}
  {
  }

  lemma VtepInsert(vteps: map<IpAddr, Option<Octets16>>, owners: map<IpAddr, Nlri>, a: IpAddr, s: VtepSlot)
    requires vteps.Keys == owners.Keys
    ensures VtepSlots(vteps[a := s.sid], owners[a := s.owner]) == VtepSlots(vteps, owners)[a := s]
  {
  }

  lemma VtepRemove(vteps: map<IpAddr, Option<Octets16>>, owners: map<IpAddr, Nlri>, a: IpAddr)
    requires vteps.Keys == owners.Keys
    ensures VtepSlots(vteps - {a}, owners - {a}) == VtepSlots(vteps, owners) - {a}
  {
  }

  class EviTable {
    const importRts: seq<Octets8>
    var macs: map<MacKey, RemoteMac>
    var owners: map<MacKey, Nlri>
    var macMobility: map<MacKey, Option<Mobility>>
    var vteps: map<IpAddr, Option<Octets16>>
    var vtepOwners: map<IpAddr, Nlri>

    /** The three MAC maps share one domain, and so do the two VTEP maps. */
    ghost predicate Valid()
      reads this
    {
      macs.Keys == owners.Keys == macMobility.Keys && vteps.Keys == vtepOwners.Keys
    }

    ghost function Seen(): View
      reads this
      requires Valid()
    {
      View(Slots(macs, owners, macMobility), VtepSlots(vteps, vtepOwners))
    }

    constructor (rts: seq<Octets8>)
      ensures Valid() && Seen() == Run([], rts) && importRts == rts
    {
      importRts := rts;
      macs, owners, macMobility, vteps, vtepOwners := map[], map[], map[], map[], map[];
    }

    /** The mobility test of `apply` for an advertiser that is not the owner. */
    predicate MobilityBlocks(key: MacKey, mob: Option<Mobility>, nextHop: IpAddr)
      reads this
    {
      key in macMobility &&
        var cur := macMobility[key];
        var curSeq := if cur.Some? then cur.value.sequence else 0;
        var curSticky := cur.Some? && cur.value.sticky;
        var newSeq := if mob.Some? then mob.value.sequence else 0;
        var newSticky := mob.Some? && mob.value.sticky;
        var stale := newSeq < curSeq;
        var stickyBlock := curSticky && !newSticky;
        var duplicate := cur.Some? && mob.Some? && newSeq == curSeq && !(key in macs && macs[key].vtep == nextHop);
        stale || stickyBlock || duplicate
    }

    method LearnMac(nlri: Nlri, path: Path) returns (c: Option<EviChange>)
      requires Valid() && nlri.MacIp? && Imports(importRts, path)
      modifies this`macs, this`owners, this`macMobility
      ensures Valid() && Seen() == Learn(old(Seen()), nlri, path)
      ensures c == Reported(old(Seen()), Best(nlri, path), importRts)
    {
      var key, mob := KeyOf(nlri), MobilityOf(path);
      var sameOwner := key in owners && owners[key] == nlri;
      if !sameOwner && MobilityBlocks(key, mob, path.nextHop) {
        return None;
      }
      var entry := RemoteMac(path.nextHop, nlri.label1, nlri.ip, path.srv6Sid, RouterMacOf(path));
      var changed := !(key in macs && macs[key] == entry);
      SlotsInsert(macs, owners, macMobility, key, Offer(nlri, path));
      macs := macs[key := entry];
      owners := owners[key := nlri];
      macMobility := macMobility[key := mob];
      c := if changed then Some(MacLearned(key, entry)) else None;
    }

    method LearnVtep(nlri: Nlri, path: Path) returns (c: Option<EviChange>)
      requires Valid() && nlri.Imet? && Imports(importRts, path)
      modifies this`vteps, this`vtepOwners
      ensures Valid() && Seen() == Learn(old(Seen()), nlri, path)
      ensures c == Reported(old(Seen()), Best(nlri, path), importRts)
    {
      var orig, sid := nlri.origIp, path.srv6Sid;
      var changed := !(orig in vteps && vteps[orig] == sid);
      VtepInsert(vteps, vtepOwners, orig, VtepSlot(sid, nlri));
      vteps := vteps[orig := sid];
      vtepOwners := vtepOwners[orig := nlri];
      c := if changed then Some(VtepAdded(orig, sid)) else None;
    }

    method RemoveIfOwner(nlri: Nlri) returns (c: Option<EviChange>)
      requires Valid()
      modifies this
      ensures Valid() && Seen() == Drop(old(Seen()), nlri)
      ensures c == Reported(old(Seen()), Withdrawn(nlri), importRts)
    {
      if nlri.MacIp? {
        var key := KeyOf(nlri);
        if key in owners && owners[key] == nlri {
          SlotsRemove(macs, owners, macMobility, key);
          owners := owners - {key};
          macMobility := macMobility - {key};
          macs := macs - {key};
          return Some(MacForgotten(key));
        }
      } else if nlri.Imet? && nlri.origIp in vtepOwners && vtepOwners[nlri.origIp] == nlri {
        VtepRemove(vteps, vtepOwners, nlri.origIp);
        vtepOwners := vtepOwners - {nlri.origIp};
        vteps := vteps - {nlri.origIp};
        return Some(VtepRemoved(nlri.origIp));
      }
      c := None;
    }

    method Apply(ev: Event) returns (c: Option<EviChange>)
      requires Valid()
      modifies this
      ensures Valid() && Seen() == Step(old(Seen()), ev, importRts)
      ensures c == Reported(old(Seen()), ev, importRts)
    {
      match ev
      case Best(nlri, path) =>
        if !Imports(importRts, path) {
          c := RemoveIfOwner(nlri);
        } else {
          match nlri
          case MacIp(_, _, _, _, _, _, _) => c := LearnMac(nlri, path);
          case Imet(_, _, _) => c := LearnVtep(nlri, path);
          case _ => c := None;
        }
      case Withdrawn(nlri) => c := RemoveIfOwner(nlri);
    }
  }
}
