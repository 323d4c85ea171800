/** The BGP decision process (`decision.rs`): pairwise preference between candidate
    paths, and the lexicographic keys that say what it means. */
module Decision {
  import opened Wrappers
  import opened Net
  import opened Orders
  import opened AsPath

  datatype Origin = Igp | Egp | Incomplete

  function OriginCode(o: Origin): u8 {
    match o
    case Igp => 0
    case Egp => 1
    case Incomplete => 2
  }

  /** What a path carries along without the decision reading it. */
  datatype Carried = Carried(
    fromConfed: bool,
    fromClient: bool,
    communities: seq<u32>,
    largeCommunities: seq<(u32, u32, u32)>,
    otc: Option<u32>,
    passThrough: seq<Bytes>)

  datatype Path = Path(
    origin: Origin,
    asPath: seq<Segment>,
    nextHop: IpAddr,
    nextHopIface: Option<string>,
    localPref: u32,
    med: u32,
    fromEbgp: bool,
    peerAs: u32,
    igpMetric: u32,
    peerId: u32,
    peerAddr: IpAddr,
    originatorId: Option<u32>,
    clusterList: seq<u32>,
    extCommunities: seq<Octets8>,
    srv6Sid: Option<Octets16>,
    carried: Carried)
  {
    /** ORIGINATOR_ID stands in for the peer's identifier when present. */
    function Identifier(): u32 {
      match originatorId
      case Some(id) => id
      case None => peerId
    }

    /** A link-local next hop is pinned to its interface. */
    function Hop(): NextHop {
      NextHop(Some(nextHop), nextHopIface, 1)
    }
  }

  /** Whether `a` is strictly preferred over `b`, step by step. */
  predicate IsBetter(a: Path, b: Path) {
    if a.localPref != b.localPref then a.localPref > b.localPref
    else if PathLen(a.asPath) != PathLen(b.asPath) then PathLen(a.asPath) < PathLen(b.asPath)
    else if a.origin != b.origin then OriginCode(a.origin) < OriginCode(b.origin)
    else if a.peerAs == b.peerAs && a.med != b.med then a.med < b.med
    else if a.fromEbgp != b.fromEbgp then a.fromEbgp
    else if a.igpMetric != b.igpMetric then a.igpMetric < b.igpMetric
    else if |a.clusterList| != |b.clusterList| then |a.clusterList| < |b.clusterList|
    else if a.Identifier() != b.Identifier() then a.Identifier() < b.Identifier()
    else AddrLess(a.peerAddr, b.peerAddr)
  }

  /** Whether `b` may be installed beside the best path `a` as an equal-cost path. */
  predicate MultipathEligible(a: Path, b: Path) {
    && a.localPref == b.localPref
    && a.asPath == b.asPath
    && a.origin == b.origin
    && a.med == b.med
    && a.fromEbgp == b.fromEbgp
    && a.igpMetric == b.igpMetric
  }

  // ---- What the preference means ---------------------------------------------------

  /** The attributes compared before MED. */
  function KeyHead(p: Path): seq<int> {
    [0 - p.localPref as int, PathLen(p.asPath), OriginCode(p.origin)]
  }

  /** The attributes compared after MED. */
  function KeyTail(p: Path): seq<int> {
    [if p.fromEbgp then 0 else 1, p.igpMetric, |p.clusterList|, p.Identifier()] + AddrRank(p.peerAddr)
  }

  /** The full decision key: the order among paths of one neighbouring AS. */
  function MedKey(p: Path): seq<int> {
    KeyHead(p) + ([p.med] + KeyTail(p))
  }

  /** The key without MED: the order among paths of different neighbouring ASes. */
  function PlainKey(p: Path): seq<int> {
    KeyHead(p) + KeyTail(p)
  }

  lemma TailMeaning(a: Path, b: Path)
    ensures LexLess(KeyTail(a), KeyTail(b)) <==>
      if a.fromEbgp != b.fromEbgp then a.fromEbgp
      else if a.igpMetric != b.igpMetric then a.igpMetric < b.igpMetric
      else if |a.clusterList| != |b.clusterList| then |a.clusterList| < |b.clusterList|
      else if a.Identifier() != b.Identifier() then a.Identifier() < b.Identifier()
      else AddrLess(a.peerAddr, b.peerAddr)
  {
    var x, y := KeyTail(a), KeyTail(b);
    if a.fromEbgp != b.fromEbgp { LexAt(x, y, 0); }
    else if a.igpMetric != b.igpMetric { LexAt(x, y, 1); }
    else if |a.clusterList| != |b.clusterList| { LexAt(x, y, 2); }
    else if a.Identifier() != b.Identifier() { LexAt(x, y, 3); }
    else { LexFront(x[..4], AddrRank(a.peerAddr), AddrRank(b.peerAddr)); }
  }

  /** The first three steps decide, or the rest of the key does. */
  lemma HeadMeaning(a: Path, b: Path, restA: seq<int>, restB: seq<int>)
    ensures LexLess(KeyHead(a) + restA, KeyHead(b) + restB) <==>
      if a.localPref != b.localPref then a.localPref > b.localPref
      else if PathLen(a.asPath) != PathLen(b.asPath) then PathLen(a.asPath) < PathLen(b.asPath)
      else if a.origin != b.origin then OriginCode(a.origin) < OriginCode(b.origin)
      else LexLess(restA, restB)
  {
    var x, y := KeyHead(a) + restA, KeyHead(b) + restB;
    if a.localPref != b.localPref { LexAt(x, y, 0); }
    else if PathLen(a.asPath) != PathLen(b.asPath) { LexAt(x, y, 1); }
    else if a.origin != b.origin { LexAt(x, y, 2); }
    else { LexFront(KeyHead(a), restA, restB); }
  }

  /** `IsBetter` is the lexicographic order on decision keys: with MED between paths of
      one neighbouring AS, without MED across ASes (section 9.1.2.2 of RFC 4271). */
  lemma IsBetterMeaning(a: Path, b: Path)
    ensures a.peerAs == b.peerAs ==> (IsBetter(a, b) <==> LexLess(MedKey(a), MedKey(b)))
    ensures a.peerAs != b.peerAs ==> (IsBetter(a, b) <==> LexLess(PlainKey(a), PlainKey(b)))
  {
    TailMeaning(a, b);
    HeadMeaning(a, b, KeyTail(a), KeyTail(b));
    HeadMeaning(a, b, [a.med] + KeyTail(a), [b.med] + KeyTail(b));
    if a.med != b.med {
      LexAt([a.med] + KeyTail(a), [b.med] + KeyTail(b), 0);
    } else {
      LexFront([a.med], KeyTail(a), KeyTail(b));
    }
  }

  /** Equal full keys have equal keys without MED and equal MEDs. */
  lemma MedKeyDeterminesPlainKey(a: Path, b: Path)
    ensures MedKey(a) == MedKey(b) <==> PlainKey(a) == PlainKey(b) && a.med == b.med
  {
    AppendInjective(KeyHead(a), KeyTail(a), KeyHead(b), KeyTail(b));
    AppendInjective(KeyHead(a), [a.med] + KeyTail(a), KeyHead(b), [b.med] + KeyTail(b));
    AppendInjective([a.med], KeyTail(a), [b.med], KeyTail(b));
  }

  /** With equal MEDs the MED step changes nothing. */
  lemma EqualMedOrder(a: Path, b: Path)
    requires a.med == b.med
    ensures LexLess(MedKey(a), MedKey(b)) <==> LexLess(PlainKey(a), PlainKey(b))
  {
    HeadMeaning(a, b, KeyTail(a), KeyTail(b));
    HeadMeaning(a, b, [a.med] + KeyTail(a), [b.med] + KeyTail(b));
    LexFront([a.med], KeyTail(a), KeyTail(b));
  }

  /** Among paths that share a neighbouring AS the preference is a strict weak order
      whose ties are exactly the paths with the same decision key. */
  lemma IsBetterWithinOneAs(a: Path, b: Path, c: Path)
    requires a.peerAs == b.peerAs == c.peerAs
    ensures IsBetter(a, b) ==> !IsBetter(b, a)
    ensures IsBetter(a, b) && IsBetter(b, c) ==> IsBetter(a, c)
    ensures !IsBetter(a, b) && !IsBetter(b, a) <==> MedKey(a) == MedKey(b)
  {
    IsBetterMeaning(a, b);
    IsBetterMeaning(b, a);
    IsBetterMeaning(b, c);
    IsBetterMeaning(a, c);
    var x, y, z := MedKey(a), MedKey(b), MedKey(c);
    LexTotal(x, y);
    LexIrreflexive(x);
    if LexLess(x, y) {
      LexAsymmetric(x, y);
      if LexLess(y, z) { LexTransitive(x, y, z); }
    }
  }

  /** A baseline path, for the concrete examples below. */
  function SamplePath(peerAs: u32, med: u32, peer: u8): Path {
    Path(Igp, [Sequence([65001])], V4([10, 0, 0, peer]), None, 100, med, true, peerAs, 10,
         peer, V4([10, 0, 0, peer]), None, [], [], None,
         Carried(false, false, [], [], None, []))
  }

  /** `IsBetter` is not transitive: three paths form a cycle, because MED is read in one
      of the three comparisons only. */
  lemma PreferenceCycle()
    ensures
      var a, b, c := SamplePath(100, 20, 1), SamplePath(200, 0, 2), SamplePath(100, 10, 3);
      IsBetter(a, b) && IsBetter(b, c) && IsBetter(c, a)
  {
  }

  /** The index a single reduction of the first `n` paths ends with: the incumbent is
      replaced by every later path that is strictly better. */
  function SinglePass(paths: seq<Path>, n: nat): (w: nat)
    requires 0 < n <= |paths|
    ensures w < n
  {
    if n == 1 then 0 else
      var w := SinglePass(paths, n - 1);
      if IsBetter(paths[n - 1], paths[w]) then n - 1 else w
  }

  /** `best_path`, and the `select_best` of the sibling RIBs. */
  method BestPath(paths: seq<Path>) returns (r: Option<nat>)
    ensures r == if paths == [] then None else Some(SinglePass(paths, |paths|))
  {
    if paths == [] {
      return None;
    }
    var best := 0;
    for i := 1 to |paths|
      invariant best == SinglePass(paths, i)
    {
      if IsBetter(paths[i], paths[best]) {
        best := i;
      }
    }
    r := Some(best);
  }
}
