/** 4-octet AS paths across legacy speakers (`attr.rs`; section 4.2.3 of RFC 6793): the true
    path rides in AS4_PATH and is merged back into the 2-octet AS_PATH. */
module As4Path {
  import opened Wrappers
  import opened Net
  import opened Framing
  import opened AsPath
  import opened AsPathCodec

  type ConfedSegment = s: Segment | s.IsConfederation() witness ConfedSequence([])

  /** One AS of a sequence, a whole set, or a whole confederation segment. */
  datatype Element =
    | As(asn: u32)
    | AsSet(asns: seq<u32>)
    | Confed(segment: ConfedSegment)

  function Ases(run: seq<u32>): (els: seq<Element>)
    ensures |els| == |run| && forall i | 0 <= i < |run| :: els[i] == As(run[i])
  {
    seq(|run|, i requires 0 <= i < |run| => As(run[i]))
  }

  function Elements(s: Segment): seq<Element> {
    match s
    case Sequence(asns) => Ases(asns)
    case Set(asns) => [AsSet(asns)]
    case _ => [Confed(s)]
  }

  /** The `flat` closure. */
  function Flatten(p: seq<Segment>): seq<Element> {
    if p == [] then [] else Elements(p[0]) + Flatten(p[1..])
  }

  /** Segments for a list of elements: maximal runs of ASes become one sequence each. */
  function Merge(els: seq<Element>): seq<Segment> {
    if els == [] then []
    else
      var rest := Merge(els[1..]);
      match els[0]
      case As(a) => PrependAs(rest, a)
      case AsSet(s) => [Set(s)] + rest
      case Confed(c) => [c] + rest
  }

  /** How a speaker adds itself to a path (`prepend_as` of the daemon, and section 5.1.2 of
      RFC 4271): into the leading sequence, or in a new one. */
  function PrependAs(p: seq<Segment>, asn: u32): (q: seq<Segment>)
    ensures q != [] && q[0].Sequence? && q[0].asns != [] && q[0].asns[0] == asn
  {
    if p != [] && p[0].Sequence? then [Sequence([asn] + p[0].asns)] + p[1..] else [Sequence([asn])] + p
  }

  /** The path after the listed speakers, the latest last, have added themselves. */
  function PrependAll(p: seq<Segment>, hops: seq<u32>): seq<Segment> {
    if hops == [] then p else PrependAs(PrependAll(p, hops[..|hops| - 1]), hops[|hops| - 1])
  }

  function Reconstruct(asPath: seq<Segment>, as4Path: seq<Segment>): seq<Segment> {
    var path, path4 := Flatten(asPath), Flatten(as4Path);
    if as4Path == [] || |path4| > |path| then asPath
    else Merge(path[..|path| - |path4|] + path4)
  }

  /** No empty sequence and no two sequences side by side. */
  predicate NormalForm(p: seq<Segment>) {
    && (forall s | s in p :: s.Sequence? ==> s.asns != [])
    && (forall i | 0 < i < |p| :: !(p[i - 1].Sequence? && p[i].Sequence?))
  }

  predicate ConfedFree(p: seq<Segment>) {
    forall s | s in p :: !s.IsConfederation()
  }

  // ---- Flattening and merging are inverse ------------------------------------------------------

  lemma FlattenPrepend(p: seq<Segment>, asn: u32)
    ensures Flatten(PrependAs(p, asn)) == [As(asn)] + Flatten(p)
  {
    var q := PrependAs(p, asn);
    if p != [] && p[0].Sequence? {
      assert q[1..] == p[1..];
      assert Ases([asn] + p[0].asns) == [As(asn)] + Ases(p[0].asns);
    } else {
      assert q[1..] == p;
      assert Ases([asn]) == [As(asn)];
    }
  }

  /** Flattening undoes `coalesce`. */
  lemma {:induction false} FlattenMerge(els: seq<Element>)
    ensures Flatten(Merge(els)) == els
  {
    if els != [] {
      var rest := Merge(els[1..]);
      FlattenMerge(els[1..]);
      assert els == [els[0]] + els[1..];
      match els[0]
      case As(a) => FlattenPrepend(rest, a);
      case AsSet(s) => assert ([Set(s)] + rest)[1..] == rest;
      case Confed(c) => assert ([c] + rest)[1..] == rest;
    }
  }

  lemma PrependKeepsNormalForm(p: seq<Segment>, asn: u32)
    requires NormalForm(p)
    ensures NormalForm(PrependAs(p, asn))
  {
    var q := PrependAs(p, asn);
    if p != [] && p[0].Sequence? {
      forall i | 0 < i < |q| ensures !(q[i - 1].Sequence? && q[i].Sequence?) {
        assert q[i] == p[i] && (q[i - 1].Sequence? <==> p[i - 1].Sequence?);
      }
    } else {
      forall i | 0 < i < |q| ensures !(q[i - 1].Sequence? && q[i].Sequence?) {
        assert q[i] == p[i - 1] && (i > 1 ==> q[i - 1] == p[i - 2]);
      }
    }
  }

  lemma ConsKeepsNormalForm(s: Segment, p: seq<Segment>)
    requires NormalForm(p) && !s.Sequence?
    ensures NormalForm([s] + p)
  {
    var q := [s] + p;
    forall i | 0 < i < |q| ensures !(q[i - 1].Sequence? && q[i].Sequence?) {
      assert q[i] == p[i - 1] && (i > 1 ==> q[i - 1] == p[i - 2]);
    }
  }

  /** `coalesce` emits no empty sequence and no two adjacent ones. */
  lemma {:induction false} MergeIsNormal(els: seq<Element>)
    ensures NormalForm(Merge(els))
  {
    if els != [] {
      var rest := Merge(els[1..]);
      MergeIsNormal(els[1..]);
      match els[0]
      case As(a) => PrependKeepsNormalForm(rest, a);
      case AsSet(s) => ConsKeepsNormalForm(Set(s), rest);
      case Confed(c) => ConsKeepsNormalForm(c, rest);
    }
  }

  /** A run of ASes and whatever follows it, unless that is another AS. */
  lemma {:induction false} MergeRun(run: seq<u32>, rest: seq<Element>)
    requires rest == [] || !rest[0].As?
    ensures Merge(Ases(run) + rest) == (if run == [] then [] else [Sequence(run)]) + Merge(rest)
  {
    if run == [] {
      assert Ases(run) + rest == rest;
    } else {
      var els := Ases(run) + rest;
      assert els[1..] == Ases(run[1..]) + rest;
      MergeRun(run[1..], rest);
      if |run| == 1 {
        assert run == [run[0]];
        assert Merge(els[1..]) == Merge(rest);
      } else {
        assert Merge(els[1..]) == [Sequence(run[1..])] + Merge(rest);
        assert [run[0]] + run[1..] == run;
        assert Merge(els[1..])[1..] == Merge(rest);
      }
    }
  }

  lemma NormalTail(p: seq<Segment>)
    requires NormalForm(p) && p != []
    ensures NormalForm(p[1..])
  {
    var q := p[1..];
    forall i | 0 < i < |q| ensures !(q[i - 1].Sequence? && q[i].Sequence?) {
      assert q[i] == p[i + 1] && q[i - 1] == p[i];
    }
  }

  lemma FlattenHead(p: seq<Segment>)
    requires NormalForm(p) && p != []
    ensures Flatten(p) != [] && (Flatten(p)[0].As? <==> p[0].Sequence?)
  {
    assert p[0] in p;
  }

  lemma {:induction false} MergeOfNormal(p: seq<Segment>)
    requires NormalForm(p)
    ensures Merge(Flatten(p)) == p
  {
    if p != [] {
      var rest := Flatten(p[1..]);
      NormalTail(p);
      MergeOfNormal(p[1..]);
      assert p == [p[0]] + p[1..];
      if p[0].Sequence? {
        if |p| > 1 {
          FlattenHead(p[1..]);
          assert !(p[0].Sequence? && p[1].Sequence?);
        }
        assert p[0] in p;
        MergeRun(p[0].asns, rest);
      } else {
        assert (Elements(p[0]) + rest)[1..] == rest;
      }
    }
  }

  /** `coalesce` undoes flattening exactly on paths in normal form. */
  lemma MergeFlatten(p: seq<Segment>)
    ensures Merge(Flatten(p)) == p <==> NormalForm(p)
  {
    MergeIsNormal(Flatten(p));
    if NormalForm(p) { MergeOfNormal(p); }
  }

  // ---- Length ----------------------------------------------------------------------------------

  /** Confederation segments, which the length of a path does not count. */
  function Confeds(els: seq<Element>): (n: nat)
    ensures n <= |els|
    ensures n == 0 <==> forall e | e in els :: !e.Confed?
  {
    if els == [] then 0
    else
      assert els == [els[0]] + els[1..];
      (if els[0].Confed? then 1 else 0) + Confeds(els[1..])
  }

  lemma {:induction false} ConfedsAppend(a: seq<Element>, b: seq<Element>)
    ensures Confeds(a + b) == Confeds(a) + Confeds(b)
  {
    if a == [] {
      assert a + b == b;
    } else {
      assert (a + b)[1..] == a[1..] + b;
      ConfedsAppend(a[1..], b);
    }
  }

  /** The length of section 9.1.2.2 of RFC 4271 counts every other element once. */
  lemma {:induction false} LengthCountsElements(p: seq<Segment>)
    ensures PathLen(p) == |Flatten(p)| - Confeds(Flatten(p))
  {
    if p != [] {
      LengthCountsElements(p[1..]);
      ConfedsAppend(Elements(p[0]), Flatten(p[1..]));
      if p[0].IsConfederation() {
        assert Elements(p[0])[1..] == [] && Confeds([]) == 0;
      } else {
        assert forall e | e in Elements(p[0]) :: !e.Confed?;
      }
    }
  }

  lemma {:induction false} FlattenConfedFree(p: seq<Segment>)
    requires ConfedFree(p)
    ensures forall e | e in Flatten(p) :: !e.Confed?
  {
    if p != [] {
      assert p[0] in p;
      FlattenConfedFree(p[1..]);
    }
  }

  /** The end of AS_PATH that AS4_PATH replaces, if it does. */
  function Replaced(asPath: seq<Segment>, as4Path: seq<Segment>): seq<Element> {
    var path, path4 := Flatten(asPath), Flatten(as4Path);
    if |path4| > |path| then [] else path[|path| - |path4|..]
  }

  predicate Applies(asPath: seq<Segment>, as4Path: seq<Segment>) {
    as4Path != [] && |Flatten(as4Path)| <= |Flatten(asPath)|
  }

  /** Merging AS4_PATH back keeps the length of the path exactly when it replaces as many
      confederation segments as it brings. An AS4_PATH without any, which is what section 3 of
      RFC 6793 allows, must replace none. */
  lemma ReconstructionKeepsLength(asPath: seq<Segment>, as4Path: seq<Segment>)
    ensures PathLen(Reconstruct(asPath, as4Path)) == PathLen(asPath) <==>
      (Applies(asPath, as4Path) ==> Confeds(Replaced(asPath, as4Path)) == Confeds(Flatten(as4Path)))
    ensures ConfedFree(as4Path) ==>
      (PathLen(Reconstruct(asPath, as4Path)) == PathLen(asPath) <==>
        (Applies(asPath, as4Path) ==> forall e | e in Replaced(asPath, as4Path) :: !e.Confed?))
  {
    var path, path4 := Flatten(asPath), Flatten(as4Path);
    if Applies(asPath, as4Path) {
      var front, tail := path[..|path| - |path4|], Replaced(asPath, as4Path);
      assert path == front + tail;
      ConfedsAppend(front, tail);
      ConfedsAppend(front, path4);
      FlattenMerge(front + path4);
      LengthCountsElements(Merge(front + path4));
      LengthCountsElements(asPath);
      if ConfedFree(as4Path) { FlattenConfedFree(as4Path); }
    }
  }

  /** A confederation segment the AS4_PATH reaches is lost, and the path grows longer. */
  lemma ReconstructionMayLoseAConfederation()
    ensures
      var asPath, as4Path := [ConfedSequence([64512]), Sequence([AS_TRANS])], [Sequence([70000, 70001])];
      && Reconstruct(asPath, as4Path) == as4Path
      && PathLen(asPath) == 1 && PathLen(as4Path) == 2
  {
    var asPath, as4Path := [ConfedSequence([64512]), Sequence([AS_TRANS])], [Sequence([70000, 70001])];
    assert asPath[1..] == [Sequence([AS_TRANS])] && [Sequence([AS_TRANS])][1..] == [] && as4Path[1..] == [];
    assert Flatten(asPath[1..]) == [As(AS_TRANS)] + Flatten([]);
    assert Flatten(asPath) == [Confed(asPath[0]), As(AS_TRANS)];
    assert Flatten(as4Path) == [As(70000), As(70001)];
    assert Flatten(asPath)[..0] + Flatten(as4Path) == Flatten(as4Path);
    MergeOfNormal(as4Path);
    assert PathLen(as4Path) == 2 + PathLen([]);
    assert PathLen(asPath) == PathLen([Sequence([AS_TRANS])]) == 1 + PathLen([]);
  }

  // ---- Transit ---------------------------------------------------------------------------------

  /** The latest speaker comes first. */
  function Latest(hops: seq<u32>): seq<Element> {
    if hops == [] then [] else [As(hops[|hops| - 1])] + Latest(hops[..|hops| - 1])
  }

  lemma {:induction false} FlattenPrependAll(p: seq<Segment>, hops: seq<u32>)
    ensures Flatten(PrependAll(p, hops)) == Latest(hops) + Flatten(p)
  {
    if hops != [] {
      var front, last := hops[..|hops| - 1], hops[|hops| - 1];
      FlattenPrependAll(p, front);
      FlattenPrepend(PrependAll(p, front), last);
      assert [As(last)] + (Latest(front) + Flatten(p)) == Latest(hops) + Flatten(p);
    }
  }

  lemma {:induction false} NarrowKeepsShape(p: seq<Segment>, four: bool)
    ensures |Flatten(NarrowPath(p, four))| == |Flatten(p)|
  {
    if p != [] {
      assert NarrowPath(p, four)[1..] == NarrowPath(p[1..], four);
      NarrowKeepsShape(p[1..], four);
    }
  }

  /** What a receiver makes of a path sent 2-octet wide with its AS4_PATH, after any number of
      legacy speakers added themselves: their ASes, then the original, whole sets and all. */
  lemma MergedAfterTransit(p: seq<Segment>, hops: seq<u32>)
    ensures
      var r := Reconstruct(PrependAll(NarrowPath(p, false), hops), p);
      && Flatten(r) == Latest(hops) + Flatten(p)
      && (p != [] ==> NormalForm(r))
      && (NormalForm(p) ==> r == PrependAll(p, hops))
  {
    var sent := PrependAll(NarrowPath(p, false), hops);
    FlattenPrependAll(NarrowPath(p, false), hops);
    NarrowKeepsShape(p, false);
    if p == [] {
      assert NarrowPath(p, false) == [];
      FlattenPrependAll(p, hops);
    } else {
      var keep := |Flatten(sent)| - |Flatten(p)|;
      assert Flatten(sent)[..keep] == Latest(hops);
      FlattenMerge(Latest(hops) + Flatten(p));
      MergeIsNormal(Latest(hops) + Flatten(p));
      if NormalForm(p) {
        FlattenPrependAll(p, hops);
        PrependAllNormal(p, hops);
        MergeOfNormal(PrependAll(p, hops));
      }
    }
  }

  lemma {:induction false} PrependAllNormal(p: seq<Segment>, hops: seq<u32>)
    requires NormalForm(p)
    ensures NormalForm(PrependAll(p, hops))
  {
    if hops != [] {
      PrependAllNormal(p, hops[..|hops| - 1]);
      PrependKeepsNormalForm(PrependAll(p, hops[..|hops| - 1]), hops[|hops| - 1]);
    }
  }

  // ---- The same over the wire ------------------------------------------------------------------

  /** A legacy speaker takes a 2-octet AS_PATH off the wire, adds itself and sends it on. */
  function Relay(value: Bytes, hop: u32): Option<Bytes> {
    match DecodePath(value, false)
    case None => None
    case Some(p) => Some(EncodePath(PrependAs(p, hop), false))
  }

  function RelayAll(value: Bytes, hops: seq<u32>): Option<Bytes> {
    if hops == [] then Some(value)
    else match RelayAll(value, hops[..|hops| - 1])
      case None => None
      case Some(v) => Relay(v, hops[|hops| - 1])
  }

  /** A legacy speaker's AS number: two octets, not reserved. */
  predicate LegacyAs(asn: u32) {
    0 < asn <= 0xffff
  }

  predicate AllCarried(p: seq<Segment>) {
    forall s | s in p :: Carried(s)
  }

  /** Already as a 2-octet speaker sees it. */
  predicate IsNarrow(s: Segment) {
    NarrowSegment(s, false) == s
  }

  lemma NarrowIsNarrow(p: seq<Segment>)
    ensures forall s | s in NarrowPath(p, false) :: IsNarrow(s)
    ensures AllCarried(p) ==> AllCarried(NarrowPath(p, false))
  {
    forall i | 0 <= i < |p|
      ensures IsNarrow(NarrowPath(p, false)[i]) && (Carried(p[i]) ==> Carried(NarrowPath(p, false)[i]))
    {
      var s, t := p[i], NarrowSegment(p[i], false);
      assert NarrowAsns(t.asns, false) == t.asns;
      assert forall k | 0 <= k < |s.asns| :: t.asns[k] == 0 ==> s.asns[k] == 0;
    }
    assert forall i | 0 <= i < |p| :: p[i] in p;
  }

  /** ASes in the leading sequence, where speakers add themselves. */
  function Leading(p: seq<Segment>): nat {
    if p != [] && p[0].Sequence? then |p[0].asns| else 0
  }

  /** A segment counts its ASes in one octet: room for the speakers to come. */
  predicate HasRoom(p: seq<Segment>, n: nat) {
    Leading(p) + n <= 255
  }

  lemma PrependIsCarried(p: seq<Segment>, hop: u32, n: nat)
    requires AllCarried(p) && (forall s | s in p :: IsNarrow(s)) && HasRoom(p, n + 1) && LegacyAs(hop)
    ensures var q := PrependAs(p, hop);
      AllCarried(q) && (forall s | s in q :: IsNarrow(s)) && HasRoom(q, n)
  {
    var q := PrependAs(p, hop);
    if p != [] && p[0].Sequence? {
      assert p[0] in p && IsNarrow(p[0]) && Carried(p[0]);
      assert NarrowAsns(p[0].asns, false) == p[0].asns;
      assert NarrowAsns([hop] + p[0].asns, false) == [hop] + p[0].asns;
    } else {
      assert NarrowAsns([hop], false) == [hop];
    }
  }

  /** Relaying over the wire is prepending, as long as the leading sequence has room. */
  lemma {:induction false} RelayedPath(p: seq<Segment>, hops: seq<u32>, n: nat)
    requires AllCarried(p) && (forall s | s in p :: IsNarrow(s))
    requires HasRoom(p, |hops| + n) && forall h | h in hops :: LegacyAs(h)
    ensures RelayAll(EncodePath(p, false), hops) == Some(EncodePath(PrependAll(p, hops), false))
    ensures DecodePath(EncodePath(PrependAll(p, hops), false), false) == Some(PrependAll(p, hops))
    ensures var q := PrependAll(p, hops);
      AllCarried(q) && (forall s | s in q :: IsNarrow(s)) && HasRoom(q, n)
  {
    if hops != [] {
      var front, last := hops[..|hops| - 1], hops[|hops| - 1];
      RelayedPath(p, front, n + 1);
      PrependIsCarried(PrependAll(p, front), last, n);
    }
    var q := PrependAll(p, hops);
    PathRoundTrip(q, false);
    assert NarrowPath(q, false) == q by {
      forall i | 0 <= i < |q| ensures NarrowPath(q, false)[i] == q[i] { assert IsNarrow(q[i]); }
    }
  }

  lemma WidePathReadsBack(p: seq<Segment>)
    requires AllCarried(p)
    ensures DecodePath(EncodePath(p, true), true) == Some(p)
  {
    PathRoundTrip(p, true);
    forall i | 0 <= i < |p| ensures NarrowPath(p, true)[i] == p[i] {
      assert NarrowAsns(p[i].asns, true) == p[i].asns;
    }
    assert NarrowPath(p, true) == p;
  }

  lemma {:induction false} LeadingGrows(p: seq<Segment>, hops: seq<u32>)
    ensures Leading(PrependAll(p, hops)) == Leading(p) + |hops|
  {
    if hops != [] { LeadingGrows(p, hops[..|hops| - 1]); }
  }

  lemma DecodedPathIsShort(value: Bytes, four: bool)
    requires DecodePath(value, four).Some?
    ensures forall s | s in DecodePath(value, four).value :: |s.asns| <= 255
  {
    forall b: Bytes ensures DecodeHop(four)(b).Some? ==> |DecodeHop(four)(b).value.0.asns| <= 255 {
      if DecodeSegment(b, four).Some? { DecodedSegmentIsShort(b, four); }
    }
    EachDecoded(value, DecodeHop(four), (s: Segment) => |s.asns| <= 255);
  }

  /** The AS_PATH that legacy speakers pass on is the path they prepended to. */
  predicate Prepended(p: seq<Segment>, hops: seq<u32>) {
    var asPath := RelayAll(EncodePath(p, false), hops);
    asPath.Some? && DecodePath(asPath.value, false) == Some(PrependAll(NarrowPath(p, false), hops))
  }

  /** Relaying over the wire is prepending exactly when the leading sequence has room for the
      relays: one AS more and the count wraps. */
  lemma RelayingIsPrepending(p: seq<Segment>, hops: seq<u32>)
    requires AllCarried(p) && forall h | h in hops :: LegacyAs(h)
    ensures Prepended(p, hops) <==> HasRoom(p, |hops|)
  {
    var sent := NarrowPath(p, false);
    NarrowIsNarrow(p);
    EncodesNarrow(p);
    assert p != [] ==> sent[0] == NarrowSegment(p[0], false);
    if HasRoom(p, |hops|) { RelayedPath(sent, hops, 0); }
    if Prepended(p, hops) {
      DecodedPathIsShort(RelayAll(EncodePath(p, false), hops).value, false);
      LeadingGrows(sent, hops);
    }
  }

  /** AS4_PATH transit, end to end: the original path encoded 2-octet wide, relayed by legacy
      speakers, decoded, and merged with the AS4_PATH that came along. */
  lemma Transit(p: seq<Segment>, hops: seq<u32>)
    requires AllCarried(p) && forall h | h in hops :: LegacyAs(h)
    ensures DecodePath(EncodePath(p, true), true) == Some(p)
    ensures Prepended(p, hops) <==> HasRoom(p, |hops|)
    ensures Prepended(p, hops) ==>
      var asPath := DecodePath(RelayAll(EncodePath(p, false), hops).value, false).value;
      Flatten(Reconstruct(asPath, p)) == Latest(hops) + Flatten(p)
  {
    RelayingIsPrepending(p, hops);
    WidePathReadsBack(p);
    MergedAfterTransit(p, hops);
  }

  /** Narrowing first makes no difference to what is written. */
  lemma EncodesNarrow(p: seq<Segment>)
    ensures EncodePath(NarrowPath(p, false), false) == EncodePath(p, false)
  {
    forall i | 0 <= i < |p| ensures Chunks(NarrowPath(p, false), false)[i] == Chunks(p, false)[i] {
      NarrowAsnsBytes(p[i].asns);
    }
    assert Chunks(NarrowPath(p, false), false) == Chunks(p, false);
  }

  lemma {:induction false} NarrowAsnsBytes(asns: seq<u32>)
    ensures EncodeAsns(NarrowAsns(asns, false), false) == EncodeAsns(asns, false)
  {
    if asns != [] {
      assert NarrowAsns(asns, false)[1..] == NarrowAsns(asns[1..], false);
      NarrowAsnsBytes(asns[1..]);
    }
  }

  // ---- The loops -------------------------------------------------------------------------------

  /** The loop of the `flat` closure. */
  method Flat(segs: seq<Segment>) returns (els: seq<Element>)
    ensures els == Flatten(segs)
  {
    els := [];
    assert segs[0..] == segs;
    for i := 0 to |segs|
      invariant els + Flatten(segs[i..]) == Flatten(segs)
    {
      FlattenStep(segs, i);
      AppendAssociates(els, Elements(segs[i]), Flatten(segs[i + 1..]));
      match segs[i]
      case Sequence(asns) => els := els + Ases(asns);
      case Set(asns) => els := els + [AsSet(asns)];
      case _ => els := els + [Confed(segs[i])];
    }
  }

  lemma FlattenStep(segs: seq<Segment>, i: nat)
    requires i < |segs|
    ensures Flatten(segs[i..]) == Elements(segs[i]) + Flatten(segs[i + 1..])
  {
    assert segs[i..][1..] == segs[i + 1..];
  }

  /** The sequence a run becomes when something ends it. */
  function Closed(run: seq<u32>): seq<Segment> {
    if run == [] then [] else [Sequence(run)]
  }

  /** The segments still owed for a run and the elements from `i` on. */
  function Owed(run: seq<u32>, els: seq<Element>, i: nat): seq<Segment>
    requires i <= |els|
  {
    Merge(Ases(run) + els[i..])
  }

  lemma OneMoreAs(run: seq<u32>, els: seq<Element>, i: nat)
    requires i < |els| && els[i].As?
    ensures Owed(run, els, i) == Owed(run + [els[i].asn], els, i + 1)
  {
    assert Ases(run + [els[i].asn]) + els[i + 1..] == Ases(run) + els[i..];
  }

  /** An element that is not an AS is a segment of its own. */
  function Alone(e: Element): Segment
    requires !e.As?
  {
    if e.AsSet? then Set(e.asns) else e.segment
  }

  lemma RunEnds(out: seq<Segment>, run: seq<u32>, els: seq<Element>, i: nat)
    requires i < |els| && !els[i].As?
    ensures out + Owed(run, els, i) == out + Closed(run) + [Alone(els[i])] + Owed([], els, i + 1)
  {
    MergeRun(run, els[i..]);
    assert els[i..][1..] == els[i + 1..];
    assert Ases([]) + els[i + 1..] == els[i + 1..];
    assert Owed(run, els, i) == Closed(run) + ([Alone(els[i])] + Owed([], els, i + 1));
  }

  lemma OwedEnds(run: seq<u32>, els: seq<Element>)
    ensures Owed(run, els, |els|) == Closed(run)
  {
    MergeRun(run, []);
    assert els[|els|..] == [];
  }

  method Close(run: seq<u32>, front: seq<Segment>) returns (out: seq<Segment>)
    ensures out == front + Closed(run)
  {
    out := front;
    if run != [] {
      out := out + [Sequence(run)];
    }
  }

  /** `coalesce`: a run of ASes is collected until something else ends it. */
  method Coalesce(els: seq<Element>) returns (out: seq<Segment>)
    ensures out == Merge(els)
  {
    out := [];
    var run: seq<u32> := [];
    ghost var all := Merge(els);
    assert Ases(run) + els[0..] == els;
    for i := 0 to |els|
      invariant out + Owed(run, els, i) == all
    {
      if els[i].As? {
        OneMoreAs(run, els, i);
        run := run + [els[i].asn];
      } else {
        RunEnds(out, run, els, i);
        out := Close(run, out);
        run := [];
        match els[i] {
          case AsSet(s) => out := out + [Set(s)];
          case Confed(c) => out := out + [c];
        }
      }
    }
    OwedEnds(run, els);
    out := Close(run, out);
  }

  /** `reconstruct_as_path`. */
  method ReconstructAsPath(asPath: seq<Segment>, as4Path: seq<Segment>) returns (r: seq<Segment>)
    ensures r == Reconstruct(asPath, as4Path)
  {
    if as4Path == [] {
      return asPath;
    }
    var path := Flat(asPath);
    var path4 := Flat(as4Path);
    if |path4| > |path| {
      return asPath;
    }
    var keep := |path| - |path4|;
    var merged := path[..keep];
    merged := merged + path4;
    r := Coalesce(merged);
  }
}
