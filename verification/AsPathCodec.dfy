/** AS_PATH and AS4_PATH values on the wire (`attr.rs`): segments of 2- or 4-octet AS numbers. */
module AsPathCodec {
  import opened Wrappers
  import opened Net
  import opened ByteOrder
  import opened Framing
  import opened AsPath

  /** The AS number that stands for one that does not fit into two octets. */
  const AS_TRANS: u16 := 23456

  /** `as_trans_fit`. */
  function AsTransFit(asn: u32): (n: u16)
    ensures n == 0 <==> asn == 0
  {
    if asn > 0xffff then AS_TRANS else asn
  }

  /** What remains of an AS number at a given width. */
  function Narrow(asn: u32, four: bool): u32 {
    if four then asn else AsTransFit(asn)
  }

  function AsnWidth(four: bool): nat {
    if four then 4 else 2
  }

  function AsnBytes(asn: u32, four: bool): (b: Bytes)
    ensures |b| == AsnWidth(four)
  {
    if four then Be32(asn) else Be16(AsTransFit(asn))
  }

  function Kind(s: Segment): u8 {
    match s
    case Set(_) => 1
    case Sequence(_) => 2
    case ConfedSequence(_) => 3
    case ConfedSet(_) => 4
  }

  function OfKind(kind: u8, asns: seq<u32>): Option<Segment> {
    match kind
    case 1 => Some(Set(asns))
    case 2 => Some(Sequence(asns))
    case 3 => Some(ConfedSequence(asns))
    case 4 => Some(ConfedSet(asns))
    case _ => None
  }

  function EncodeAsns(asns: seq<u32>, four: bool): (b: Bytes)
    ensures |b| == if four then 4 * |asns| else 2 * |asns|
  {
    if asns == [] then [] else AsnBytes(asns[0], four) + EncodeAsns(asns[1..], four)
  }

  function ReadAsn(b: Bytes, four: bool): u32
    requires |b| >= AsnWidth(four)
  {
    if four then U32At(b, 0) else U16At(b, 0)
  }

  /** The AS numbers of a value whose length is a multiple of their width. */
  function DecodeAsns(b: Bytes, four: bool): seq<u32> {
    if |b| < AsnWidth(four) then [] else [ReadAsn(b, four)] + DecodeAsns(b[AsnWidth(four)..], four)
  }

  /** `AsPathSegment::encode`: the count is one octet, whatever the segment holds. */
  function EncodeSegment(s: Segment, four: bool): Bytes {
    [Kind(s), |s.asns| % 0x100] + EncodeAsns(s.asns, four)
  }

  /** `AsPathSegment::decode`. */
  function DecodeSegment(buf: Bytes, four: bool): (r: Option<(Segment, nat)>)
    ensures r.Some? ==> 2 <= r.value.1 <= |buf|
  {
    if |buf| < 2 then None
    else
      var count: nat := buf[1];
      var end := 2 + if four then 4 * count else 2 * count;
      if |buf| < end then None
      else match OfKind(buf[0], DecodeAsns(buf[2..end], four))
        case None => None
        case Some(s) => Some((s, end))
  }

  /** A segment of a path: AS 0 is refused. */
  function DecodeHop(four: bool): (dec: Bytes -> Option<(Segment, nat)>)
    ensures Progresses(dec)
  {
    buf =>
      match DecodeSegment(buf, four)
      case None => None
      case Some((s, n)) => if 0 in s.asns then None else Some((s, n))
  }

  function Chunks(p: seq<Segment>, four: bool): (r: seq<Bytes>)
    ensures |r| == |p| && forall i | 0 <= i < |p| :: r[i] == EncodeSegment(p[i], four)
  {
    seq(|p|, i requires 0 <= i < |p| => EncodeSegment(p[i], four))
  }

  function EncodePath(p: seq<Segment>, four: bool): Bytes {
    Joined(Chunks(p, four))
  }

  /** `decode_as_segments`. */
  function DecodePath(value: Bytes, four: bool): (r: Option<seq<Segment>>) {
    DecodeEach(value, DecodeHop(four))
  }

  function NarrowAsns(asns: seq<u32>, four: bool): (r: seq<u32>)
    ensures |r| == |asns| && forall i | 0 <= i < |r| :: r[i] == Narrow(asns[i], four)
  {
    seq(|asns|, i requires 0 <= i < |asns| => Narrow(asns[i], four))
  }

  /** What a width leaves of a segment. */
  function NarrowSegment(s: Segment, four: bool): (t: Segment)
    ensures |t.asns| == |s.asns|
  {
    var asns := NarrowAsns(s.asns, four);
    match s
    case Set(_) => Set(asns)
    case Sequence(_) => Sequence(asns)
    case ConfedSequence(_) => ConfedSequence(asns)
    case ConfedSet(_) => ConfedSet(asns)
  }

  function NarrowPath(p: seq<Segment>, four: bool): (q: seq<Segment>)
    ensures |q| == |p| && forall i | 0 <= i < |p| :: q[i] == NarrowSegment(p[i], four)
  {
    seq(|p|, i requires 0 <= i < |p| => NarrowSegment(p[i], four))
  }

  /** A segment the wire can carry: a count of one octet and no AS 0. */
  predicate Carried(s: Segment) {
    |s.asns| <= 255 && 0 !in s.asns
  }

  // ---- Round trip ----------------------------------------------------------------------------

  lemma ReadWrittenAsn(asn: u32, four: bool, rest: Bytes)
    ensures ReadAsn(AsnBytes(asn, four) + rest, four) == Narrow(asn, four)
  {
    var b := AsnBytes(asn, four) + rest;
    assert b[0..AsnWidth(four)] == AsnBytes(asn, four);
    if four {
      U32RoundTrip(b, 0, asn);
    } else {
      U16RoundTrip(b, 0, AsTransFit(asn));
    }
  }

  lemma OneAsnReadsBack(asn: u32, four: bool, more: Bytes)
    ensures DecodeAsns(AsnBytes(asn, four) + more, four) == [Narrow(asn, four)] + DecodeAsns(more, four)
  {
    ReadWrittenAsn(asn, four, more);
    assert (AsnBytes(asn, four) + more)[AsnWidth(four)..] == more;
  }

  lemma {:induction false} AsnsRoundTrip(asns: seq<u32>, four: bool)
    ensures DecodeAsns(EncodeAsns(asns, four), four) == NarrowAsns(asns, four)
  {
    if asns != [] {
      OneAsnReadsBack(asns[0], four, EncodeAsns(asns[1..], four));
      AsnsRoundTrip(asns[1..], four);
      assert NarrowAsns(asns, four) == [Narrow(asns[0], four)] + NarrowAsns(asns[1..], four);
    }
  }

  lemma SegmentReadsBack(s: Segment, four: bool, rest: Bytes)
    requires |s.asns| <= 255
    ensures DecodeSegment(EncodeSegment(s, four) + rest, four) == Some((NarrowSegment(s, four), |EncodeSegment(s, four)|))
  {
    var b := EncodeSegment(s, four);
    var buf := b + rest;
    assert buf[0] == Kind(s) && buf[1] == |s.asns|;
    assert buf[2..|b|] == EncodeAsns(s.asns, four);
    AsnsRoundTrip(s.asns, four);
  }

  lemma {:induction false} AsnCount(b: Bytes, four: bool)
    ensures |DecodeAsns(b, four)| == if four then |b| / 4 else |b| / 2
  {
    if |b| >= AsnWidth(four) { AsnCount(b[AsnWidth(four)..], four); }
  }

  lemma NarrowKeepsZero(s: Segment, four: bool)
    ensures 0 in NarrowSegment(s, four).asns <==> 0 in s.asns
  {
    var t := NarrowSegment(s, four);
    assert forall i | 0 <= i < |s.asns| :: t.asns[i] == 0 <==> s.asns[i] == 0;
  }

  lemma ShortHopReadsBack(s: Segment, four: bool, rest: Bytes)
    requires |s.asns| <= 255
    ensures DecodeHop(four)(EncodeSegment(s, four) + rest) ==
      if 0 in s.asns then None else Some((NarrowSegment(s, four), |EncodeSegment(s, four)|))
  {
    SegmentReadsBack(s, four, rest);
    NarrowKeepsZero(s, four);
  }

  lemma DecodedSegmentIsShort(buf: Bytes, four: bool)
    requires DecodeSegment(buf, four).Some?
    ensures |DecodeSegment(buf, four).value.0.asns| <= 255
  {
    AsnCount(buf[2..DecodeSegment(buf, four).value.1], four);
  }

  lemma HopReadsOrNot(s: Segment, four: bool)
    ensures Carried(s) ==> Reads(DecodeHop(four), EncodeSegment(s, four), NarrowSegment(s, four))
    ensures !Carried(s) ==> Misreads(DecodeHop(four), EncodeSegment(s, four), NarrowSegment(s, four))
  {
    forall rest: Bytes
      ensures var r := DecodeHop(four)(EncodeSegment(s, four) + rest);
        if Carried(s) then r == Some((NarrowSegment(s, four), |EncodeSegment(s, four)|))
        else r.Some? ==> r.value.0 != NarrowSegment(s, four)
    {
      if |s.asns| <= 255 {
        ShortHopReadsBack(s, four, rest);
      } else if DecodeSegment(EncodeSegment(s, four) + rest, four).Some? {
        DecodedSegmentIsShort(EncodeSegment(s, four) + rest, four);
      }
    }
  }

  /** A path comes back, narrowed to the width, exactly when every segment can be carried. */
  lemma PathRoundTrip(p: seq<Segment>, four: bool)
    ensures DecodePath(EncodePath(p, four), four) == Some(NarrowPath(p, four)) <==> forall s | s in p :: Carried(s)
  {
    var good := Each(p, (s: Segment) => Carried(s));
    forall i | 0 <= i < |p|
      ensures if good[i] then Reads(DecodeHop(four), Chunks(p, four)[i], NarrowPath(p, four)[i])
              else Misreads(DecodeHop(four), Chunks(p, four)[i], NarrowPath(p, four)[i])
    {
      HopReadsOrNot(p[i], four);
    }
    JoinedReadsBackIff(Chunks(p, four), NarrowPath(p, four), DecodeHop(four), good);
    assert false !in good <==> forall i | 0 <= i < |p| :: good[i];
  }

  // ---- The loops -----------------------------------------------------------------------------

  /** The loop of `AsPathSegment::encode`. */
  method PushSegment(s: Segment, four: bool, front: Bytes) returns (out: Bytes)
    ensures out == front + EncodeSegment(s, four)
  {
    out := front + [Kind(s), |s.asns| % 0x100];
    ghost var head := out;
    assert s.asns[0..] == s.asns;
    for i := 0 to |s.asns|
      invariant out + EncodeAsns(s.asns[i..], four) == head + EncodeAsns(s.asns, four)
    {
      assert s.asns[i..][1..] == s.asns[i + 1..];
      AppendAssociates(out, AsnBytes(s.asns[i], four), EncodeAsns(s.asns[i + 1..], four));
      out := out + AsnBytes(s.asns[i], four);
    }
    AppendAssociates(front, [Kind(s), |s.asns| % 0x100], EncodeAsns(s.asns, four));
  }

  /** The AS_PATH arm of `encode_value`. */
  method PushPath(p: seq<Segment>, four: bool) returns (out: Bytes)
    ensures out == EncodePath(p, four)
  {
    out := [];
    for i := 0 to |p|
      invariant out == Joined(Chunks(p, four)[..i])
    {
      JoinedStep(Chunks(p, four), i);
      out := PushSegment(p[i], four, out);
    }
    assert Chunks(p, four)[..|p|] == Chunks(p, four);
  }

  /** `decode_as_segments`. */
  method PullPath(value: Bytes, four: bool) returns (r: Option<seq<Segment>>)
    ensures r == DecodePath(value, four)
  {
    r := PullEach(value, DecodeHop(four));
  }
}
