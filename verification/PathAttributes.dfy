/** Path attributes on the wire (`attr.rs`): framing, flag validation, attribute discard
    (RFC 7606) and the values of the attributes of a unicast route. */
module PathAttributes {
  import opened Wrappers
  import opened Net
  import opened ByteOrder
  import opened Framing
  import opened PrefixCodec
  import opened AsPath
  import opened AsPathCodec
  import Decision

  const AFI_IPV4: u16 := 1
  const AFI_IPV6: u16 := 2
  const SAFI_UNICAST: u8 := 1

  datatype Attribute =
    | OriginAttr(origin: Decision.Origin)
    | AsPathAttr(path: seq<Segment>)
    | NextHopAttr(addr: Octets4)
    | MultiExitDisc(med: u32)
    | LocalPref(pref: u32)
    | AtomicAggregate
    | Aggregator(asn: u32, id: Octets4)
    | Communities(tags: seq<u32>)
    | ClusterList(ids: seq<u32>)
    | MpReach(afi: u16, safi: u8, nextHop: Bytes, nlri: seq<Network>)
    | MpUnreach(afi: u16, safi: u8, withdrawn: seq<Network>)
    | As4PathAttr(path4: seq<Segment>)
    | Plain(plainCode: u8, octets: Bytes)
    | Unknown(flags: u8, code: u8, value: Bytes)
  {
    function TypeCode(): u8 {
      match this
      case OriginAttr(_) => 1
      case AsPathAttr(_) => 2
      case NextHopAttr(_) => 3
      case MultiExitDisc(_) => 4
      case LocalPref(_) => 5
      case AtomicAggregate => 6
      case Aggregator(_, _) => 7
      case Communities(_) => 8
      case ClusterList(_) => 10
      case MpReach(_, _, _, _) => 14
      case MpUnreach(_, _, _) => 15
      case As4PathAttr(_) => 17
      case Plain(code, _) => code
      case Unknown(_, code, _) => code
    }

    /** `canonical_flags`. */
    function CanonicalFlags(): u8 {
      if Unknown? then flags else KnownFlags(TypeCode())
    }
  }

  /** Well-known attributes are transitive; the others are optional, some transitive. */
  function KnownFlags(code: u8): u8 {
    if code == 4 || code == 9 || code == 10 || code == 14 || code == 15 then 0x80
    else if code == 7 || code == 8 || code == 17 || code == 16 || code == 18 || code == 32 || code == 35 then 0xc0
    else 0x40
  }

  // ---- Flags ---------------------------------------------------------------------------------

  /** Optional, Transitive and Partial: the three high bits. */
  function Top(flags: u8): nat { flags / 32 }

  predicate Optional(flags: u8) { Top(flags) / 4 == 1 }
  predicate Transitive(flags: u8) { Top(flags) / 2 % 2 == 1 }
  predicate Partial(flags: u8) { Top(flags) % 2 == 1 }
  predicate Extended(flags: u8) { flags % 32 / 16 == 1 }

  /** The extended-length bit set or cleared. */
  function WithExtended(flags: u8, e: bool): (f: u8)
    ensures Extended(f) == e && Top(f) == Top(flags)
    ensures f == flags <==> Extended(flags) == e
  {
    32 * Top(flags) + 16 * One(e) + flags % 16
  }

  /** The check of section 3(c) of RFC 7606: Optional and Transitive as the canonical flags
      have them, Partial only on an optional transitive attribute. */
  predicate FlagsAgree(flags: u8, canonical: u8) {
    && Optional(flags) == Optional(canonical)
    && Transitive(flags) == Transitive(canonical)
    && (Partial(flags) ==> Optional(canonical) && Transitive(canonical))
  }

  // ---- Framing -------------------------------------------------------------------------------

  /** An attribute as framed on the wire. */
  datatype Frame = Frame(flags: u8, code: u8, value: Bytes)

  /** The octets `encode` writes: the length takes two octets when one does not hold it. */
  function WriteFrame(f: Frame): (b: Bytes)
    ensures |b| >= 3
  {
    var n := |f.value|;
    [WithExtended(f.flags, n > 255), f.code]
      + (if n > 255 then Be16(n % 0x1_0000) else [n]) + f.value
  }

  function ReadFrame(buf: Bytes): (r: Option<(Frame, nat)>)
    ensures r.Some? ==> 3 <= r.value.1 <= |buf|
  {
    if |buf| < 3 || (Extended(buf[0]) && |buf| < 4) then None
    else
      var len: nat := if Extended(buf[0]) then U16At(buf, 2) else buf[2];
      var header := if Extended(buf[0]) then 4 else 3;
      if |buf| < header + len then None
      else Some((Frame(buf[0], buf[1], buf[header..header + len]), header + len))
  }

  lemma FrameReadsBack(f: Frame, rest: Bytes)
    requires |f.value| <= 0xffff
    ensures ReadFrame(WriteFrame(f) + rest)
         == Some((f.(flags := WithExtended(f.flags, |f.value| > 255)), |WriteFrame(f)|))
  {
    var b := WriteFrame(f);
    var buf := b + rest;
    var n := |f.value|;
    assert buf[0] == WithExtended(f.flags, n > 255) && buf[1] == f.code;
    if n > 255 {
      assert buf[2..4] == Be16(n);
      U16RoundTrip(buf, 2, n);
      assert buf[4..4 + n] == f.value;
    } else {
      assert buf[2] == n;
      assert buf[3..3 + n] == f.value;
    }
  }

  // ---- Values --------------------------------------------------------------------------------

  function OriginOf(code: u8): Option<Decision.Origin> {
    match code
    case 0 => Some(Decision.Igp)
    case 1 => Some(Decision.Egp)
    case 2 => Some(Decision.Incomplete)
    case _ => None
  }

  function EncodeNetwork(p: Network): Bytes {
    EncodePrefixAny(p)
  }

  function DecodeNetwork(afi: u16): (dec: Bytes -> Option<(Network, nat)>)
    ensures Progresses(dec)
  {
    buf =>
      match if afi == AFI_IPV6 then DecodePrefixV6(buf) else DecodePrefix(buf)
      case None => None
      case Some((p, n)) => Some((p, n))
  }

  /** `decode_mp_prefixes`. */
  function DecodeNetworks(buf: Bytes, afi: u16): Option<seq<Network>> {
    DecodeEach(buf, DecodeNetwork(afi))
  }

  predicate KnownFamily(afi: u16, safi: u8) {
    (afi == AFI_IPV4 || afi == AFI_IPV6) && safi == SAFI_UNICAST
  }

  /** `unicast_next_hop_len`. */
  predicate NextHopLen(afi: u16, n: nat) {
    if afi == AFI_IPV4 then n == 4 || n == 16 || n == 32
    else afi == AFI_IPV6 && (n == 16 || n == 32)
  }

  function MpReachOctets(afi: u16, safi: u8, nextHop: Bytes, nets: Bytes): Bytes {
    Be16(afi) + [safi, |nextHop| % 0x100] + nextHop + [0] + nets
  }

  function EncodeMpReach(afi: u16, safi: u8, nextHop: Bytes, nlri: seq<Network>): Bytes {
    MpReachOctets(afi, safi, nextHop, Joined(Each(nlri, EncodeNetwork)))
  }

  datatype MpHeader = MpHeader(afi: u16, safi: u8, nextHop: Bytes, nets: Bytes)

  /** The fields before the prefixes, of a family and a next hop that unicast defines. */
  function ReadMpReach(v: Bytes): Option<MpHeader> {
    if |v| < 5 then None
    else
      var afi, safi := U16At(v, 0), v[2];
      var n: nat := v[3];
      if |v| < 4 + n + 1 || !KnownFamily(afi, safi) || !NextHopLen(afi, n) then None
      else Some(MpHeader(afi, safi, v[4..4 + n], v[4 + n + 1..]))
  }

  function DecodeMpReach(v: Bytes): (r: Option<Attribute>)
    ensures r.Some? ==> r.value.TypeCode() == 14
  {
    match ReadMpReach(v)
    case None => None
    case Some(h) =>
      match DecodeNetworks(h.nets, h.afi)
      case None => None
      case Some(nlri) => Some(MpReach(h.afi, h.safi, h.nextHop, nlri))
  }

  function EncodeMpUnreach(afi: u16, safi: u8, withdrawn: seq<Network>): Bytes {
    Be16(afi) + [safi] + Joined(Each(withdrawn, EncodeNetwork))
  }

  function ReadMpUnreach(v: Bytes): Option<MpHeader> {
    if |v| < 3 || !KnownFamily(U16At(v, 0), v[2]) then None
    else Some(MpHeader(U16At(v, 0), v[2], [], v[3..]))
  }

  function DecodeMpUnreach(v: Bytes): (r: Option<Attribute>)
    ensures r.Some? ==> r.value.TypeCode() == 15
  {
    match ReadMpUnreach(v)
    case None => None
    case Some(h) =>
      match DecodeNetworks(h.nets, h.afi)
      case None => None
      case Some(withdrawn) => Some(MpUnreach(h.afi, h.safi, withdrawn))
  }

  /** `encode_value`. */
  function EncodeValue(a: Attribute, four: bool): Bytes {
    match a
    case OriginAttr(o) => [Decision.OriginCode(o)]
    case AsPathAttr(p) => EncodePath(p, four)
    case NextHopAttr(addr) => addr
    case MultiExitDisc(m) => Be32(m)
    case LocalPref(p) => Be32(p)
    case AtomicAggregate => []
    case Aggregator(asn, id) => AsnBytes(asn, four) + id
    case Communities(tags) => EncodeAsns(tags, true)
    case ClusterList(ids) => EncodeAsns(ids, true)
    case MpReach(afi, safi, nh, nlri) => EncodeMpReach(afi, safi, nh, nlri)
    case MpUnreach(afi, safi, w) => EncodeMpUnreach(afi, safi, w)
    case As4PathAttr(p) => EncodePath(p, true)
    case Plain(_, v) => v
    case Unknown(_, _, v) => v
  }

  /** What a value turns out to be. */
  datatype Parsed =
    | Malformed
    | Discardable
    | Value(attr: Attribute)

  function OrMalformed(a: Option<Attribute>): Parsed {
    if a.None? then Malformed else Value(a.value)
  }

  function DecodePathValue(v: Bytes, four: bool, as4: bool): (r: Option<Attribute>)
    ensures r.Some? ==> r.value.TypeCode() == if as4 then 17 else 2
  {
    match DecodePath(v, four)
    case None => None
    case Some(p) => Some(if as4 then As4PathAttr(p) else AsPathAttr(p))
  }

  /** A wrong-length AGGREGATOR is discardable (section 7.7 of RFC 7606). */
  function DecodeAggregator(v: Bytes, four: bool): (r: Parsed)
    ensures !r.Malformed? && (r.Value? ==> r.attr.TypeCode() == 7)
  {
    var w := AsnWidth(four);
    if |v| != w + 4 then Discardable else Value(Aggregator(ReadAsn(v, four), v[w..w + 4]))
  }

  function DecodeOrigin(v: Bytes): (r: Option<Attribute>)
    ensures r.Some? ==> r.value.TypeCode() == 1
  {
    if |v| != 1 || OriginOf(v[0]).None? then None else Some(OriginAttr(OriginOf(v[0]).value))
  }

  function DecodeFixed4(code: u8, v: Bytes): (r: Option<Attribute>)
    requires 3 <= code <= 5
    ensures r.Some? ==> r.value.TypeCode() == code
  {
    if |v| != 4 then None
    else Some(if code == 3 then NextHopAttr(v) else if code == 4 then MultiExitDisc(U32At(v, 0)) else LocalPref(U32At(v, 0)))
  }

  function DecodeTags(code: u8, v: Bytes): (r: Option<Attribute>)
    requires code == 8 || code == 10
    ensures r.Some? ==> r.value.TypeCode() == code
  {
    if |v| % 4 != 0 then None
    else Some(if code == 8 then Communities(DecodeAsns(v, true)) else ClusterList(DecodeAsns(v, true)))
  }

  /** ORIGINATOR_ID, EXTENDED_COMMUNITIES, AS4_AGGREGATOR, LARGE_COMMUNITIES and
      ONLY_TO_CUSTOMER: nothing but the length of the value is checked. */
  predicate PlainLength(code: u8, n: nat) {
    || (code == 9 && n == 4)
    || (code == 16 && n % 8 == 0)
    || (code == 18 && n == 8)
    || (code == 32 && n % 12 == 0)
    || (code == 35 && n == 4)
  }

  predicate IsPlain(code: u8) {
    code == 9 || code == 16 || code == 18 || code == 32 || code == 35
  }

  function DecodePlain(code: u8, v: Bytes): (r: Option<Attribute>)
    ensures r.Some? ==> r.value.TypeCode() == code
  {
    if PlainLength(code, |v|) then Some(Plain(code, v)) else None
  }

  /** The type codes with a decoder of their own. */
  predicate Modelled(code: u8) {
    1 <= code <= 8 || code == 10 || code == 14 || code == 15 || code == 17 || IsPlain(code)
  }

  /** The arms of the `match type_code` of `decode`. */
  function DecodeKnown(code: u8, v: Bytes, four: bool): (r: Parsed)
    requires Modelled(code)
    ensures r.Value? ==> r.attr.TypeCode() == code
    ensures r.Discardable? ==> code == 6 || code == 7
  {
    match code
    case 1 => OrMalformed(DecodeOrigin(v))
    case 2 => OrMalformed(DecodePathValue(v, four, false))
    case 6 => if v == [] then Value(AtomicAggregate) else Discardable
    case 7 => DecodeAggregator(v, four)
    case 14 => OrMalformed(DecodeMpReach(v))
    case 15 => OrMalformed(DecodeMpUnreach(v))
    case 17 => OrMalformed(DecodePathValue(v, true, true))
    case _ => OrMalformed(
      if IsPlain(code) then DecodePlain(code, v)
      else if code <= 5 then DecodeFixed4(code, v)
      else DecodeTags(code, v))
  }

  function DecodeValue(f: Frame, four: bool): (r: Parsed)
    ensures r.Value? ==> r.attr.TypeCode() == f.code
    ensures r.Discardable? ==> f.code == 6 || f.code == 7
  {
    if Modelled(f.code) then DecodeKnown(f.code, f.value, four)
    else Value(Unknown(f.flags, f.code, f.value))
  }

  // ---- Whole attributes ------------------------------------------------------------------------

  /** `AttrOutcome`, with the type code that has now appeared: a discarded attribute has
      nothing to keep. */
  datatype Outcome = Outcome(code: u8, kept: Option<Attribute>)

  /** `decode` after framing: flags that contradict the canonical ones make any attribute
      malformed, even one that would otherwise be discarded. */
  function Judge(flags: u8, code: u8, p: Parsed): (r: Option<Outcome>)
    ensures r.Some? ==> r.value.code == code
  {
    match p
    case Malformed => None
    case Discardable => if FlagsAgree(flags, KnownFlags(code)) then Some(Outcome(code, None)) else None
    case Value(a) => if FlagsAgree(flags, a.CanonicalFlags()) then Some(Outcome(code, Some(a))) else None
  }

  /** An attribute is discarded alone, rather than the routes withdrawn, exactly when it is a
      value-bearing ATOMIC_AGGREGATE or an AGGREGATOR of the wrong length, with proper flags. */
  lemma DiscardedExactly(f: Frame, four: bool)
    ensures Judge(f.flags, f.code, DecodeValue(f, four)) == Some(Outcome(f.code, None)) <==>
      && ((f.code == 6 && f.value != []) || (f.code == 7 && |f.value| != AsnWidth(four) + 4))
      && FlagsAgree(f.flags, KnownFlags(f.code))
  {
    DiscardableExactly(f, four);
  }

  lemma DiscardableExactly(f: Frame, four: bool)
    ensures DecodeValue(f, four).Discardable? <==>
      (f.code == 6 && f.value != []) || (f.code == 7 && |f.value| != AsnWidth(four) + 4)
  {
    if f.code == 7 {
      assert DecodeValue(f, four) == DecodeAggregator(f.value, four);
    }
  }

  function DecodeAttribute(four: bool): (dec: Bytes -> Option<(Outcome, nat)>)
    ensures Progresses(dec)
  {
    buf =>
      match ReadFrame(buf)
      case None => None
      case Some((f, n)) =>
        match Judge(f.flags, f.code, DecodeValue(f, four))
        case None => None
        case Some(o) => Some((o, n))
  }

  function FrameOf(a: Attribute, four: bool): Frame {
    Frame(a.CanonicalFlags(), a.TypeCode(), EncodeValue(a, four))
  }

  function EncodeAttribute(a: Attribute, four: bool): (b: Bytes)
    ensures |b| >= 3
  {
    WriteFrame(FrameOf(a, four))
  }

  /** What a session's AS width leaves of an attribute. */
  function AtWidth(a: Attribute, four: bool): (b: Attribute)
    ensures b.TypeCode() == a.TypeCode() && b.CanonicalFlags() == a.CanonicalFlags()
  {
    match a
    case AsPathAttr(p) => AsPathAttr(NarrowPath(p, four))
    case Aggregator(asn, id) => Aggregator(Narrow(asn, four), id)
    case _ => a
  }

  predicate InFamily(p: Network, afi: u16) {
    if afi == AFI_IPV6 then p.addr.V6? else p.addr.V4?
  }

  /** What an attribute must be for the wire to carry it, apart from its length. */
  predicate Proper(a: Attribute) {
    match a
    case AsPathAttr(p) => forall s | s in p :: Carried(s)
    case As4PathAttr(p) => forall s | s in p :: Carried(s)
    case MpReach(afi, safi, nh, nlri) =>
      KnownFamily(afi, safi) && NextHopLen(afi, |nh|) && forall p | p in nlri :: InFamily(p, afi)
    case MpUnreach(afi, safi, w) => KnownFamily(afi, safi) && forall p | p in w :: InFamily(p, afi)
    case Plain(code, v) => PlainLength(code, |v|)
    case Unknown(flags, code, v) =>
      !Modelled(code) && Extended(flags) == (|v| > 255)
      && (Partial(flags) ==> Optional(flags) && Transitive(flags))
    case _ => true
  }

  predicate Sendable(a: Attribute, four: bool) {
    Proper(a) && |EncodeValue(a, four)| <= 0xffff
  }

  // ---- Values read back -------------------------------------------------------------------------

  lemma NetworkReadsBack(p: Network, afi: u16)
    requires InFamily(p, afi)
    ensures Reads(DecodeNetwork(afi), EncodeNetwork(p), p)
  {
    forall rest: Bytes ensures DecodeNetwork(afi)(EncodeNetwork(p) + rest) == Some((p, |EncodeNetwork(p)|)) {
      if afi == AFI_IPV6 {
        PrefixV6RoundTrip(p, rest);
      } else {
        PrefixRoundTrip(p, rest);
      }
    }
  }

  lemma NetworksReadBack(ps: seq<Network>, afi: u16)
    requires forall p | p in ps :: InFamily(p, afi)
    ensures DecodeNetworks(Joined(Each(ps, EncodeNetwork)), afi) == Some(ps)
  {
    forall i | 0 <= i < |ps| ensures Reads(DecodeNetwork(afi), EncodeNetwork(ps[i]), ps[i]) {
      NetworkReadsBack(ps[i], afi);
    }
    JoinedReadsBack(Each(ps, EncodeNetwork), ps, DecodeNetwork(afi));
  }

  lemma AfiReadsBack(v: Bytes, afi: u16, rest: Bytes)
    requires v == Be16(afi) + rest
    ensures U16At(v, 0) == afi
  {
    assert v[0..2] == Be16(afi);
    U16RoundTrip(v, 0, afi);
  }

  lemma MpReachFields(afi: u16, safi: u8, nh: Bytes, nets: Bytes)
    requires |nh| <= 255
    ensures
      var v := MpReachOctets(afi, safi, nh, nets);
      && |v| == 5 + |nh| + |nets| && U16At(v, 0) == afi && v[2] == safi && v[3] == |nh|
      && v[4..4 + |nh|] == nh && v[4 + |nh| + 1..] == nets
  {
    var v := MpReachOctets(afi, safi, nh, nets);
    assert v == Be16(afi) + ([safi, |nh|] + nh + [0] + nets);
    AfiReadsBack(v, afi, [safi, |nh|] + nh + [0] + nets);
    assert v[2] == safi && v[3] == |nh|;
    assert v[4..4 + |nh|] == nh;
    assert v[4 + |nh| + 1..] == nets;
  }

  lemma MpReachReadsBack(afi: u16, safi: u8, nh: Bytes, nlri: seq<Network>)
    requires KnownFamily(afi, safi) && NextHopLen(afi, |nh|) && forall p | p in nlri :: InFamily(p, afi)
    ensures DecodeMpReach(EncodeMpReach(afi, safi, nh, nlri)) == Some(MpReach(afi, safi, nh, nlri))
  {
    MpReachFields(afi, safi, nh, Joined(Each(nlri, EncodeNetwork)));
    NetworksReadBack(nlri, afi);
  }

  lemma MpUnreachReadsBack(afi: u16, safi: u8, w: seq<Network>)
    requires KnownFamily(afi, safi) && forall p | p in w :: InFamily(p, afi)
    ensures DecodeMpUnreach(EncodeMpUnreach(afi, safi, w)) == Some(MpUnreach(afi, safi, w))
  {
    var nets := Joined(Each(w, EncodeNetwork));
    var v := EncodeMpUnreach(afi, safi, w);
    assert v == Be16(afi) + ([safi] + nets);
    AfiReadsBack(v, afi, [safi] + nets);
    assert v[2] == safi && v[3..] == nets;
    NetworksReadBack(w, afi);
  }

  lemma TagsReadBack(tags: seq<u32>)
    ensures |EncodeAsns(tags, true)| % 4 == 0 && DecodeAsns(EncodeAsns(tags, true), true) == tags
  {
    AsnsRoundTrip(tags, true);
    assert NarrowAsns(tags, true) == tags;
  }

  lemma Word32ReadsBack(x: u32)
    ensures |Be32(x)| == 4 && U32At(Be32(x), 0) == x
  {
    assert Be32(x)[0..4] == Be32(x);
    U32RoundTrip(Be32(x), 0, x);
  }

  lemma AggregatorReadsBack(asn: u32, id: Octets4, four: bool)
    ensures DecodeAggregator(AsnBytes(asn, four) + id, four) == Value(Aggregator(Narrow(asn, four), id))
  {
    ReadWrittenAsn(asn, four, id);
    var v := AsnBytes(asn, four) + id;
    assert v[AsnWidth(four)..AsnWidth(four) + 4] == id;
  }

  lemma PathReadsBack(p: seq<Segment>, four: bool)
    requires forall s | s in p :: Carried(s)
    ensures DecodePath(EncodePath(p, four), four) == Some(NarrowPath(p, four))
    ensures four ==> NarrowPath(p, four) == p
  {
    PathRoundTrip(p, four);
    if four {
      forall i | 0 <= i < |p| ensures NarrowPath(p, four)[i] == p[i] {
        assert NarrowAsns(p[i].asns, four) == p[i].asns;
      }
      assert NarrowPath(p, four) == p;
    }
  }

  /** The value of `a` reads back at a session's AS width. */
  ghost predicate ValueReads(a: Attribute, four: bool) {
    Modelled(a.TypeCode()) && DecodeKnown(a.TypeCode(), EncodeValue(a, four), four) == Value(AtWidth(a, four))
  }

  lemma FixedValueReads(a: Attribute, four: bool)
    requires a.OriginAttr? || a.NextHopAttr? || a.MultiExitDisc? || a.LocalPref? || a.AtomicAggregate?
    ensures ValueReads(a, four)
  {
    if a.MultiExitDisc? { Word32ReadsBack(a.med); }
    if a.LocalPref? { Word32ReadsBack(a.pref); }
  }

  lemma ListValueReads(a: Attribute, four: bool)
    requires a.Communities? || a.ClusterList? || a.Aggregator?
    ensures ValueReads(a, four)
  {
    match a
    case Communities(tags) => TagsReadBack(tags);
    case ClusterList(ids) => TagsReadBack(ids);
    case Aggregator(asn, id) => AggregatorReadsBack(asn, id, four);
  }

  lemma AsPathValue(v: Bytes, q: seq<Segment>, four: bool)
    requires DecodePath(v, four) == Some(q)
    ensures DecodeKnown(2, v, four) == Value(AsPathAttr(q))
  {
  }

  lemma As4PathValue(v: Bytes, q: seq<Segment>, four: bool)
    requires DecodePath(v, true) == Some(q)
    ensures DecodeKnown(17, v, four) == Value(As4PathAttr(q))
  {
  }

  lemma MpReachValue(v: Bytes, a: Attribute, four: bool)
    requires DecodeMpReach(v) == Some(a)
    ensures DecodeKnown(14, v, four) == Value(a)
  {
  }

  lemma MpUnreachValue(v: Bytes, a: Attribute, four: bool)
    requires DecodeMpUnreach(v) == Some(a)
    ensures DecodeKnown(15, v, four) == Value(a)
  {
  }

  lemma AsPathValueReads(p: seq<Segment>, four: bool)
    requires Proper(AsPathAttr(p))
    ensures ValueReads(AsPathAttr(p), four)
  {
    PathReadsBack(p, four);
    AsPathValue(EncodePath(p, four), NarrowPath(p, four), four);
  }

  lemma As4PathValueReads(p: seq<Segment>, four: bool)
    requires Proper(As4PathAttr(p))
    ensures ValueReads(As4PathAttr(p), four)
  {
    PathReadsBack(p, true);
    As4PathValue(EncodePath(p, true), p, four);
  }

  lemma MpReachValueReads(a: Attribute, four: bool)
    requires a.MpReach? && Proper(a)
    ensures ValueReads(a, four)
  {
    MpReachReadsBack(a.afi, a.safi, a.nextHop, a.nlri);
    MpReachValue(EncodeMpReach(a.afi, a.safi, a.nextHop, a.nlri), a, four);
  }

  lemma MpUnreachValueReads(a: Attribute, four: bool)
    requires a.MpUnreach? && Proper(a)
    ensures ValueReads(a, four)
  {
    MpUnreachReadsBack(a.afi, a.safi, a.withdrawn);
    MpUnreachValue(EncodeMpUnreach(a.afi, a.safi, a.withdrawn), a, four);
  }

  lemma PlainValueReads(a: Attribute, four: bool)
    requires a.Plain? && Proper(a)
    ensures ValueReads(a, four)
  {
  }

  lemma AnyValueReads(a: Attribute, four: bool)
    requires Proper(a) && !a.Unknown?
    ensures ValueReads(a, four)
  {
    match a
    case AsPathAttr(p) => AsPathValueReads(p, four);
    case As4PathAttr(p) => As4PathValueReads(p, four);
    case MpReach(_, _, _, _) => MpReachValueReads(a, four);
    case MpUnreach(_, _, _) => MpUnreachValueReads(a, four);
    case Communities(_) => ListValueReads(a, four);
    case ClusterList(_) => ListValueReads(a, four);
    case Aggregator(_, _) => ListValueReads(a, four);
    case Plain(_, _) => PlainValueReads(a, four);
    case _ => FixedValueReads(a, four);
  }

  lemma CanonicalIsConsistent(a: Attribute)
    requires Proper(a)
    ensures Partial(a.CanonicalFlags()) ==> Optional(a.CanonicalFlags()) && Transitive(a.CanonicalFlags())
    ensures a.Unknown? ==> Extended(a.CanonicalFlags()) == (|a.value| > 255)
  {
  }

  lemma Accepted(flags: u8, canonical: u8)
    requires Top(flags) == Top(canonical)
    requires Partial(canonical) ==> Optional(canonical) && Transitive(canonical)
    ensures FlagsAgree(flags, canonical)
  {
  }

  /** The flags an attribute is written with are accepted. */
  lemma WrittenIsAccepted(a: Attribute, b: Attribute, e: bool)
    requires Proper(a) && b.TypeCode() == a.TypeCode() && b.CanonicalFlags() == a.CanonicalFlags()
    ensures Judge(WithExtended(a.CanonicalFlags(), e), a.TypeCode(), Value(b)) == Some(Outcome(a.TypeCode(), Some(b)))
  {
    CanonicalIsConsistent(a);
    Accepted(WithExtended(a.CanonicalFlags(), e), a.CanonicalFlags());
  }

  lemma ReadsFrame(f: Frame, four: bool, o: Outcome, flags: u8)
    requires |f.value| <= 0xffff && flags == WithExtended(f.flags, |f.value| > 255)
    requires Judge(flags, f.code, DecodeValue(Frame(flags, f.code, f.value), four)) == Some(o)
    ensures Reads(DecodeAttribute(four), WriteFrame(f), o)
  {
    forall rest: Bytes ensures DecodeAttribute(four)(WriteFrame(f) + rest) == Some((o, |WriteFrame(f)|)) {
      FrameReadsBack(f, rest);
    }
  }

  /** What an attribute is to come back as. */
  function Sent(a: Attribute, four: bool): Outcome {
    Outcome(a.TypeCode(), Some(AtWidth(a, four)))
  }

  lemma SendableReadsBack(a: Attribute, four: bool)
    requires Sendable(a, four)
    ensures Reads(DecodeAttribute(four), EncodeAttribute(a, four), Sent(a, four))
  {
    var f := FrameOf(a, four);
    var flags := WithExtended(f.flags, |f.value| > 255);
    if !a.Unknown? { AnyValueReads(a, four); }
    CanonicalIsConsistent(a);
    assert DecodeValue(Frame(flags, f.code, f.value), four) == Value(AtWidth(a, four));
    WrittenIsAccepted(a, AtWidth(a, four), |f.value| > 255);
    ReadsFrame(f, four, Sent(a, four), flags);
  }

  lemma UnknownFlags(flags: u8, e: bool)
    ensures
      var now := WithExtended(flags, e);
      FlagsAgree(now, now) <==> (Partial(flags) ==> Optional(flags) && Transitive(flags))
  {
  }

  lemma DecodeUnknown(buf: Bytes, f: Frame, n: nat, four: bool)
    requires !Modelled(f.code) && ReadFrame(buf) == Some((f, n))
    ensures DecodeAttribute(four)(buf) ==
      if FlagsAgree(f.flags, f.flags) then Some((Outcome(f.code, Some(Unknown(f.flags, f.code, f.value))), n)) else None
  {
  }

  /** An attribute kept verbatim comes back, unless its Partial bit stands on an attribute that
      is not optional transitive, with its extended-length bit as its length needs it: the same
      attribute exactly when the bit already said so. */
  lemma UnknownRoundTrip(f: Frame, four: bool, rest: Bytes)
    requires !Modelled(f.code) && |f.value| <= 0xffff
    ensures DecodeAttribute(four)(WriteFrame(f) + rest) ==
      if Partial(f.flags) ==> Optional(f.flags) && Transitive(f.flags)
      then Some((Outcome(f.code, Some(Unknown(WithExtended(f.flags, |f.value| > 255), f.code, f.value))), |WriteFrame(f)|))
      else None
    ensures WithExtended(f.flags, |f.value| > 255) == f.flags <==> Extended(f.flags) == (|f.value| > 255)
  {
    var e := |f.value| > 255;
    FrameReadsBack(f, rest);
    UnknownFlags(f.flags, e);
    DecodeUnknown(WriteFrame(f) + rest, Frame(WithExtended(f.flags, e), f.code, f.value), |WriteFrame(f)|, four);
  }

  // ---- Only what can be sent reads back ----------------------------------------------------------

  lemma DecodedInFamily(nets: Bytes, afi: u16)
    requires DecodeNetworks(nets, afi).Some?
    ensures forall p | p in DecodeNetworks(nets, afi).value :: InFamily(p, afi)
  {
    EachDecoded(nets, DecodeNetwork(afi), (p: Network) => InFamily(p, afi));
  }

  lemma DecodedMpReach(v: Bytes)
    requires DecodeMpReach(v).Some?
    ensures DecodeMpReach(v).value.MpReach? && Proper(DecodeMpReach(v).value)
  {
    var h := ReadMpReach(v).value;
    DecodedInFamily(h.nets, h.afi);
  }

  lemma DecodedMpUnreach(v: Bytes)
    requires DecodeMpUnreach(v).Some?
    ensures DecodeMpUnreach(v).value.MpUnreach? && Proper(DecodeMpUnreach(v).value)
  {
    var h := ReadMpUnreach(v).value;
    DecodedInFamily(h.nets, h.afi);
  }

  lemma PathReadsOnlyIf(a: Attribute, four: bool)
    requires a.AsPathAttr? || a.As4PathAttr?
    requires DecodeKnown(a.TypeCode(), EncodeValue(a, four), four) == Value(AtWidth(a, four))
    ensures Proper(a)
  {
    match a
    case AsPathAttr(p) =>
      assert DecodePath(EncodePath(p, four), four) == Some(NarrowPath(p, four));
      PathRoundTrip(p, four);
    case As4PathAttr(p) =>
      assert DecodePath(EncodePath(p, true), true) == Some(p);
      forall i | 0 <= i < |p| ensures NarrowPath(p, true)[i] == p[i] {
        assert NarrowAsns(p[i].asns, true) == p[i].asns;
      }
      assert NarrowPath(p, true) == p;
      PathRoundTrip(p, true);
  }

  lemma MpReadsOnlyIf(a: Attribute, four: bool)
    requires a.MpReach? || a.MpUnreach?
    requires DecodeKnown(a.TypeCode(), EncodeValue(a, four), four) == Value(AtWidth(a, four))
    ensures Proper(a)
  {
    var v := EncodeValue(a, four);
    if a.MpReach? {
      assert DecodeMpReach(v) == Some(a);
      DecodedMpReach(v);
    } else {
      assert DecodeMpUnreach(v) == Some(a);
      DecodedMpUnreach(v);
    }
  }

  /** A decoder of its own never keeps an attribute verbatim, and a plain one only of its length. */
  lemma KnownIsNotUnknown(code: u8, v: Bytes, four: bool)
    requires Modelled(code) && DecodeKnown(code, v, four).Value?
    ensures !DecodeKnown(code, v, four).attr.Unknown?
    ensures DecodeKnown(code, v, four).attr.Plain? ==> PlainLength(code, |v|)
  {
    if code == 14 {
      DecodedMpReach(v);
    } else if code == 15 {
      DecodedMpUnreach(v);
    }
  }

  lemma VerbatimReadsOnlyIf(a: Attribute, four: bool, flags: u8)
    requires a.Plain? || a.Unknown?
    requires flags == WithExtended(a.CanonicalFlags(), |EncodeValue(a, four)| > 255)
    requires Judge(flags, a.TypeCode(), DecodeValue(Frame(flags, a.TypeCode(), EncodeValue(a, four)), four))
          == Some(Sent(a, four))
    ensures Proper(a)
  {
    if Modelled(a.TypeCode()) {
      KnownIsNotUnknown(a.TypeCode(), EncodeValue(a, four), four);
    } else {
      UnknownFlags(a.CanonicalFlags(), |EncodeValue(a, four)| > 255);
    }
  }

  lemma OnlyProperReadsBack(a: Attribute, four: bool, flags: u8)
    requires flags == WithExtended(a.CanonicalFlags(), |EncodeValue(a, four)| > 255)
    requires Judge(flags, a.TypeCode(), DecodeValue(Frame(flags, a.TypeCode(), EncodeValue(a, four)), four))
          == Some(Sent(a, four))
    ensures Proper(a)
  {
    if a.Plain? || a.Unknown? {
      VerbatimReadsOnlyIf(a, four, flags);
    } else {
      assert DecodeValue(Frame(flags, a.TypeCode(), EncodeValue(a, four)), four) == Value(AtWidth(a, four));
      if a.AsPathAttr? || a.As4PathAttr? { PathReadsOnlyIf(a, four); }
      if a.MpReach? || a.MpUnreach? { MpReadsOnlyIf(a, four); }
    }
  }

  /** Two octets of length: a longer value is never read as a whole. */
  lemma WholeFrameIsShort(f: Frame, rest: Bytes)
    requires var r := ReadFrame(WriteFrame(f) + rest); r.Some? && r.value.1 == |WriteFrame(f)|
    ensures |f.value| <= 0xffff
  {
    var buf := WriteFrame(f) + rest;
    assert buf[0] == WithExtended(f.flags, |f.value| > 255);
  }

  /** An attribute comes back as the session's AS width leaves it, whatever follows, exactly when
      the wire can carry it. */
  lemma AttributeReadsBack(a: Attribute, four: bool)
    ensures Reads(DecodeAttribute(four), EncodeAttribute(a, four), Sent(a, four)) <==> Sendable(a, four)
  {
    if Sendable(a, four) { SendableReadsBack(a, four); }
    if Reads(DecodeAttribute(four), EncodeAttribute(a, four), Sent(a, four)) {
      var f := FrameOf(a, four);
      assert DecodeAttribute(four)(EncodeAttribute(a, four) + []) == Some((Sent(a, four), |EncodeAttribute(a, four)|));
      WholeFrameIsShort(f, []);
      FrameReadsBack(f, []);
      OnlyProperReadsBack(a, four, WithExtended(f.flags, |f.value| > 255));
    }
  }
}
