/** Babel packets (`lib.rs` and `tlv.rs` of `wren-babel`; section 4 of RFC 8966): the walk over
    the TLVs and the default-prefix register that compressed Updates are read against. */
module BabelPacket {
  import opened Wrappers
  import opened Net
  import opened ByteOrder
  import opened Framing
  import opened PrefixCodec

  const MAGIC: u8 := 42
  const VERSION: u8 := 2

  const AE_WILDCARD: u8 := 0
  const AE_IPV4: u8 := 1
  const AE_IPV6: u8 := 2
  const AE_IPV6_LL: u8 := 3

  datatype Tlv =
    | Pad1
    | PadN(n: u8)
    | AckReq(nonce: u16, interval: u16)
    | Ack(nonce: u16)
    | Hello(hflags: u16, seqno: u16, interval: u16)
    | Ihu(rxcost: u16, interval: u16, address: Option<IpAddr>)
    | RouterId(id: Octets8)
    | NextHopTlv(nextHop: IpAddr)
    | Update(flags: u8, interval: u16, seqno: u16, metric: u16, prefix: Network)
    | RouteRequest(wanted: Option<Network>)
    | SeqnoRequest(seqno: u16, hopCount: u8, id: Octets8, prefix: Network)
    | Unknown(code: u8, body: Bytes)
  {
    function TypeCode(): u8 {
      match this
      case Pad1 => 0
      case PadN(_) => 1
      case AckReq(_, _) => 2
      case Ack(_) => 3
      case Hello(_, _, _) => 4
      case Ihu(_, _, _) => 5
      case RouterId(_) => 6
      case NextHopTlv(_) => 7
      case Update(_, _, _, _, _) => 8
      case RouteRequest(_) => 9
      case SeqnoRequest(_, _, _, _) => 10
      case Unknown(code, _) => code
    }
  }

  // ---- Addresses -----------------------------------------------------------------------------

  /** `fe80::/10`. */
  predicate IsLinkLocal(o: Octets16) {
    o[0] == 0xfe && o[1] / 64 == 2
  }

  const LINK_LOCAL_FRONT: Bytes := [0xfe, 0x80, 0, 0, 0, 0, 0, 0]

  function AddressAe(ip: IpAddr): u8 {
    match ip
    case V4(_) => AE_IPV4
    case V6(o) => if IsLinkLocal(o) then AE_IPV6_LL else AE_IPV6
  }

  /** `write_address`: of a link-local address the low eight octets. */
  function AddressOctets(ip: IpAddr): (b: Bytes)
    ensures |b| <= 16
  {
    match ip
    case V4(o) => o
    case V6(o) => if IsLinkLocal(o) then o[8..] else o
  }

  /** `read_address`. */
  function ReadAddress(ae: u8, buf: Bytes): Option<IpAddr> {
    if ae == AE_IPV4 then if |buf| < 4 then None else Some(V4(buf[..4]))
    else if ae == AE_IPV6 then if |buf| < 16 then None else Some(V6(buf[..16]))
    else if ae == AE_IPV6_LL then if |buf| < 8 then None else Some(V6(LINK_LOCAL_FRONT + buf[..8]))
    else None
  }

  /** An address reads back exactly when it is not a link-local one outside `fe80::/64`. */
  lemma AddressRoundTrip(ip: IpAddr)
    ensures ReadAddress(AddressAe(ip), AddressOctets(ip)) == Some(ip) <==> AddressSurvives(ip)
  {
    var o, b := ip.Octets(), AddressOctets(ip);
    assert b[..|b|] == b;
    if ip.V6? && IsLinkLocal(o) {
      assert o == o[..8] + o[8..];
      assert (LINK_LOCAL_FRONT + b)[..8] == LINK_LOCAL_FRONT;
    }
  }

  predicate AddressSurvives(ip: IpAddr) {
    ip.V6? && IsLinkLocal(ip.v6) ==> ip.v6[..8] == LINK_LOCAL_FRONT
  }

  // ---- Prefixes and the default-prefix register ------------------------------------------------

  /** The default prefix per family: where omitted octets come from. */
  datatype Defaults = Defaults(v4: Octets4, v6: Octets16)

  function NoDefaults(): Defaults {
    Defaults([0, 0, 0, 0], seq(16, i => 0))
  }

  function SetDefault(d: Defaults, p: Network): Defaults {
    match p.addr
    case V4(o) => d.(v4 := o)
    case V6(o) => d.(v6 := o)
  }

  function PrefixAe(p: Network): u8 {
    if p.addr.V4? then AE_IPV4 else AE_IPV6
  }

  /** `write_prefix`: the significant octets, none omitted. */
  function PrefixOctets(p: Network): (b: Bytes)
    ensures |b| == CeilOctets(p.len) <= 16
  {
    p.addr.Octets()[..CeilOctets(p.len)]
  }

  /** The octets an omission of `k` leaves to be sent. */
  function RemainingOctets(p: Network, k: nat): Bytes
    requires k <= CeilOctets(p.len)
  {
    p.addr.Octets()[k..CeilOctets(p.len)]
  }

  function Rebuilt(front: Bytes, sent: Bytes, width: nat): (o: Bytes)
    requires |front| + |sent| <= width
    ensures |o| == width
  {
    ZeroFilled(front + sent, width)
  }

  /** `read_prefix`: the first octets from the default prefix, the rest from the buffer. */
  function ReadPrefix(ae: u8, plen: u8, omitted: u8, buf: Bytes, d: Defaults): Option<Network> {
    if ae != AE_IPV4 && ae != AE_IPV6 then None
    else
      var width := if ae == AE_IPV4 then 4 else 16;
      if plen > 8 * width || omitted > CeilOctets(plen) then None
      else
        var present := CeilOctets(plen) - omitted;
        if |buf| < present then None
        else
          var front := if ae == AE_IPV4 then d.v4[..omitted] else d.v6[..omitted];
          var o := Rebuilt(front, buf[..present], width);
          Some(NewPrefix(if ae == AE_IPV4 then V4(o) else V6(o), plen).value)
  }

  lemma RebuiltPrefix(p: Network, front: Bytes, sent: Bytes)
    requires front + sent == PrefixOctets(p)
    ensures Rebuilt(front, sent, |p.addr.Octets()|) == p.addr.Octets()
  {
    assert p.addr == Mask(p.addr, p.len);
    MaskedTailIsZero(p.addr.Octets(), p.len);
  }

  /** Decompression undoes omission: octets that agree with the default prefix of the family
      need not be sent. */
  lemma DecompressionUndoesOmission(p: Network, k: u8, rest: Bytes, d: Defaults)
    requires k <= CeilOctets(p.len)
    requires p.addr.Octets()[..k] == (if p.addr.V4? then d.v4[..k] else d.v6[..k])
    ensures ReadPrefix(PrefixAe(p), p.len, k, RemainingOctets(p, k) + rest, d) == Some(p)
  {
    var o, n := p.addr.Octets(), CeilOctets(p.len);
    var sent := RemainingOctets(p, k);
    assert (sent + rest)[..n - k] == sent;
    assert o[..k] + sent == o[..n];
    RebuiltPrefix(p, o[..k], sent);
    assert p.addr == Mask(p.addr, p.len);
  }

  /** A prefix sent whole does not depend on the register. */
  lemma PrefixReadsBack(p: Network, rest: Bytes, d: Defaults)
    ensures ReadPrefix(PrefixAe(p), p.len, 0, PrefixOctets(p) + rest, d) == Some(p)
  {
    assert RemainingOctets(p, 0) == PrefixOctets(p);
    DecompressionUndoesOmission(p, 0, rest, d);
  }

  // ---- TLV bodies ----------------------------------------------------------------------------

  /** `encode_body`. */
  function EncodeBody(t: Tlv): Bytes {
    match t
    case Pad1 => []
    case PadN(n) => seq(n, i => 0)
    case AckReq(nonce, interval) => [0, 0] + Be16(nonce) + Be16(interval)
    case Ack(nonce) => Be16(nonce)
    case Hello(flags, seqno, interval) => Be16(flags) + Be16(seqno) + Be16(interval)
    case Ihu(rxcost, interval, None) => [AE_WILDCARD, 0] + Be16(rxcost) + Be16(interval)
    case Ihu(rxcost, interval, Some(ip)) => [AddressAe(ip), 0] + Be16(rxcost) + Be16(interval) + AddressOctets(ip)
    case RouterId(id) => [0, 0] + id
    case NextHopTlv(ip) => [AddressAe(ip), 0] + AddressOctets(ip)
    case Update(flags, interval, seqno, metric, p) =>
      [PrefixAe(p), flags, p.len, 0] + Be16(interval) + Be16(seqno) + Be16(metric) + PrefixOctets(p)
    case RouteRequest(None) => [AE_WILDCARD, 0]
    case RouteRequest(Some(p)) => [PrefixAe(p), p.len] + PrefixOctets(p)
    case SeqnoRequest(seqno, hops, id, p) =>
      [PrefixAe(p), p.len] + Be16(seqno) + [hops, 0] + id + PrefixOctets(p)
    case Unknown(_, body) => body
  }

  function ParseIhu(b: Bytes): Option<Tlv> {
    if |b| < 6 then None
    else if b[0] == AE_WILDCARD then Some(Ihu(U16At(b, 2), U16At(b, 4), None))
    else match ReadAddress(b[0], b[6..])
      case None => None
      case Some(ip) => Some(Ihu(U16At(b, 2), U16At(b, 4), Some(ip)))
  }

  function ParseNextHop(b: Bytes): Option<Tlv> {
    if |b| < 2 then None
    else match ReadAddress(b[0], b[2..])
      case None => None
      case Some(ip) => Some(NextHopTlv(ip))
  }

  function ParseUpdate(b: Bytes, d: Defaults): Option<Tlv> {
    if |b| < 10 then None
    else match ReadPrefix(b[0], b[2], b[3], b[10..], d)
      case None => None
      case Some(p) => Some(Update(b[1], U16At(b, 4), U16At(b, 6), U16At(b, 8), p))
  }

  function ParseRouteRequest(b: Bytes, d: Defaults): Option<Tlv> {
    if |b| < 2 then None
    else if b[0] == AE_WILDCARD then Some(RouteRequest(None))
    else match ReadPrefix(b[0], b[1], 0, b[2..], d)
      case None => None
      case Some(p) => Some(RouteRequest(Some(p)))
  }

  function ParseSeqnoRequest(b: Bytes, d: Defaults): Option<Tlv> {
    if |b| < 14 then None
    else match ReadPrefix(b[0], b[1], 0, b[14..], d)
      case None => None
      case Some(p) => Some(SeqnoRequest(U16At(b, 2), b[4], b[6..14], p))
  }

  /** `Tlv::decode`, apart from its effect on the register. */
  function ParseBody(code: u8, b: Bytes, d: Defaults): Option<Tlv> {
    match code
    case 1 => Some(PadN(|b| % 0x100))
    case 2 => if |b| < 6 then None else Some(AckReq(U16At(b, 2), U16At(b, 4)))
    case 3 => if |b| < 2 then None else Some(Ack(U16At(b, 0)))
    case 4 => if |b| < 6 then None else Some(Hello(U16At(b, 0), U16At(b, 2), U16At(b, 4)))
    case 5 => ParseIhu(b)
    case 6 => if |b| < 10 then None else Some(RouterId(b[2..10]))
    case 7 => ParseNextHop(b)
    case 8 => ParseUpdate(b, d)
    case 9 => ParseRouteRequest(b, d)
    case 10 => ParseSeqnoRequest(b, d)
    case _ => None
  }

  /** The register after a TLV: an Update with the flag 0x80 sets the default of its family. */
  function DefaultsAfter(d: Defaults, t: Tlv): Defaults {
    if t.Update? && t.flags >= 0x80 then SetDefault(d, t.prefix) else d
  }

  // ---- Framing -------------------------------------------------------------------------------

  /** A TLV before its body is interpreted. */
  datatype Raw = Pad | Typed(code: u8, body: Bytes)

  function RawBytes(r: Raw): Bytes {
    match r
    case Pad => [0]
    case Typed(code, body) => [code, |body| % 0x100] + body
  }

  predicate Framable(r: Raw) {
    r.Typed? ==> r.code != 0 && |r.body| <= 255
  }

  function ReadRaw(b: Bytes): (r: Option<(Raw, nat)>)
    ensures r.Some? ==> 1 <= r.value.1 <= |b|
  {
    if b == [] then None
    else if b[0] == 0 then Some((Pad, 1))
    else if |b| < 2 then None
    else
      var len: nat := b[1];
      if |b| < 2 + len then None else Some((Typed(b[0], b[2..2 + len]), 2 + len))
  }

  function Frames(body: Bytes): Option<seq<Raw>> {
    DecodeEach(body, ReadRaw)
  }

  lemma RawReadsBack(r: Raw)
    requires Framable(r)
    ensures Reads(ReadRaw, RawBytes(r), r)
  {
    forall rest: Bytes ensures ReadRaw(RawBytes(r) + rest) == Some((r, |RawBytes(r)|)) {
      var b := RawBytes(r) + rest;
      if r.Typed? {
        assert b[0] == r.code && b[1] == |r.body|;
        assert b[2..2 + |r.body|] == r.body;
      }
    }
  }

  /** What is read as a TLV is the octets it takes. */
  lemma RawIsItsOctets(b: Bytes)
    requires ReadRaw(b).Some?
    ensures var (r, n) := ReadRaw(b).value; Framable(r) && RawBytes(r) == b[..n]
  {
  }

  lemma FramesReadBack(rs: seq<Raw>, rest: Bytes)
    requires forall r | r in rs :: Framable(r)
    ensures DecodeEach(Joined(Each(rs, RawBytes)) + rest, ReadRaw) == After(rs, Frames(rest))
  {
    forall i | 0 <= i < |rs| ensures Reads(ReadRaw, RawBytes(rs[i]), rs[i]) { RawReadsBack(rs[i]); }
    JoinedThenRest(Each(rs, RawBytes), rs, rest, ReadRaw);
  }

  /** The walk succeeds exactly on concatenations of whole TLVs, and then accounts for every
      octet of the body. */
  lemma WalkCoversBody(body: Bytes, rs: seq<Raw>)
    ensures Frames(body) == Some(rs) <==> (forall r | r in rs :: Framable(r)) && Joined(Each(rs, RawBytes)) == body
  {
    if Frames(body).Some? {
      forall b: Bytes
        ensures WritesBack(b, ReadRaw, RawBytes)
        ensures ReadRaw(b).Some? ==> Framable(ReadRaw(b).value.0)
      {
        if ReadRaw(b).Some? { RawIsItsOctets(b); }
      }
      DecodedCoversBuffer(body, ReadRaw, RawBytes);
      EachDecoded(body, ReadRaw, Framable);
    }
    if (forall r | r in rs :: Framable(r)) && Joined(Each(rs, RawBytes)) == body {
      FramesReadBack(rs, []);
      assert body + [] == body;
      assert rs + [] == rs;
    }
  }

  // ---- Packets -------------------------------------------------------------------------------

  /** A TLV that is unknown or does not parse is kept as it is. */
  function Interpret(r: Raw, d: Defaults): Tlv {
    match r
    case Pad => Pad1
    case Typed(code, body) =>
      match ParseBody(code, body, d)
      case Some(t) => t
      case None => Unknown(code, body)
  }

  function InterpretAll(rs: seq<Raw>, d: Defaults): (ts: seq<Tlv>)
    ensures |ts| == |rs|
  {
    if rs == [] then []
    else
      var t := Interpret(rs[0], d);
      [t] + InterpretAll(rs[1..], DefaultsAfter(d, t))
  }

  datatype DecodeError = TooShort | BadMagic(m: u8) | BadVersion(v: u8) | BadBodyLength | Malformed

  function DecodeWalk(body: Bytes, d: Defaults): Result<seq<Tlv>, DecodeError> {
    match Frames(body)
    case None => Err(Malformed)
    case Some(rs) => Ok(InterpretAll(rs, d))
  }

  /** `Packet::decode`; what follows the body is ignored. */
  function Decode(buf: Bytes): Result<seq<Tlv>, DecodeError> {
    if |buf| < 4 then Err(TooShort)
    else if buf[0] != MAGIC then Err(BadMagic(buf[0]))
    else if buf[1] != VERSION then Err(BadVersion(buf[1]))
    else
      var len: nat := U16At(buf, 2);
      if 4 + len > |buf| then Err(BadBodyLength)
      else DecodeWalk(buf[4..4 + len], NoDefaults())
  }

  function RawOf(t: Tlv): Raw {
    if t.Pad1? then Pad else Typed(t.TypeCode(), EncodeBody(t))
  }

  function EncodeTlv(t: Tlv): Bytes {
    RawBytes(RawOf(t))
  }

  function EncodeTlvs(ts: seq<Tlv>): Bytes {
    Joined(Each(ts, EncodeTlv))
  }

  /** `Packet::encode`. */
  function Encode(ts: seq<Tlv>): Bytes {
    [MAGIC, VERSION] + Be16(|EncodeTlvs(ts)| % 0x1_0000) + EncodeTlvs(ts)
  }

  /** What a TLV must be to come back: an address AE 3 can carry; if kept verbatim, a body one
      octet can count which is not that of a known TLV. */
  predicate WellFormed(t: Tlv) {
    match t
    case Ihu(_, _, address) => address.Some? ==> AddressSurvives(address.value)
    case NextHopTlv(ip) => AddressSurvives(ip)
    case Unknown(code, body) => code != 0 && |body| <= 255 && ParseBody(code, body, NoDefaults()).None?
    case _ => true
  }

  // ---- Bodies read back ------------------------------------------------------------------------

  lemma WordReadsBack(b: Bytes, i: nat, x: u16)
    requires i + 2 <= |b| && b[i..i + 2] == Be16(x)
    ensures U16At(b, i) == x
  {
    U16RoundTrip(b, i, x);
  }

  lemma TwoWords(head: Bytes, x: u16, y: u16, tail: Bytes)
    ensures
      var b, n := head + Be16(x) + Be16(y) + tail, |head|;
      && |b| == n + 4 + |tail| && b[..n] == head && U16At(b, n) == x && U16At(b, n + 2) == y && b[n + 4..] == tail
  {
    var b, n := head + Be16(x) + Be16(y) + tail, |head|;
    assert b[n..n + 2] == Be16(x);
    assert b[n + 2..n + 4] == Be16(y);
    WordReadsBack(b, n, x);
    WordReadsBack(b, n + 2, y);
    assert b[..n] == head;
    assert b[n + 4..] == tail;
  }

  /** The body of `t` parses as `t`, whatever the register holds. */
  ghost predicate BodyReads(t: Tlv) {
    forall d: Defaults :: ParseBody(t.TypeCode(), EncodeBody(t), d) == Some(t)
  }

  lemma AckReqReads(t: Tlv)
    requires t.AckReq?
    ensures BodyReads(t)
  {
    TwoWords([0, 0], t.nonce, t.interval, []);
    assert EncodeBody(t) == [0, 0] + Be16(t.nonce) + Be16(t.interval) + [];
  }

  lemma AckReads(t: Tlv)
    requires t.Ack?
    ensures BodyReads(t)
  {
    assert Be16(t.nonce)[0..2] == Be16(t.nonce);
    WordReadsBack(Be16(t.nonce), 0, t.nonce);
  }

  lemma HelloReads(t: Tlv)
    requires t.Hello?
    ensures BodyReads(t)
  {
    var b := EncodeBody(t);
    TwoWords([], t.hflags, t.seqno, Be16(t.interval));
    assert b == [] + Be16(t.hflags) + Be16(t.seqno) + Be16(t.interval);
    assert b[4..6] == Be16(t.interval);
    WordReadsBack(b, 4, t.interval);
  }

  lemma IhuBody(ae: u8, rxcost: u16, interval: u16, addr: Bytes)
    ensures
      var b := [ae, 0] + Be16(rxcost) + Be16(interval) + addr;
      |b| == 6 + |addr| && b[0] == ae && U16At(b, 2) == rxcost && U16At(b, 4) == interval && b[6..] == addr
  {
    TwoWords([ae, 0], rxcost, interval, addr);
    var b := [ae, 0] + Be16(rxcost) + Be16(interval) + addr;
    assert b[0] == b[..2][0];
  }

  lemma IhuReads(t: Tlv)
    requires t.Ihu? && WellFormed(t)
    ensures BodyReads(t)
  {
    if t.address.None? {
      IhuBody(AE_WILDCARD, t.rxcost, t.interval, []);
      assert EncodeBody(t) == [AE_WILDCARD, 0] + Be16(t.rxcost) + Be16(t.interval) + [];
    } else {
      AddressRoundTrip(t.address.value);
      IhuBody(AddressAe(t.address.value), t.rxcost, t.interval, AddressOctets(t.address.value));
    }
  }

  lemma RouterIdReads(t: Tlv)
    requires t.RouterId?
    ensures BodyReads(t)
  {
    assert EncodeBody(t)[2..10] == t.id;
  }

  lemma NextHopReads(t: Tlv)
    requires t.NextHopTlv? && WellFormed(t)
    ensures BodyReads(t)
  {
    AddressRoundTrip(t.nextHop);
    assert EncodeBody(t)[2..] == AddressOctets(t.nextHop);
  }

  lemma WholePrefixReads(p: Network, octets: Bytes, d: Defaults)
    requires octets == PrefixOctets(p)
    ensures ReadPrefix(PrefixAe(p), p.len, 0, octets, d) == Some(p)
  {
    PrefixReadsBack(p, [], d);
    assert octets + [] == octets;
  }

  lemma UpdateBody(ae: u8, flags: u8, plen: u8, x: u16, y: u16, z: u16, octets: Bytes)
    ensures
      var b := [ae, flags, plen, 0] + Be16(x) + Be16(y) + Be16(z) + octets;
      && |b| == 10 + |octets| && b[0] == ae && b[1] == flags && b[2] == plen && b[3] == 0
      && U16At(b, 4) == x && U16At(b, 6) == y && U16At(b, 8) == z && b[10..] == octets
  {
    var head := [ae, flags, plen, 0];
    var b := head + Be16(x) + Be16(y) + Be16(z) + octets;
    TwoWords(head, x, y, Be16(z) + octets);
    AppendAssociates(head + Be16(x) + Be16(y), Be16(z), octets);
    TwoWords(head + Be16(x), y, z, octets);
    assert b[..4] == head;
    assert b[0] == b[..4][0] && b[1] == b[..4][1] && b[2] == b[..4][2] && b[3] == b[..4][3];
  }

  lemma UpdateParses(b: Bytes, flags: u8, x: u16, y: u16, z: u16, p: Network, d: Defaults)
    requires |b| >= 10 && b[0] == PrefixAe(p) && b[1] == flags && b[2] == p.len && b[3] == 0
    requires U16At(b, 4) == x && U16At(b, 6) == y && U16At(b, 8) == z && b[10..] == PrefixOctets(p)
    ensures ParseUpdate(b, d) == Some(Update(flags, x, y, z, p))
  {
    WholePrefixReads(p, b[10..], d);
  }

  lemma UpdateReads(t: Tlv)
    requires t.Update?
    ensures BodyReads(t)
  {
    var p, b := t.prefix, EncodeBody(t);
    UpdateBody(PrefixAe(p), t.flags, p.len, t.interval, t.seqno, t.metric, PrefixOctets(p));
    forall d: Defaults ensures ParseUpdate(b, d) == Some(t) {
      UpdateParses(b, t.flags, t.interval, t.seqno, t.metric, p, d);
    }
  }

  lemma RouteRequestReads(t: Tlv)
    requires t.RouteRequest?
    ensures BodyReads(t)
  {
    if t.wanted.Some? {
      var p := t.wanted.value;
      assert EncodeBody(t)[2..] == PrefixOctets(p);
      forall d: Defaults ensures ParseBody(t.TypeCode(), EncodeBody(t), d) == Some(t) {
        WholePrefixReads(p, PrefixOctets(p), d);
      }
    }
  }

  lemma SeqnoRequestBody(ae: u8, plen: u8, seqno: u16, hops: u8, id: Octets8, octets: Bytes)
    ensures
      var b := [ae, plen] + Be16(seqno) + [hops, 0] + id + octets;
      && |b| == 14 + |octets| && b[0] == ae && b[1] == plen && U16At(b, 2) == seqno
      && b[4] == hops && b[6..14] == id && b[14..] == octets
  {
    var b := [ae, plen] + Be16(seqno) + [hops, 0] + id + octets;
    assert b[2..4] == Be16(seqno);
    WordReadsBack(b, 2, seqno);
    assert b[6..14] == id;
    assert b[14..] == octets;
  }

  lemma SeqnoRequestParses(b: Bytes, seqno: u16, hops: u8, id: Octets8, p: Network, d: Defaults)
    requires |b| >= 14 && b[0] == PrefixAe(p) && b[1] == p.len && U16At(b, 2) == seqno
    requires b[4] == hops && b[6..14] == id && b[14..] == PrefixOctets(p)
    ensures ParseSeqnoRequest(b, d) == Some(SeqnoRequest(seqno, hops, id, p))
  {
    WholePrefixReads(p, b[14..], d);
  }

  lemma SeqnoRequestReads(t: Tlv)
    requires t.SeqnoRequest?
    ensures BodyReads(t)
  {
    var p, b := t.prefix, EncodeBody(t);
    SeqnoRequestBody(PrefixAe(p), p.len, t.seqno, t.hopCount, t.id, PrefixOctets(p));
    forall d: Defaults ensures ParseSeqnoRequest(b, d) == Some(t) {
      SeqnoRequestParses(b, t.seqno, t.hopCount, t.id, p, d);
    }
  }

  lemma PadNReads(t: Tlv)
    requires t.PadN?
    ensures BodyReads(t)
  {
  }

  lemma KnownBodyReads(t: Tlv)
    requires WellFormed(t) && !t.Pad1? && !t.Unknown?
    ensures BodyReads(t)
  {
    match t
    case PadN(_) => PadNReads(t);
    case AckReq(_, _) => AckReqReads(t);
    case Ack(_) => AckReads(t);
    case Hello(_, _, _) => HelloReads(t);
    case Ihu(_, _, _) => IhuReads(t);
    case RouterId(_) => RouterIdReads(t);
    case NextHopTlv(_) => NextHopReads(t);
    case Update(_, _, _, _, _) => UpdateReads(t);
    case RouteRequest(_) => RouteRequestReads(t);
    case SeqnoRequest(_, _, _, _) => SeqnoRequestReads(t);
  }

  /** Whether a prefix reads does not depend on the register. */
  lemma PrefixReadsAnyway(ae: u8, plen: u8, omitted: u8, b: Bytes, d: Defaults, e: Defaults)
    ensures ReadPrefix(ae, plen, omitted, b, d).Some? <==> ReadPrefix(ae, plen, omitted, b, e).Some?
  {
  }

  lemma ParsesAnyway(code: u8, b: Bytes, d: Defaults, e: Defaults)
    ensures ParseBody(code, b, d).Some? <==> ParseBody(code, b, e).Some?
    ensures ParseBody(code, b, d).Some? ==> !ParseBody(code, b, d).value.Unknown?
  {
    if |b| >= 2 { PrefixReadsAnyway(b[0], b[1], 0, b[2..], d, e); }
    if |b| >= 10 { PrefixReadsAnyway(b[0], b[2], b[3], b[10..], d, e); }
    if |b| >= 14 { PrefixReadsAnyway(b[0], b[1], 0, b[14..], d, e); }
  }

  lemma UnknownReadsBack(t: Tlv, d: Defaults)
    requires t.Unknown?
    ensures Framable(RawOf(t)) && Interpret(RawOf(t), d) == t <==> WellFormed(t)
  {
    ParsesAnyway(t.code, t.body, d, NoDefaults());
  }

  lemma IhuReadsOnlyIf(t: Tlv, d: Defaults)
    requires t.Ihu? && t.address.Some? && !WellFormed(t)
    ensures Interpret(RawOf(t), d) != t
  {
    AddressRoundTrip(t.address.value);
    IhuBody(AddressAe(t.address.value), t.rxcost, t.interval, AddressOctets(t.address.value));
  }

  lemma NextHopReadsOnlyIf(t: Tlv, d: Defaults)
    requires t.NextHopTlv? && !WellFormed(t)
    ensures Interpret(RawOf(t), d) != t
  {
    AddressRoundTrip(t.nextHop);
    assert EncodeBody(t)[2..] == AddressOctets(t.nextHop);
  }

  /** A TLV comes back exactly when it is well formed, whatever the register holds. */
  lemma TlvReadsBack(t: Tlv, d: Defaults)
    ensures Framable(RawOf(t)) && Interpret(RawOf(t), d) == t <==> WellFormed(t)
  {
    if t.Unknown? {
      UnknownReadsBack(t, d);
    } else if t.Pad1? {
    } else if WellFormed(t) {
      KnownIsFramable(t);
      KnownBodyReads(t);
      assert ParseBody(t.TypeCode(), EncodeBody(t), d) == Some(t);
    } else if t.Ihu? {
      IhuReadsOnlyIf(t, d);
    } else {
      NextHopReadsOnlyIf(t, d);
    }
  }

  lemma KnownIsFramable(t: Tlv)
    requires !t.Unknown?
    ensures Framable(RawOf(t))
  {
  }

  predicate AllWellFormed(ts: seq<Tlv>) {
    forall t | t in ts :: WellFormed(t)
  }

  predicate AllFramable(ts: seq<Tlv>) {
    forall t | t in ts :: Framable(RawOf(t))
  }

  /** A list comes back, whatever the register holds at the start and whatever the Updates on
      the way leave in it, exactly when each of its TLVs does. */
  lemma {:induction false} TlvsReadBack(ts: seq<Tlv>, d: Defaults)
    ensures AllFramable(ts) && InterpretAll(Each(ts, RawOf), d) == ts <==> AllWellFormed(ts)
  {
    if ts != [] {
      var rs := Each(ts, RawOf);
      var more := InterpretAll(rs[1..], DefaultsAfter(d, Interpret(rs[0], d)));
      TlvReadsBack(ts[0], d);
      assert rs[1..] == Each(ts[1..], RawOf);
      TlvsReadBack(ts[1..], DefaultsAfter(d, ts[0]));
      assert ts == [ts[0]] + ts[1..];
      assert ([Interpret(rs[0], d)] + more)[1..] == more;
    }
  }

  /** What the walk keeps can be framed again. */
  lemma InterpretedIsFramable(r: Raw, d: Defaults)
    requires Framable(r)
    ensures Framable(RawOf(Interpret(r, d)))
  {
    var t := Interpret(r, d);
    if !t.Unknown? {
      KnownIsFramable(t);
    } else {
      ParsesAnyway(r.code, r.body, d, d);
    }
  }

  lemma {:induction false} InterpretedAreFramable(rs: seq<Raw>, d: Defaults)
    requires forall r | r in rs :: Framable(r)
    ensures AllFramable(InterpretAll(rs, d))
  {
    if rs != [] {
      InterpretedIsFramable(rs[0], d);
      InterpretedAreFramable(rs[1..], DefaultsAfter(d, Interpret(rs[0], d)));
    }
  }

  lemma EncodedFrames(ts: seq<Tlv>)
    requires AllFramable(ts)
    ensures Frames(EncodeTlvs(ts)) == Some(Each(ts, RawOf))
  {
    var rs := Each(ts, RawOf);
    forall i | 0 <= i < |ts| ensures Framable(rs[i]) { assert ts[i] in ts; }
    assert Each(ts, EncodeTlv) == Each(rs, RawBytes);
    WalkCoversBody(EncodeTlvs(ts), rs);
  }

  lemma HeaderFields(n: nat, body: Bytes)
    ensures
      var buf := [MAGIC, VERSION] + Be16(n % 0x1_0000) + body;
      |buf| == 4 + |body| && buf[0] == MAGIC && buf[1] == VERSION && U16At(buf, 2) == n % 0x1_0000 && buf[4..] == body
  {
    var buf := [MAGIC, VERSION] + Be16(n % 0x1_0000) + body;
    assert buf[2..4] == Be16(n % 0x1_0000);
    WordReadsBack(buf, 2, n % 0x1_0000);
    assert buf[4..] == body;
  }

  lemma DecodedBody(ts: seq<Tlv>, trailer: Bytes)
    ensures
      var body := EncodeTlvs(ts);
      Decode(Encode(ts) + trailer) == DecodeWalk(body[..|body| % 0x1_0000], NoDefaults())
  {
    var body := EncodeTlvs(ts);
    var n := |body| % 0x1_0000;
    var buf := Encode(ts) + trailer;
    AppendAssociates([MAGIC, VERSION] + Be16(n), body, trailer);
    HeaderFields(|body|, body + trailer);
    assert buf[4..4 + n] == (body + trailer)[..n] == body[..n];
  }

  /** The first octets of an encoding decode to the whole list only if they are all of it. */
  lemma WholeBody(ts: seq<Tlv>, n: nat)
    requires n <= |EncodeTlvs(ts)|
    ensures DecodeWalk(EncodeTlvs(ts)[..n], NoDefaults()) == Ok(ts) <==>
      AllWellFormed(ts) && n == |EncodeTlvs(ts)|
  {
    var body, d := EncodeTlvs(ts), NoDefaults();
    assert body[..|body|] == body;
    TlvsReadBack(ts, d);
    if DecodeWalk(body[..n], d) == Ok(ts) {
      var rs := Frames(body[..n]).value;
      WalkCoversBody(body[..n], rs);
      InterpretedAreFramable(rs, d);
    }
    if AllFramable(ts) {
      EncodedFrames(ts);
      if n < |body| { CutShort(body, n, Each(ts, RawOf)); }
    }
  }

  /** A packet comes back, whatever trails it, exactly when each of its TLVs does and its
      length fits the header. */
  lemma RoundTrip(ts: seq<Tlv>, trailer: Bytes)
    ensures Decode(Encode(ts) + trailer) == Ok(ts) <==> AllWellFormed(ts) && |EncodeTlvs(ts)| <= 0xffff
  {
    DecodedBody(ts, trailer);
    WholeBody(ts, |EncodeTlvs(ts)| % 0x1_0000);
  }

  /** A body cut short, if it still walks, has fewer TLVs. */
  lemma CutShort(body: Bytes, n: nat, rs: seq<Raw>)
    requires Frames(body) == Some(rs) && n < |body|
    ensures Frames(body[..n]).Some? ==> |Frames(body[..n]).value| < |rs|
  {
    if Frames(body[..n]).Some? {
      var front := Frames(body[..n]).value;
      WalkCoversBody(body[..n], front);
      FramesReadBack(front, body[n..]);
      assert body == body[..n] + body[n..];
      assert Frames(body[n..]).Some? ==> Frames(body[n..]).value != [];
    }
  }

  // ---- The loops and the register ----------------------------------------------------------------

  /** The register of one packet. */
  class Compress {
    var defaultV4: Octets4
    var defaultV6: Octets16

    function Held(): Defaults
      reads this
    {
      Defaults(defaultV4, defaultV6)
    }

    constructor ()
      ensures Held() == NoDefaults()
    {
      defaultV4 := [0, 0, 0, 0];
      defaultV6 := seq(16, i => 0);
    }

    method SetDefaultPrefix(p: Network)
      modifies this
      ensures Held() == SetDefault(old(Held()), p)
    {
      match p.addr
      case V4(o) => defaultV4 := o;
      case V6(o) => defaultV6 := o;
    }

    /** `Tlv::decode`: an Update may leave a new default behind. */
    method DecodeTlv(code: u8, body: Bytes) returns (r: Option<Tlv>)
      modifies this
      ensures r == ParseBody(code, body, old(Held()))
      ensures Held() == if r.Some? then DefaultsAfter(old(Held()), r.value) else old(Held())
    {
      r := ParseBody(code, body, Held());
      if r.Some? && r.value.Update? && r.value.flags / 128 == 1 {
        SetDefaultPrefix(r.value.prefix);
      }
    }

    /** A TLV that does not decode is preserved verbatim. The ghost `reading` is `Interpret`
        under a name that hides its definition from the proof. */
    method DecodeOrKeep(code: u8, body: Bytes, ghost reading: Reading) returns (t: Tlv)
      requires forall r, d {:trigger Interpret(r, d)} :: Interpret(r, d) == reading(r, d)
      modifies this
      ensures t == reading(Typed(code, body), old(Held())) && Held() == DefaultsAfter(old(Held()), t)
    {
      assert Interpret(Typed(code, body), Held()) == reading(Typed(code, body), Held());
      var known := DecodeTlv(code, body);
      match known
      case Some(k) => t := k;
      case None => t := Unknown(code, body);
    }
  }

  type Reading = (Raw, Defaults) -> Tlv
  type Walk = (Bytes, Defaults) -> Result<seq<Tlv>, DecodeError>

  function AfterWalk(front: seq<Tlv>, more: Result<seq<Tlv>, DecodeError>): Result<seq<Tlv>, DecodeError> {
    match more
    case Err(e) => Err(e)
    case Ok(ts) => Ok(front + ts)
  }

  lemma WalkStep(front: seq<Tlv>, body: Bytes, d: Defaults)
    requires body != []
    ensures ReadRaw(body).None? ==> AfterWalk(front, DecodeWalk(body, d)) == Err(Malformed)
    ensures ReadRaw(body).Some? ==>
      var (r, n) := ReadRaw(body).value;
      var t := Interpret(r, d);
      AfterWalk(front, DecodeWalk(body, d)) == AfterWalk(front + [t], DecodeWalk(body[n..], DefaultsAfter(d, t)))
  {
    if ReadRaw(body).Some? {
      var (r, n) := ReadRaw(body).value;
      var more := Frames(body[n..]);
      if more.Some? {
        assert Frames(body) == Some([r] + more.value);
        assert ([r] + more.value)[1..] == more.value;
        var t := Interpret(r, d);
        AppendAssociates(front, [t], InterpretAll(more.value, DefaultsAfter(d, t)));
      }
    }
  }

  /** One turn of the walk at index `i`, in the terms of the whole body. */
  ghost predicate TurnsAt(front: seq<Tlv>, body: Bytes, i: nat, d: Defaults, reading: Reading, walk: Walk)
    requires i < |body|
  {
    var now := AfterWalk(front, walk(body[i..], d));
    if body[i] == 0 then now == AfterWalk(front + [Pad1], walk(body[i + 1..], d))
    else if i + 2 > |body| || i + 2 + body[i + 1] > |body| then now == Err(Malformed)
    else
      var end := i + 2 + body[i + 1];
      var t := reading(Typed(body[i], body[i + 2..end]), d);
      now == AfterWalk(front + [t], walk(body[end..], DefaultsAfter(d, t)))
  }

  lemma WalkTurnsAt(front: seq<Tlv>, body: Bytes, i: nat, d: Defaults)
    requires i < |body|
    ensures TurnsAt(front, body, i, d, Interpret, DecodeWalk)
  {
    var rest := body[i..];
    WalkStep(front, rest, d);
    assert rest[0] == body[i];
    if body[i] == 0 {
      assert rest[1..] == body[i + 1..];
    } else if i + 2 <= |body| && i + 2 + body[i + 1] <= |body| {
      var len: nat := body[i + 1];
      assert rest[2..2 + len] == body[i + 2..i + 2 + len];
      assert rest[2 + len..] == body[i + 2 + len..];
    }
  }

  /** The loop of `Packet::decode`. The ghosts `reading` and `walk` are `Interpret` and
      `DecodeWalk` under names that hide their definitions from the proof; the requires say as
      much of them as the loop needs, and every caller passes those two. */
  method WalkBody(body: Bytes, ctx: Compress, ghost reading: Reading, ghost walk: Walk) returns (r: Result<seq<Tlv>, DecodeError>)
    requires forall t, d {:trigger Interpret(t, d)} :: Interpret(t, d) == reading(t, d)
    requires forall front, i: nat, d {:trigger TurnsAt(front, body, i, d, reading, walk)} ::
      i < |body| ==> TurnsAt(front, body, i, d, reading, walk)
    requires forall d {:trigger walk([], d)} :: walk([], d) == Ok([])
    modifies ctx
    ensures r == walk(body, old(ctx.Held()))
  {
    var tlvs: seq<Tlv>, i := [], 0;
    ghost var all := walk(body, ctx.Held());
    assert body[0..] == body;
    assert all.Ok? ==> [] + all.value == all.value;
    while i < |body|
      invariant i <= |body|
      invariant all == AfterWalk(tlvs, walk(body[i..], ctx.Held()))
    {
      assert TurnsAt(tlvs, body, i, ctx.Held(), reading, walk);
      var t := body[i];
      if t == 0 {
        tlvs := tlvs + [Pad1];
        i := i + 1;
      } else if i + 2 > |body| {
        return Err(Malformed);
      } else {
        var len: nat := body[i + 1];
        var start := i + 2;
        var end := start + len;
        if end > |body| {
          return Err(Malformed);
        }
        var tlv := ctx.DecodeOrKeep(t, body[start..end], reading);
        tlvs := tlvs + [tlv];
        i := end;
      }
    }
    assert body[|body|..] == [] && tlvs + [] == tlvs;
    assert walk([], ctx.Held()) == Ok([]);
    r := Ok(tlvs);
  }

  /** `Packet::decode`. */
  method DecodePacket(buf: Bytes) returns (r: Result<seq<Tlv>, DecodeError>)
    ensures r == Decode(buf)
  {
    if |buf| < 4 {
      return Err(TooShort);
    }
    if buf[0] != MAGIC {
      return Err(BadMagic(buf[0]));
    }
    if buf[1] != VERSION {
      return Err(BadVersion(buf[1]));
    }
    var len: nat := U16At(buf, 2);
    if 4 + len > |buf| {
      return Err(BadBodyLength);
    }
    var ctx := new Compress();
    var body := buf[4..4 + len];
    forall front, i: nat, d | i < |body| ensures TurnsAt(front, body, i, d, Interpret, DecodeWalk) {
      WalkTurnsAt(front, body, i, d);
    }
    r := WalkBody(body, ctx, Interpret, DecodeWalk);
  }

  lemma TwoPatches(front: Bytes, flags: u8, rest: Bytes, ae: u8, plen: u8)
    ensures (front + [0, flags, 0] + rest)[|front| := ae][|front| + 2 := plen] == front + ([ae, flags, plen] + rest)
  {
  }

  /** The Update arm of `encode_body`: the address encoding and the prefix length are patched in
      once the prefix is written. */
  method PushUpdate(t: Tlv, front: Bytes) returns (out: Bytes)
    requires t.Update?
    ensures out == front + EncodeBody(t)
  {
    ghost var rest := [0] + Be16(t.interval) + Be16(t.seqno) + Be16(t.metric) + PrefixOctets(t.prefix);
    out := front + [AE_WILDCARD, t.flags, 0];
    out := out + [0] + Be16(t.interval) + Be16(t.seqno) + Be16(t.metric);
    out := out + PrefixOctets(t.prefix);
    assert out == front + [0, t.flags, 0] + rest;
    TwoPatches(front, t.flags, rest, PrefixAe(t.prefix), t.prefix.len);
    out := out[|front| := PrefixAe(t.prefix)];
    out := out[|front| + 2 := t.prefix.len];
    assert [PrefixAe(t.prefix), t.flags, t.prefix.len] + rest == EncodeBody(t);
  }

  lemma LengthPatch(front: Bytes, code: u8, body: Bytes)
    ensures (front + [code, 0] + body)[|front| + 1 := |body| % 0x100] == front + RawBytes(Typed(code, body))
  {
  }

  method PushBody(t: Tlv, front: Bytes) returns (out: Bytes)
    ensures out == front + EncodeBody(t)
  {
    if t.Update? {
      out := PushUpdate(t, front);
    } else {
      out := front + EncodeBody(t);
    }
  }

  /** `Tlv::encode`: the length is patched in once the body is written. */
  method PushTlv(t: Tlv, front: Bytes) returns (out: Bytes)
    ensures out == front + EncodeTlv(t)
  {
    if t.Pad1? {
      return front + [0];
    }
    out := front + [t.TypeCode(), 0];
    var lenPos := |front| + 1;
    out := PushBody(t, out);
    var bodyLen := |out| - lenPos - 1;
    LengthPatch(front, t.TypeCode(), EncodeBody(t));
    out := out[lenPos := bodyLen % 0x100];
  }

  /** `Packet::encode`. */
  method EncodePacket(ts: seq<Tlv>) returns (out: Bytes)
    ensures out == Encode(ts)
  {
    var body: Bytes := [];
    ghost var chunks := Each(ts, EncodeTlv);
    for i := 0 to |ts|
      invariant body == Joined(chunks[..i])
    {
      JoinedStep(chunks, i);
      body := PushTlv(ts[i], body);
    }
    assert chunks[..|ts|] == chunks;
    out := [MAGIC, VERSION] + Be16(|body| % 0x1_0000) + body;
  }
}
