/** The body of an UPDATE (`message.rs`): withdrawn routes, path attributes and NLRI, with the
    treat-as-withdraw of RFC 7606 and the path identifiers of RFC 7911. */
module UpdateModel {
  import opened Wrappers
  import opened Net
  import opened ByteOrder
  import opened Framing
  import opened PrefixCodec
  import opened PathAttributes

  datatype Update = Update(
    withdrawn: seq<Network>,
    attributes: seq<Attribute>,
    nlri: seq<Network>,
    nlriIds: seq<u32>,
    withdrawnIds: seq<u32>)

  datatype DecodeError = TooShort | BadBody

  // ---- Routes --------------------------------------------------------------------------------

  /** A prefix with its path identifier, 0 where there is none. */
  datatype Route = Route(id: u32, prefix: Network)

  function EncodeRoute(r: Route, ap: bool): Bytes {
    (if ap then Be32(r.id) else []) + EncodePrefix(r.prefix)
  }

  function IdWidth(ap: bool): nat {
    if ap then 4 else 0
  }

  /** One turn of `decode_prefixes`. */
  function DecodeRoute(ap: bool): (dec: Bytes -> Option<(Route, nat)>)
    ensures Progresses(dec)
  {
    buf =>
      if |buf| < IdWidth(ap) then None
      else match DecodePrefix(buf[IdWidth(ap)..])
        case None => None
        case Some((p, n)) => Some((Route(if ap then U32At(buf, 0) else 0, p), IdWidth(ap) + n))
  }

  function DecodeRoutes(buf: Bytes, ap: bool): Option<seq<Route>> {
    DecodeEach(buf, DecodeRoute(ap))
  }

  function RouteChunks(rs: seq<Route>, ap: bool): (r: seq<Bytes>)
    ensures |r| == |rs| && forall i | 0 <= i < |rs| :: r[i] == EncodeRoute(rs[i], ap)
  {
    seq(|rs|, i requires 0 <= i < |rs| => EncodeRoute(rs[i], ap))
  }

  function EncodeRoutes(rs: seq<Route>, ap: bool): Bytes {
    Joined(RouteChunks(rs, ap))
  }

  function Prefixes(rs: seq<Route>): (ps: seq<Network>)
    ensures |ps| == |rs| && forall i | 0 <= i < |rs| :: ps[i] == rs[i].prefix
  {
    seq(|rs|, i requires 0 <= i < |rs| => rs[i].prefix)
  }

  /** The identifiers, one per prefix under ADD-PATH and none otherwise. */
  function Ids(rs: seq<Route>, ap: bool): (ids: seq<u32>)
    ensures if ap then |ids| == |rs| && forall i | 0 <= i < |rs| :: ids[i] == rs[i].id else ids == []
  {
    if ap then seq(|rs|, i requires 0 <= i < |rs| => rs[i].id) else []
  }

  /** The routes of two parallel vectors; a missing identifier is 0. */
  function RoutesOf(ps: seq<Network>, ids: seq<u32>, ap: bool): (rs: seq<Route>)
    ensures |rs| == |ps|
    ensures forall i | 0 <= i < |ps| :: rs[i] == Route(if ap && i < |ids| then ids[i] else 0, ps[i])
  {
    seq(|ps|, i requires 0 <= i < |ps| => Route(if ap && i < |ids| then ids[i] else 0, ps[i]))
  }

  /** Routes of the IPv4 NLRI fields as they are held with or without ADD-PATH. */
  predicate WireRoutes(rs: seq<Route>, ap: bool) {
    forall r | r in rs :: r.prefix.addr.V4? && (!ap ==> r.id == 0)
  }

  lemma BareRouteReadsBack(p: Network, rest: Bytes)
    requires p.addr.V4?
    ensures DecodeRoute(false)(EncodeRoute(Route(0, p), false) + rest) == Some((Route(0, p), |EncodeRoute(Route(0, p), false)|))
  {
    var buf := EncodeRoute(Route(0, p), false) + rest;
    assert buf[0..] == buf == EncodePrefix(p) + rest;
    PrefixRoundTrip(p, rest);
  }

  lemma IdentifiedRouteReadsBack(r: Route, rest: Bytes)
    requires r.prefix.addr.V4?
    ensures DecodeRoute(true)(EncodeRoute(r, true) + rest) == Some((r, |EncodeRoute(r, true)|))
  {
    var buf := EncodeRoute(r, true) + rest;
    assert buf[4..] == EncodePrefix(r.prefix) + rest;
    assert buf[0..4] == Be32(r.id);
    U32RoundTrip(buf, 0, r.id);
    PrefixRoundTrip(r.prefix, rest);
  }

  lemma RouteReadsBack(r: Route, ap: bool)
    requires r.prefix.addr.V4? && (!ap ==> r.id == 0)
    ensures Reads(DecodeRoute(ap), EncodeRoute(r, ap), r)
  {
    forall rest: Bytes ensures DecodeRoute(ap)(EncodeRoute(r, ap) + rest) == Some((r, |EncodeRoute(r, ap)|)) {
      if ap { IdentifiedRouteReadsBack(r, rest); } else { BareRouteReadsBack(r.prefix, rest); }
    }
  }

  lemma RoutesReadBack(rs: seq<Route>, ap: bool)
    requires WireRoutes(rs, ap)
    ensures DecodeRoutes(EncodeRoutes(rs, ap), ap) == Some(rs)
  {
    forall i | 0 <= i < |rs| ensures Reads(DecodeRoute(ap), RouteChunks(rs, ap)[i], rs[i]) {
      RouteReadsBack(rs[i], ap);
    }
    JoinedReadsBack(RouteChunks(rs, ap), rs, DecodeRoute(ap));
  }

  // ---- Attributes ----------------------------------------------------------------------------

  /** No attribute type appears twice, discarded ones included. */
  predicate DistinctCodes(os: seq<Outcome>) {
    forall i, j | 0 <= i < j < |os| :: os[i].code != os[j].code
  }

  function Kept(os: seq<Outcome>): seq<Attribute> {
    if os == [] then []
    else Kept(os[..|os| - 1]) + if os[|os| - 1].kept.Some? then [os[|os| - 1].kept.value] else []
  }

  /** The attributes of a decoded block, unless a type repeats. */
  function Admit(os: Option<seq<Outcome>>): Option<seq<Attribute>> {
    if os.None? || !DistinctCodes(os.value) then None else Some(Kept(os.value))
  }

  function DecodeAttributes(buf: Bytes, four: bool): Option<seq<Attribute>> {
    Admit(DecodeEach(buf, DecodeAttribute(four)))
  }

  /** The attributes an advertisement needs: ORIGIN and AS_PATH, and NEXT_HOP for IPv4 NLRI. */
  predicate MandatoryPresent(attrs: seq<Attribute>, hasIpv4Nlri: bool) {
    var advertises := hasIpv4Nlri || exists a :: a in attrs && a.MpReach?;
    advertises ==>
      && (exists a :: a in attrs && a.OriginAttr?)
      && (exists a :: a in attrs && a.AsPathAttr?)
      && (hasIpv4Nlri ==> exists a :: a in attrs && a.NextHopAttr?)
  }

  function AttributeChunks(attrs: seq<Attribute>, four: bool): (r: seq<Bytes>)
    ensures |r| == |attrs| && forall i | 0 <= i < |attrs| :: r[i] == EncodeAttribute(attrs[i], four)
  {
    seq(|attrs|, i requires 0 <= i < |attrs| => EncodeAttribute(attrs[i], four))
  }

  function EncodeAttributes(attrs: seq<Attribute>, four: bool): Bytes {
    Joined(AttributeChunks(attrs, four))
  }

  function AllAtWidth(attrs: seq<Attribute>, four: bool): (r: seq<Attribute>)
    ensures |r| == |attrs| && forall i | 0 <= i < |attrs| :: r[i] == AtWidth(attrs[i], four)
  {
    seq(|attrs|, i requires 0 <= i < |attrs| => AtWidth(attrs[i], four))
  }

  function AllKept(attrs: seq<Attribute>): (os: seq<Outcome>)
    ensures |os| == |attrs| && forall i | 0 <= i < |attrs| :: os[i] == Outcome(attrs[i].TypeCode(), Some(attrs[i]))
  {
    seq(|attrs|, i requires 0 <= i < |attrs| => Outcome(attrs[i].TypeCode(), Some(attrs[i])))
  }

  predicate DistinctTypes(attrs: seq<Attribute>) {
    forall i, j | 0 <= i < j < |attrs| :: attrs[i].TypeCode() != attrs[j].TypeCode()
  }

  lemma {:induction false} KeptAll(attrs: seq<Attribute>)
    ensures Kept(AllKept(attrs)) == attrs
  {
    if attrs != [] {
      var front := attrs[..|attrs| - 1];
      assert AllKept(attrs)[..|attrs| - 1] == AllKept(front);
      KeptAll(front);
    }
  }

  lemma KeptReadBack(chunks: seq<Bytes>, attrs: seq<Attribute>, dec: Bytes -> Option<(Outcome, nat)>)
    requires Progresses(dec) && |chunks| == |attrs|
    requires forall i | 0 <= i < |chunks| :: Reads(dec, chunks[i], AllKept(attrs)[i])
    ensures Admit(DecodeEach(Joined(chunks), dec)) == if DistinctTypes(attrs) then Some(attrs) else None
  {
    JoinedReadsBack(chunks, AllKept(attrs), dec);
    KeptAll(attrs);
    assert forall i | 0 <= i < |attrs| :: AllKept(attrs)[i].code == attrs[i].TypeCode();
  }

  lemma WidthKeepsTypes(attrs: seq<Attribute>, four: bool)
    ensures DistinctTypes(AllAtWidth(attrs, four)) <==> DistinctTypes(attrs)
  {
    assert forall i | 0 <= i < |attrs| :: AllAtWidth(attrs, four)[i].TypeCode() == attrs[i].TypeCode();
  }

  lemma AttributesReadBack(attrs: seq<Attribute>, four: bool)
    requires forall a | a in attrs :: Sendable(a, four)
    ensures DecodeAttributes(EncodeAttributes(attrs, four), four)
         == if DistinctTypes(attrs) then Some(AllAtWidth(attrs, four)) else None
  {
    var now := AllAtWidth(attrs, four);
    forall i | 0 <= i < |attrs| ensures Reads(DecodeAttribute(four), AttributeChunks(attrs, four)[i], AllKept(now)[i]) {
      AttributeReadsBack(attrs[i], four);
    }
    KeptReadBack(AttributeChunks(attrs, four), now, DecodeAttribute(four));
    WidthKeepsTypes(attrs, four);
  }

  lemma WidthKeepsMandatory(attrs: seq<Attribute>, four: bool, has: bool)
    ensures MandatoryPresent(AllAtWidth(attrs, four), has) <==> MandatoryPresent(attrs, has)
  {
    var now := AllAtWidth(attrs, four);
    forall i | 0 <= i < |attrs| ensures attrs[i] in attrs && now[i] in now {}
    assert forall i | 0 <= i < |attrs| :: now[i].TypeCode() == attrs[i].TypeCode();
    assert forall i | 0 <= i < |attrs| ::
      && (now[i].MpReach? <==> attrs[i].MpReach?) && (now[i].OriginAttr? <==> attrs[i].OriginAttr?)
      && (now[i].AsPathAttr? <==> attrs[i].AsPathAttr?) && (now[i].NextHopAttr? <==> attrs[i].NextHopAttr?);
  }

  lemma {:induction false} KeptTypes(os: seq<Outcome>)
    requires forall i | 0 <= i < |os| && os[i].kept.Some? :: os[i].kept.value.TypeCode() == os[i].code
    requires DistinctCodes(os)
    ensures DistinctTypes(Kept(os))
    ensures forall a | a in Kept(os) :: exists i :: 0 <= i < |os| && os[i].code == a.TypeCode()
  {
    if os != [] {
      var front, last := os[..|os| - 1], os[|os| - 1];
      KeptTypes(front);
      forall a | a in Kept(os) ensures exists i :: 0 <= i < |os| && os[i].code == a.TypeCode() {
        if a in Kept(front) {
          var i :| 0 <= i < |front| && front[i].code == a.TypeCode();
          assert os[i].code == a.TypeCode();
        } else {
          assert os[|os| - 1].code == a.TypeCode();
        }
      }
      var kept := Kept(os);
      forall i, j | 0 <= i < j < |kept| ensures kept[i].TypeCode() != kept[j].TypeCode() {
        if j == |Kept(front)| {
          assert kept[i] in Kept(front);
          var k :| 0 <= k < |front| && front[k].code == kept[i].TypeCode();
          assert os[k].code != os[|os| - 1].code;
        }
      }
    }
  }

  predicate CodeAgrees(o: Outcome) {
    o.kept.Some? ==> o.kept.value.TypeCode() == o.code
  }

  lemma AdmittedTypesAreDistinct(buf: Bytes, dec: Bytes -> Option<(Outcome, nat)>)
    requires Progresses(dec) && Admit(DecodeEach(buf, dec)).Some?
    requires forall b: Bytes :: dec(b).Some? ==> CodeAgrees(dec(b).value.0)
    ensures DistinctTypes(Admit(DecodeEach(buf, dec)).value)
  {
    EachDecoded(buf, dec, CodeAgrees);
    var os := DecodeEach(buf, dec).value;
    forall i | 0 <= i < |os| ensures CodeAgrees(os[i]) { assert os[i] in os; }
    KeptTypes(os);
  }

  lemma DecodedCodeAgrees(b: Bytes, four: bool)
    requires DecodeAttribute(four)(b).Some?
    ensures CodeAgrees(DecodeAttribute(four)(b).value.0)
  {
    var (f, n) := ReadFrame(b).value;
    JudgedCodeAgrees(f.flags, f.code, DecodeValue(f, four));
  }

  lemma JudgedCodeAgrees(flags: u8, code: u8, p: Parsed)
    requires p.Value? ==> p.attr.TypeCode() == code
    ensures Judge(flags, code, p).Some? ==> CodeAgrees(Judge(flags, code, p).value)
  {
  }

  /** No type appears twice among decoded attributes. */
  lemma DecodedTypesAreDistinct(buf: Bytes, four: bool)
    requires DecodeAttributes(buf, four).Some?
    ensures DistinctTypes(DecodeAttributes(buf, four).value)
  {
    forall b: Bytes | DecodeAttribute(four)(b).Some? ensures CodeAgrees(DecodeAttribute(four)(b).value.0) {
      DecodedCodeAgrees(b, four);
    }
    AdmittedTypesAreDistinct(buf, DecodeAttribute(four));
  }

  // ---- The UPDATE ----------------------------------------------------------------------------

  /** What becomes of the decoded fields: broken or incomplete attributes are dropped and the
      routes they would have described are withdrawn. */
  function Fold(withdrawn: seq<Network>, withdrawnIds: seq<u32>, attrs: Option<seq<Attribute>>,
                nlri: seq<Network>, nlriIds: seq<u32>): Update {
    if attrs.Some? && MandatoryPresent(attrs.value, nlri != []) then
      Update(withdrawn, attrs.value, nlri, nlriIds, withdrawnIds)
    else
      Update(withdrawn + nlri, [], [], [], withdrawnIds + nlriIds)
  }

  function Assemble(w: seq<Route>, attrs: Option<seq<Attribute>>, n: seq<Route>, ap: bool): Update {
    Fold(Prefixes(w), Ids(w, ap), attrs, Prefixes(n), Ids(n, ap))
  }

  type RoutesDecoder = Bytes -> Option<seq<Route>>
  type AttributesDecoder = Bytes -> Option<seq<Attribute>>

  function RoutesAt(ap: bool): RoutesDecoder {
    b => DecodeRoutes(b, ap)
  }

  function AttributesAt(four: bool): AttributesDecoder {
    b => DecodeAttributes(b, four)
  }

  datatype Fields = Fields(withdrawn: seq<Route>, attributes: Bytes, nlri: seq<Route>)

  /** The three fields of a body; a length that overruns it, or a route that does not decode,
      is fatal. */
  function ReadFields(body: Bytes, routes: RoutesDecoder): Result<Fields, DecodeError> {
    if |body| < 4 then Err(TooShort)
    else
      var off := 2 + U16At(body, 0);
      if |body| < off then Err(BadBody)
      else match routes(body[2..off])
        case None => Err(BadBody)
        case Some(w) =>
          if |body| < off + 2 then Err(TooShort)
          else
            var end := off + 2 + U16At(body, off);
            if |body| < end then Err(BadBody)
            else match routes(body[end..])
              case None => Err(BadBody)
              case Some(n) => Ok(Fields(w, body[off + 2..end], n))
  }

  /** `decode_update`, with the decoders of its fields. */
  function DecodeFields(body: Bytes, routes: RoutesDecoder, attributes: AttributesDecoder,
                        ap: bool): Result<Update, DecodeError> {
    match ReadFields(body, routes)
    case Err(e) => Err(e)
    case Ok(f) => Ok(Assemble(f.withdrawn, attributes(f.attributes), f.nlri, ap))
  }

  function Decode(body: Bytes, four: bool, ap: bool): Result<Update, DecodeError> {
    DecodeFields(body, RoutesAt(ap), AttributesAt(four), ap)
  }

  /** The body with the given fields; either length is sent modulo 2^16. */
  function Compose(w: Bytes, attrs: Bytes, n: Bytes): Bytes {
    Be16(|w| % 0x1_0000) + w + Be16(|attrs| % 0x1_0000) + attrs + n
  }

  function Encode(u: Update, four: bool, ap: bool): Bytes {
    Compose(EncodeRoutes(RoutesOf(u.withdrawn, u.withdrawnIds, ap), ap),
            EncodeAttributes(u.attributes, four),
            EncodeRoutes(RoutesOf(u.nlri, u.nlriIds, ap), ap))
  }

  lemma ComposedFields(w: Bytes, attrs: Bytes, n: Bytes)
    requires |w| <= 0xffff && |attrs| <= 0xffff
    ensures
      var body := Compose(w, attrs, n);
      var off := 2 + |w|;
      && |body| == off + 2 + |attrs| + |n|
      && U16At(body, 0) == |w| && U16At(body, off) == |attrs|
      && body[2..off] == w && body[off + 2..off + 2 + |attrs|] == attrs && body[off + 2 + |attrs|..] == n
  {
    var body := Compose(w, attrs, n);
    var off := 2 + |w|;
    assert body[0..2] == Be16(|w|);
    U16RoundTrip(body, 0, |w|);
    assert body[off..off + 2] == Be16(|attrs|);
    U16RoundTrip(body, off, |attrs|);
    assert body[2..off] == w;
    assert body[off + 2..off + 2 + |attrs|] == attrs;
    assert body[off + 2 + |attrs|..] == n;
  }

  lemma DecodeComposed(w: Bytes, attrs: Bytes, n: Bytes, ws: seq<Route>, ns: seq<Route>,
                       routes: RoutesDecoder, attributes: AttributesDecoder, ap: bool)
    requires |w| <= 0xffff && |attrs| <= 0xffff
    requires routes(w) == Some(ws) && routes(n) == Some(ns)
    ensures DecodeFields(Compose(w, attrs, n), routes, attributes, ap) == Ok(Assemble(ws, attributes(attrs), ns, ap))
  {
    ComposedFields(w, attrs, n);
  }

  /** No route is lost, invented or reordered by treat-as-withdraw, and identifiers stay with
      their prefixes. */
  ghost predicate Conserves(u: Update, w: seq<Route>, n: seq<Route>, ap: bool) {
    && u.withdrawn + u.nlri == Prefixes(w) + Prefixes(n)
    && u.withdrawnIds + u.nlriIds == Ids(w, ap) + Ids(n, ap)
    && (if ap then |u.withdrawnIds| == |u.withdrawn| && |u.nlriIds| == |u.nlri|
        else u.withdrawnIds == [] && u.nlriIds == [])
  }

  /** Either the attributes are complete for what is advertised, no type twice, or nothing is
      advertised and no attribute kept. */
  ghost predicate Sound(u: Update) {
    || (MandatoryPresent(u.attributes, u.nlri != []) && DistinctTypes(u.attributes))
    || (u.attributes == [] && u.nlri == [])
  }

  lemma AssembledConserves(w: seq<Route>, attrs: Option<seq<Attribute>>, n: seq<Route>, ap: bool)
    ensures Conserves(Assemble(w, attrs, n, ap), w, n, ap)
  {
    var u := Assemble(w, attrs, n, ap);
    if u.attributes == [] && u.nlri == [] && !(attrs.Some? && MandatoryPresent(attrs.value, n != [])) {
      assert u.withdrawn + u.nlri == Prefixes(w) + Prefixes(n);
      assert u.withdrawnIds + u.nlriIds == Ids(w, ap) + Ids(n, ap);
    }
  }

  /** Whatever the attribute block holds, well-formed or not, the routes sent are the routes
      received; they stay advertised exactly when the attributes can be used. */
  lemma BrokenAttributesLoseNoRoute(w: seq<Route>, attrs: Bytes, n: seq<Route>, four: bool, ap: bool)
    requires WireRoutes(w, ap) && WireRoutes(n, ap)
    requires |EncodeRoutes(w, ap)| <= 0xffff && |attrs| <= 0xffff
    ensures
      var r := Decode(Compose(EncodeRoutes(w, ap), attrs, EncodeRoutes(n, ap)), four, ap);
      var kept := DecodeAttributes(attrs, four);
      var usable := kept.Some? && MandatoryPresent(kept.value, n != []);
      && r.Ok? && Conserves(r.value, w, n, ap)
      && r.value.nlri == (if usable then Prefixes(n) else [])
      && r.value.attributes == (if usable then kept.value else [])
  {
    RoutesReadBack(w, ap);
    RoutesReadBack(n, ap);
    DecodeComposed(EncodeRoutes(w, ap), attrs, EncodeRoutes(n, ap), w, n, RoutesAt(ap), AttributesAt(four), ap);
    AssembledConserves(w, DecodeAttributes(attrs, four), n, ap);
  }

  lemma AssembledIsSound(w: seq<Route>, attrs: Option<seq<Attribute>>, n: seq<Route>, ap: bool)
    requires attrs.Some? ==> DistinctTypes(attrs.value)
    ensures Sound(Assemble(w, attrs, n, ap))
  {
    assert Prefixes(n) != [] <==> n != [];
  }

  lemma FieldsConserved(body: Bytes, routes: RoutesDecoder, attributes: AttributesDecoder, ap: bool)
    returns (w: seq<Route>, n: seq<Route>)
    requires DecodeFields(body, routes, attributes, ap).Ok?
    requires forall b: Bytes :: attributes(b).Some? ==> DistinctTypes(attributes(b).value)
    ensures
      var off := 2 + U16At(body, 0);
      && off + 2 <= |body| && off + 2 + U16At(body, off) <= |body|
      && routes(body[2..off]) == Some(w)
      && routes(body[off + 2 + U16At(body, off)..]) == Some(n)
    ensures Conserves(DecodeFields(body, routes, attributes, ap).value, w, n, ap)
    ensures Sound(DecodeFields(body, routes, attributes, ap).value)
  {
    var off := 2 + U16At(body, 0);
    w := routes(body[2..off]).value;
    var end := off + 2 + U16At(body, off);
    n := routes(body[end..]).value;
    AssembledConserves(w, attributes(body[off + 2..end]), n, ap);
    AssembledIsSound(w, attributes(body[off + 2..end]), n, ap);
  }

  /** Of any body that decodes: the routes of its two fields, conserved, and sound attributes. */
  lemma Conservation(body: Bytes, four: bool, ap: bool) returns (w: seq<Route>, n: seq<Route>)
    requires Decode(body, four, ap).Ok?
    ensures
      var off := 2 + U16At(body, 0);
      && off + 2 <= |body| && off + 2 + U16At(body, off) <= |body|
      && DecodeRoutes(body[2..off], ap) == Some(w)
      && DecodeRoutes(body[off + 2 + U16At(body, off)..], ap) == Some(n)
    ensures Conserves(Decode(body, four, ap).value, w, n, ap)
    ensures Sound(Decode(body, four, ap).value)
  {
    forall b: Bytes | AttributesAt(four)(b).Some? ensures DistinctTypes(AttributesAt(four)(b).value) {
      DecodedTypesAreDistinct(b, four);
    }
    w, n := FieldsConserved(body, RoutesAt(ap), AttributesAt(four), ap);
  }

  /** Identifiers one per prefix under ADD-PATH, none otherwise; IPv4 prefixes; attributes the
      wire carries; fields whose lengths fit. */
  predicate WellFormed(u: Update, four: bool, ap: bool) {
    && (if ap then |u.withdrawnIds| == |u.withdrawn| && |u.nlriIds| == |u.nlri|
        else u.withdrawnIds == [] && u.nlriIds == [])
    && (forall p | p in u.withdrawn + u.nlri :: p.addr.V4?)
    && (forall a | a in u.attributes :: Sendable(a, four))
    && |EncodeRoutes(RoutesOf(u.withdrawn, u.withdrawnIds, ap), ap)| <= 0xffff
    && |EncodeAttributes(u.attributes, four)| <= 0xffff
  }

  lemma VectorsThroughRoutes(ps: seq<Network>, ids: seq<u32>, ap: bool)
    requires if ap then |ids| == |ps| else ids == []
    requires forall p | p in ps :: p.addr.V4?
    ensures Prefixes(RoutesOf(ps, ids, ap)) == ps && Ids(RoutesOf(ps, ids, ap), ap) == ids
    ensures WireRoutes(RoutesOf(ps, ids, ap), ap)
  {
  }

  lemma FieldsReadBack(u: Update, four: bool, ap: bool)
    requires WellFormed(u, four, ap)
    ensures Decode(Encode(u, four, ap), four, ap) ==
      Ok(Assemble(RoutesOf(u.withdrawn, u.withdrawnIds, ap),
                  if DistinctTypes(u.attributes) then Some(AllAtWidth(u.attributes, four)) else None,
                  RoutesOf(u.nlri, u.nlriIds, ap), ap))
  {
    var w, n := RoutesOf(u.withdrawn, u.withdrawnIds, ap), RoutesOf(u.nlri, u.nlriIds, ap);
    VectorsThroughRoutes(u.withdrawn, u.withdrawnIds, ap);
    VectorsThroughRoutes(u.nlri, u.nlriIds, ap);
    RoutesReadBack(w, ap);
    RoutesReadBack(n, ap);
    AttributesReadBack(u.attributes, four);
    DecodeComposed(EncodeRoutes(w, ap), EncodeAttributes(u.attributes, four), EncodeRoutes(n, ap), w, n,
                   RoutesAt(ap), AttributesAt(four), ap);
  }

  /** An UPDATE comes back, at the session's AS width, exactly when its attributes are complete
      for what it advertises and of distinct types. */
  lemma RoundTrip(u: Update, four: bool, ap: bool)
    requires WellFormed(u, four, ap)
    ensures Decode(Encode(u, four, ap), four, ap) == Ok(u.(attributes := AllAtWidth(u.attributes, four)))
      <==> MandatoryPresent(u.attributes, u.nlri != []) && DistinctTypes(u.attributes)
  {
    FieldsReadBack(u, four, ap);
    VectorsThroughRoutes(u.withdrawn, u.withdrawnIds, ap);
    VectorsThroughRoutes(u.nlri, u.nlriIds, ap);
    WidthKeepsMandatory(u.attributes, four, u.nlri != []);
  }

  // ---- The loops -----------------------------------------------------------------------------

  function Split(rs: Option<seq<Route>>, ap: bool): Option<(seq<Network>, seq<u32>)> {
    if rs.None? then None else Some((Prefixes(rs.value), Ids(rs.value, ap)))
  }

  lemma AppendRoute(rs: seq<Route>, r: Route, ap: bool)
    ensures Prefixes(rs + [r]) == Prefixes(rs) + [r.prefix]
    ensures Ids(rs + [r], ap) == Ids(rs, ap) + if ap then [r.id] else []
  {
  }

  lemma NextItem<T(!new)>(front: seq<T>, buf: Bytes, dec: Bytes -> Option<(T, nat)>)
    requires Progresses(dec) && buf != []
    ensures dec(buf).None? ==> After(front, DecodeEach(buf, dec)).None?
    ensures dec(buf).Some? ==>
      var (t, n) := dec(buf).value;
      1 <= n <= |buf| && After(front, DecodeEach(buf, dec)) == After(front + [t], DecodeEach(buf[n..], dec))
  {
    if dec(buf).Some? {
      var (t, n) := dec(buf).value;
      AfterAfter(front, t, DecodeEach(buf[n..], dec));
    }
  }

  /** `decode_prefixes`: the prefixes and, under ADD-PATH, their identifiers in step. */
  method DecodePrefixes(buf: Bytes, dec: Bytes -> Option<(Route, nat)>, ap: bool) returns (r: Option<(seq<Network>, seq<u32>)>)
    requires Progresses(dec)
    ensures r == Split(DecodeEach(buf, dec), ap)
  {
    var out: seq<Network>, ids: seq<u32>, rest := [], [], buf;
    ghost var all, seen: seq<Route> := DecodeEach(buf, dec), [];
    AfterNothing(all);
    while rest != []
      invariant all == After(seen, DecodeEach(rest, dec))
      invariant out == Prefixes(seen) && ids == Ids(seen, ap)
      decreases |rest|
    {
      NextItem(seen, rest, dec);
      var next := dec(rest);
      if next.None? {
        return None;
      }
      var (route, used) := next.value;
      AppendRoute(seen, route, ap);
      seen := seen + [route];
      if ap {
        ids := ids + [route.id];
      }
      out := out + [route.prefix];
      rest := rest[used..];
    }
    assert seen + [] == seen;
    r := Some((out, ids));
  }

  /** Which type codes have appeared. */
  ghost predicate Appeared(seen: seq<bool>, os: seq<Outcome>) {
    |seen| == 256 && forall c: u8 :: seen[c] <==> exists i :: 0 <= i < |os| && os[i].code == c
  }

  lemma OneMoreOutcome(os: seq<Outcome>, o: Outcome, seen: seq<bool>)
    requires DistinctCodes(os) && Appeared(seen, os)
    ensures seen[o.code] <==> !DistinctCodes(os + [o])
    ensures Appeared(seen[o.code := true], os + [o])
    ensures Kept(os + [o]) == Kept(os) + if o.kept.Some? then [o.kept.value] else []
  {
    var now := os + [o];
    assert now[..|os|] == os && now[|os|] == o;
    if seen[o.code] {
      var i :| 0 <= i < |os| && os[i].code == o.code;
      assert now[i].code == now[|os|].code;
    } else {
      forall i, j | 0 <= i < j < |now| ensures now[i].code != now[j].code {
        if j == |os| { assert os[i].code != o.code; }
      }
    }
    var after := seen[o.code := true];
    forall c: u8 ensures after[c] <==> exists i :: 0 <= i < |now| && now[i].code == c {
      if c == o.code { assert now[|os|].code == c; }
      if exists i :: 0 <= i < |os| && os[i].code == c {
        var i :| 0 <= i < |os| && os[i].code == c;
        assert now[i].code == c;
      }
    }
  }

  lemma RepeatStaysRepeated(os: seq<Outcome>, more: Option<seq<Outcome>>)
    requires !DistinctCodes(os)
    ensures Admit(After(os, more)).None?
  {
    var i, j :| 0 <= i < j < |os| && os[i].code == os[j].code;
    if more.Some? {
      var all := os + more.value;
      assert all[i].code == all[j].code;
    }
  }

  /** `decode_attributes`: an array of flags remembers the types that have appeared. */
  method DecodeAttributeList(buf: Bytes, dec: Bytes -> Option<(Outcome, nat)>) returns (r: Option<seq<Attribute>>)
    requires Progresses(dec)
    ensures r == Admit(DecodeEach(buf, dec))
  {
    var out: seq<Attribute>, rest := [], buf;
    var seen := new bool[256](_ => false);
    ghost var all, os: seq<Outcome> := DecodeEach(buf, dec), [];
    AfterNothing(all);
    while rest != []
      invariant all == After(os, DecodeEach(rest, dec))
      invariant out == Kept(os) && DistinctCodes(os) && Appeared(seen[..], os)
      decreases |rest|
    {
      NextItem(os, rest, dec);
      var next := dec(rest);
      if next.None? {
        return None;
      }
      var (outcome, used) := next.value;
      OneMoreOutcome(os, outcome, seen[..]);
      os := os + [outcome];
      rest := rest[used..];
      if seen[outcome.code] {
        RepeatStaysRepeated(os, DecodeEach(rest, dec));
        return None;
      }
      seen[outcome.code] := true;
      if outcome.kept.Some? {
        out := out + [outcome.kept.value];
      }
    }
    assert os + [] == os;
    r := Some(out);
  }

  /** `mandatory_attributes_present`. */
  method CheckMandatory(attrs: seq<Attribute>, hasIpv4Nlri: bool) returns (r: bool)
    ensures r == MandatoryPresent(attrs, hasIpv4Nlri)
  {
    var mp := exists a :: a in attrs && a.MpReach?;
    if !hasIpv4Nlri && !mp {
      return true;
    }
    var origin, asPath, nextHop := false, false, false;
    for i := 0 to |attrs|
      invariant origin <==> exists k :: 0 <= k < i && attrs[k].OriginAttr?
      invariant asPath <==> exists k :: 0 <= k < i && attrs[k].AsPathAttr?
      invariant nextHop <==> exists k :: 0 <= k < i && attrs[k].NextHopAttr?
    {
      match attrs[i]
      case OriginAttr(_) => origin := true;
      case AsPathAttr(_) => asPath := true;
      case NextHopAttr(_) => nextHop := true;
      case _ =>
    }
    r := origin && asPath && (!hasIpv4Nlri || nextHop);
  }

  /** The end of `decode_update`: treat-as-withdraw. */
  method FoldFields(withdrawn: seq<Network>, withdrawnIds: seq<u32>, attrs: Option<seq<Attribute>>,
                    nlri: seq<Network>, nlriIds: seq<u32>) returns (u: Update)
    ensures u == Fold(withdrawn, withdrawnIds, attrs, nlri, nlriIds)
  {
    if attrs.Some? {
      var present := CheckMandatory(attrs.value, nlri != []);
      if present {
        return Update(withdrawn, attrs.value, nlri, nlriIds, withdrawnIds);
      }
    }
    u := Update(withdrawn + nlri, [], [], [], withdrawnIds + nlriIds);
  }

  /** The fields as `decode_update` holds them: prefixes and identifiers side by side. */
  datatype Vectors = Vectors(
    withdrawn: seq<Network>, withdrawnIds: seq<u32>, attributes: Bytes, nlri: seq<Network>, nlriIds: seq<u32>)

  function VectorsOf(f: Fields, ap: bool): Vectors {
    Vectors(Prefixes(f.withdrawn), Ids(f.withdrawn, ap), f.attributes, Prefixes(f.nlri), Ids(f.nlri, ap))
  }

  function ReadVectors(body: Bytes, routes: RoutesDecoder, ap: bool): Result<Vectors, DecodeError> {
    match ReadFields(body, routes)
    case Err(e) => Err(e)
    case Ok(f) => Ok(VectorsOf(f, ap))
  }

  /** The framing part of `decode_update`. */
  method DecodeVectors(body: Bytes, dec: Bytes -> Option<(Route, nat)>, ap: bool, ghost routes: RoutesDecoder)
    returns (r: Result<Vectors, DecodeError>)
    requires Progresses(dec) && forall b: Bytes {:trigger DecodeEach(b, dec)} :: DecodeEach(b, dec) == routes(b)
    ensures r == ReadVectors(body, routes, ap)
  {
    if |body| < 4 {
      return Err(TooShort);
    }
    var off := 2 + U16At(body, 0);
    if |body| < off {
      return Err(BadBody);
    }
    var w := DecodePrefixes(body[2..off], dec, ap);
    if w.None? {
      return Err(BadBody);
    }
    if |body| < off + 2 {
      return Err(TooShort);
    }
    var end := off + 2 + U16At(body, off);
    if |body| < end {
      return Err(BadBody);
    }
    var n := DecodePrefixes(body[end..], dec, ap);
    if n.None? {
      return Err(BadBody);
    }
    r := Ok(Vectors(w.value.0, w.value.1, body[off + 2..end], n.value.0, n.value.1));
  }

  /** `decode_update`. */
  method DecodeUpdate(body: Bytes, four: bool, ap: bool) returns (r: Result<Update, DecodeError>)
    ensures r == Decode(body, four, ap)
  {
    var fields := DecodeVectors(body, DecodeRoute(ap), ap, RoutesAt(ap));
    if fields.Err? {
      return Err(fields.error);
    }
    var v := fields.value;
    var attrs := DecodeAttributeList(v.attributes, DecodeAttribute(four));
    var u := FoldFields(v.withdrawn, v.withdrawnIds, attrs, v.nlri, v.nlriIds);
    r := Ok(u);
  }

  /** The route loop of `encode_update`. */
  method PushRoutes(ps: seq<Network>, ids: seq<u32>, ap: bool) returns (out: Bytes)
    ensures out == EncodeRoutes(RoutesOf(ps, ids, ap), ap)
  {
    ghost var chunks := RouteChunks(RoutesOf(ps, ids, ap), ap);
    out := [];
    for i := 0 to |ps|
      invariant out == Joined(chunks[..i])
    {
      JoinedStep(chunks, i);
      var id := if ap && i < |ids| then ids[i] else 0;
      out := out + EncodeRoute(Route(id, ps[i]), ap);
    }
    assert chunks[..|ps|] == chunks;
  }

  /** `encode_update`. */
  method EncodeUpdate(u: Update, four: bool, ap: bool) returns (out: Bytes)
    ensures out == Encode(u, four, ap)
  {
    var withdrawn := PushRoutes(u.withdrawn, u.withdrawnIds, ap);
    var attrs: Bytes := [];
    ghost var chunks := AttributeChunks(u.attributes, four);
    for i := 0 to |u.attributes|
      invariant attrs == Joined(chunks[..i])
    {
      JoinedStep(chunks, i);
      attrs := attrs + EncodeAttribute(u.attributes[i], four);
    }
    assert chunks[..|u.attributes|] == chunks;
    var nlri := PushRoutes(u.nlri, u.nlriIds, ap);
    out := Compose(withdrawn, attrs, nlri);
  }
}
