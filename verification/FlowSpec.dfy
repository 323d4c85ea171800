/** FlowSpec NLRI (`flowspec.rs`; section 4 of RFC 8955): an ordered set of match components,
    encoded in increasing type order behind a one- or two-octet length. */
module FlowSpecModel {
  import opened Wrappers
  import opened Net
  import opened Orders
  import opened ByteOrder
  import opened Framing
  import opened PrefixCodec

  datatype NumOp = NumOp(and_: bool, lt: bool, gt: bool, eq: bool, value: u64)
  datatype BitOp = BitOp(and_: bool, not_: bool, match_: bool, value: u64)

  datatype NumField = IpProto | Port | DestPort | SrcPort | IcmpType | IcmpCode | PktLen | Dscp
  datatype BitField = TcpFlags | Fragment

  datatype Component =
    | DestPrefix(prefix: Network)
    | SrcPrefix(prefix: Network)
    | Numeric(num: NumField, numOps: seq<NumOp>)
    | Bitmask(bit: BitField, bitOps: seq<BitOp>)
  {
    function TypeCode(): u8 {
      match this
      case DestPrefix(_) => 1
      case SrcPrefix(_) => 2
      case Numeric(f, _) => NumCode(f)
      case Bitmask(TcpFlags, _) => 9
      case Bitmask(Fragment, _) => 12
    }

    /** What the codec carries: IPv4 prefixes and operator lists with an end. */
    predicate Sendable() {
      match this
      case DestPrefix(p) => p.addr.V4?
      case SrcPrefix(p) => p.addr.V4?
      case Numeric(_, ops) => ops != []
      case Bitmask(_, ops) => ops != []
    }
  }

  function NumCode(f: NumField): u8 {
    match f
    case IpProto => 3
    case Port => 4
    case DestPort => 5
    case SrcPort => 6
    case IcmpType => 7
    case IcmpCode => 8
    case PktLen => 10
    case Dscp => 11
  }

  type FlowSpec = seq<Component>

  predicate AllSendable(cs: seq<Component>) {
    forall c | c in cs :: c.Sendable()
  }

  // ---- Operator lists ------------------------------------------------------------------------

  type u3 = x: int | 0 <= x < 8

  /** An `{operator, value}` pair apart from what its three low operator bits mean. */
  datatype Term = Term(and_: bool, low: u3, value: u64)

  function NumTerm(op: NumOp): Term {
    Term(op.and_, 4 * One(op.lt) + 2 * One(op.gt) + One(op.eq), op.value)
  }

  function TermNum(t: Term): NumOp {
    NumOp(t.and_, t.low / 4 % 2 == 1, t.low / 2 % 2 == 1, t.low % 2 == 1, t.value)
  }

  function BitTerm(op: BitOp): Term {
    Term(op.and_, 2 * One(op.not_) + One(op.match_), op.value)
  }

  /** The decoder ignores the third bit of a bitmask operator. */
  function TermBit(t: Term): BitOp {
    BitOp(t.and_, t.low / 2 % 2 == 1, t.low % 2 == 1, t.value)
  }

  lemma NumOpsThroughTerms(ops: seq<NumOp>)
    ensures Each(Each(ops, NumTerm), TermNum) == ops
  {
  }

  lemma BitOpsThroughTerms(ops: seq<BitOp>)
    ensures Each(Each(ops, BitTerm), TermBit) == ops
  {
  }

  /** `len_for`: the two length bits of the narrowest of 1, 2, 4 and 8 octets. */
  function LenFor(value: u64): (bits: nat)
    ensures bits < 4 && Fits(value, Width(bits))
    ensures forall b: nat | b < 4 && Fits(value, Width(b)) :: bits <= b
  {
    Fits8(value); Fits16(value); Fits32(value); Fits64(value);
    assert forall b: nat | b < 4 :: Width(b) == 1 || Width(b) == 2 || Width(b) == 4 || Width(b) == 8;
    if value <= 0xff then 0 else if value <= 0xffff then 1 else if value <= 0xffff_ffff then 2 else 3
  }

  lemma Fits8(n: nat)
    ensures Fits(n, 1) <==> n < 0x100
  {
    assert Fits(n, 1) <==> Fits(n / 0x100, 0);
  }

  /** `1 << bits`. */
  function Width(bits: nat): (n: nat)
    requires bits < 4
    ensures 1 <= n <= 8
  {
    if bits == 0 then 1 else if bits == 1 then 2 else if bits == 2 then 4 else 8
  }

  /** The operator octet. */
  function OpOctet(t: Term, last: bool): u8 {
    128 * One(last) + 64 * One(t.and_) + 16 * LenFor(t.value) + t.low
  }

  function TermBytes(t: Term, last: bool): (b: Bytes)
    ensures |b| == 1 + Width(LenFor(t.value))
  {
    [OpOctet(t, last)] + ToBe(t.value, Width(LenFor(t.value)))
  }

  function ReadValue(b: Bytes): u64
    requires |b| <= 8
  {
    ToFromBe(b);
    FitsMore(FromBe(b), |b|, 8);
    Fits64(FromBe(b));
    FromBe(b)
  }

  /** An operator read from a buffer, whether it ends its list, and the octets it takes. */
  datatype OneTerm = OneTerm(term: Term, last: bool, size: nat)

  function ReadTerm(buf: Bytes): (r: Option<OneTerm>)
    ensures r.Some? ==> 1 <= r.value.size <= |buf|
  {
    if buf == [] then None
    else
      var b, n := buf[0], 1 + Width(buf[0] / 16 % 4);
      if |buf| < n then None
      else Some(OneTerm(Term(b / 64 % 2 == 1, b % 8, ReadValue(buf[1..n])), b / 128 == 1, n))
  }

  lemma OctetMeaning(last: nat, and_: nat, bits: nat, low: nat)
    requires last <= 1 && and_ <= 1 && bits < 4 && low < 8
    ensures
      var b := 128 * last + 64 * and_ + 16 * bits + low;
      b < 256 && b / 128 == last && b / 64 % 2 == and_ && b / 16 % 4 == bits && b % 8 == low
  {
  }

  lemma ReadWrittenTerm(t: Term, last: bool, rest: Bytes)
    ensures ReadTerm(TermBytes(t, last) + rest) == Some(OneTerm(t, last, |TermBytes(t, last)|))
  {
    OctetMeaning(One(last), One(t.and_), LenFor(t.value), t.low);
    var buf := TermBytes(t, last) + rest;
    var n := Width(LenFor(t.value));
    assert buf[0] == OpOctet(t, last);
    assert buf[1..1 + n] == ToBe(t.value, n);
    FromToBe(t.value, n);
  }

  /** Written again, an operator is no longer: its value takes the narrowest width. */
  lemma TermReencodesShorter(buf: Bytes, last: bool)
    requires ReadTerm(buf).Some?
    ensures |TermBytes(ReadTerm(buf).value.term, last)| <= ReadTerm(buf).value.size
  {
    var bits := buf[0] / 16 % 4;
    ToFromBe(buf[1..1 + Width(bits)]);
    assert LenFor(ReadTerm(buf).value.term.value) <= bits;
  }

  /** An operator list; the last operator carries the end-of-list bit. */
  function EncodeTerms(ts: seq<Term>, put: (Term, bool) -> Bytes): Bytes {
    if ts == [] then [] else put(ts[0], |ts| == 1) + EncodeTerms(ts[1..], put)
  }

  ghost predicate GetProgresses(get: Bytes -> Option<OneTerm>) {
    forall b: Bytes :: get(b).Some? ==> 1 <= get(b).value.size <= |b|
  }

  /** The operators up to the first that ends the list, and the octets they take. */
  function DecodeTerms(buf: Bytes, get: Bytes -> Option<OneTerm>): (r: Option<(seq<Term>, nat)>)
    requires GetProgresses(get)
    ensures r.Some? ==> r.value.0 != [] && r.value.1 <= |buf|
    decreases |buf|
  {
    match get(buf)
    case None => None
    case Some(OneTerm(t, last, n)) =>
      assert 1 <= get(buf).value.size <= |buf|;
      if last then Some(([t], n))
      else match DecodeTerms(buf[n..], get)
        case None => None
        case Some((ts, m)) => Some(([t] + ts, n + m))
  }

  function TermsAfter(front: seq<Term>, off: nat, more: Option<(seq<Term>, nat)>): Option<(seq<Term>, nat)> {
    match more
    case None => None
    case Some((ts, n)) => Some((front + ts, off + n))
  }

  lemma TermsAfterNothing(more: Option<(seq<Term>, nat)>)
    ensures TermsAfter([], 0, more) == more
  {
    if more.Some? { assert [] + more.value.0 == more.value.0; }
  }

  lemma TermsAfterAfter(front: seq<Term>, off: nat, t: Term, n: nat, more: Option<(seq<Term>, nat)>)
    ensures TermsAfter(front, off, TermsAfter([t], n, more)) == TermsAfter(front + [t], off + n, more)
  {
    if more.Some? { assert front + ([t] + more.value.0) == front + [t] + more.value.0; }
  }

  ghost predicate TermReads(t: Term, last: bool, chunk: Bytes, get: Bytes -> Option<OneTerm>) {
    forall more: Bytes {:trigger get(chunk + more)} :: get(chunk + more) == Some(OneTerm(t, last, |chunk|))
  }

  ghost predicate TermsRead(ts: seq<Term>, chunk: Bytes, get: Bytes -> Option<OneTerm>)
    requires GetProgresses(get)
  {
    forall more: Bytes {:trigger DecodeTerms(chunk + more, get)} ::
      DecodeTerms(chunk + more, get) == Some((ts, |chunk|))
  }

  lemma LastTermReads(t: Term, chunk: Bytes, get: Bytes -> Option<OneTerm>)
    requires GetProgresses(get) && TermReads(t, true, chunk, get)
    ensures TermsRead([t], chunk, get)
  {
    forall more: Bytes ensures DecodeTerms(chunk + more, get) == Some(([t], |chunk|)) {
      assert get(chunk + more) == Some(OneTerm(t, true, |chunk|));
    }
  }

  lemma OneMoreTermReads(t: Term, chunk: Bytes, ts: seq<Term>, tail: Bytes, get: Bytes -> Option<OneTerm>)
    requires GetProgresses(get) && TermReads(t, false, chunk, get) && TermsRead(ts, tail, get)
    ensures TermsRead([t] + ts, chunk + tail, get)
  {
    forall more: Bytes ensures DecodeTerms(chunk + tail + more, get) == Some(([t] + ts, |chunk + tail|)) {
      AppendAssociates(chunk, tail, more);
      assert get(chunk + (tail + more)) == Some(OneTerm(t, false, |chunk|));
      assert (chunk + (tail + more))[|chunk|..] == tail + more;
    }
  }

  lemma {:induction false} TermsReadBack(ts: seq<Term>, put: (Term, bool) -> Bytes, get: Bytes -> Option<OneTerm>)
    requires GetProgresses(get) && ts != []
    requires forall t, last :: TermReads(t, last, put(t, last), get)
    ensures TermsRead(ts, EncodeTerms(ts, put), get)
  {
    if |ts| == 1 {
      var b := put(ts[0], true);
      LastTermReads(ts[0], b, get);
      assert ts == [ts[0]];
      assert EncodeTerms(ts, put) == b + EncodeTerms([], put) == b + [] == b;
    } else {
      TermsReadBack(ts[1..], put, get);
      OneMoreTermReads(ts[0], put(ts[0], false), ts[1..], EncodeTerms(ts[1..], put), get);
      assert ts == [ts[0]] + ts[1..];
    }
  }

  lemma TermsRoundTrip(ts: seq<Term>, rest: Bytes)
    requires ts != []
    ensures DecodeTerms(EncodeTerms(ts, TermBytes) + rest, ReadTerm) == Some((ts, |EncodeTerms(ts, TermBytes)|))
  {
    forall t, last ensures TermReads(t, last, TermBytes(t, last), ReadTerm) {
      forall more: Bytes
        ensures ReadTerm(TermBytes(t, last) + more) == Some(OneTerm(t, last, |TermBytes(t, last)|))
      {
        ReadWrittenTerm(t, last, more);
      }
    }
    TermsReadBack(ts, TermBytes, ReadTerm);
  }

  lemma {:induction false} TermsReencodeShorter(buf: Bytes, put: (Term, bool) -> Bytes, get: Bytes -> Option<OneTerm>)
    requires GetProgresses(get) && DecodeTerms(buf, get).Some?
    requires forall b: Bytes, last | get(b).Some? :: |put(get(b).value.term, last)| <= get(b).value.size
    ensures |EncodeTerms(DecodeTerms(buf, get).value.0, put)| <= DecodeTerms(buf, get).value.1
    decreases |buf|
  {
    var ts, one := DecodeTerms(buf, get).value.0, get(buf).value;
    assert ts[0] == one.term;
    assert |put(get(buf).value.term, |ts| == 1)| <= one.size;
    if !one.last {
      TermsReencodeShorter(buf[one.size..], put, get);
      assert ts[1..] == DecodeTerms(buf[one.size..], get).value.0;
    }
  }

  /** How much room the operators take depends on their values alone. */
  lemma {:induction false} SameLengthTerms(a: seq<Term>, b: seq<Term>, put: (Term, bool) -> Bytes)
    requires |a| == |b|
    requires forall i, last | 0 <= i < |a| :: |put(a[i], last)| == |put(b[i], last)|
    ensures |EncodeTerms(a, put)| == |EncodeTerms(b, put)|
  {
    if a != [] {
      assert |put(a[0], |a| == 1)| == |put(b[0], |a| == 1)|;
      SameLengthTerms(a[1..], b[1..], put);
    }
  }

  method PushTerm(t: Term, last: bool, front: Bytes) returns (out: Bytes)
    ensures out == front + TermBytes(t, last)
  {
    var bits := LenFor(t.value);
    var b := 16 * bits;
    if last {
      b := b + 128;
    }
    if t.and_ {
      b := b + 64;
    }
    b := b + t.low;
    out := front + [b] + ToBe(t.value, Width(bits));
    AppendAssociates(front, [b], ToBe(t.value, Width(bits)));
  }

  /** `encode_num_ops` and `encode_bit_ops`, which write the same loop out for either kind. */
  method PushTerms(ts: seq<Term>, front: Bytes, ghost put: (Term, bool) -> Bytes) returns (out: Bytes)
    requires forall t, last {:trigger put(t, last)} :: put(t, last) == TermBytes(t, last)
    ensures out == front + EncodeTerms(ts, put)
  {
    out := front;
    assert ts[0..] == ts;
    for i := 0 to |ts|
      invariant out + EncodeTerms(ts[i..], put) == front + EncodeTerms(ts, put)
    {
      assert ts[i..][1..] == ts[i + 1..];
      AppendAssociates(out, put(ts[i], |ts[i..]| == 1), EncodeTerms(ts[i + 1..], put));
      out := PushTerm(ts[i], i == |ts| - 1, out);
    }
  }

  lemma NextTerm(buf: Bytes, off: nat, front: seq<Term>, get: Bytes -> Option<OneTerm>)
    requires GetProgresses(get) && off <= |buf| && get(buf[off..]).Some?
    ensures
      var OneTerm(t, last, n) := get(buf[off..]).value;
      TermsAfter(front, off, DecodeTerms(buf[off..], get)) ==
        if last then Some((front + [t], off + n))
        else TermsAfter(front + [t], off + n, DecodeTerms(buf[off + n..], get))
  {
    var OneTerm(t, last, n) := get(buf[off..]).value;
    assert n <= |buf[off..]|;
    assert buf[off..][n..] == buf[off + n..];
    TermsAfterAfter(front, off, t, n, DecodeTerms(buf[off + n..], get));
  }

  /** `decode_num_ops` and `decode_bit_ops`. */
  method PullTerms(buf: Bytes, get: Bytes -> Option<OneTerm>) returns (r: Option<(seq<Term>, nat)>)
    requires GetProgresses(get)
    ensures r == DecodeTerms(buf, get)
  {
    var ts: seq<Term>, off := [], 0;
    assert buf[0..] == buf;
    TermsAfterNothing(DecodeTerms(buf, get));
    ghost var all := DecodeTerms(buf, get);
    while true
      invariant off <= |buf|
      invariant all == TermsAfter(ts, off, DecodeTerms(buf[off..], get))
      decreases |buf| - off
    {
      var next := get(buf[off..]);
      if next.None? {
        return None;
      }
      NextTerm(buf, off, ts, get);
      ts := ts + [next.value.term];
      off := off + next.value.size;
      if next.value.last {
        return Some((ts, off));
      }
    }
  }

  // ---- Components ----------------------------------------------------------------------------

  /** What follows the type code. */
  function Payload(c: Component): Bytes {
    match c
    case DestPrefix(p) => EncodePrefix(p)
    case SrcPrefix(p) => EncodePrefix(p)
    case Numeric(_, ops) => EncodeTerms(Each(ops, NumTerm), TermBytes)
    case Bitmask(_, ops) => EncodeTerms(Each(ops, BitTerm), TermBytes)
  }

  function EncodeComponent(c: Component): Bytes {
    [c.TypeCode()] + Payload(c)
  }

  function NumFieldOf(code: u8): (f: Option<NumField>)
    ensures f.Some? ==> NumCode(f.value) == code
    ensures f.None? ==> forall g :: NumCode(g) != code
  {
    match code
    case 3 => Some(IpProto)
    case 4 => Some(Port)
    case 5 => Some(DestPort)
    case 6 => Some(SrcPort)
    case 7 => Some(IcmpType)
    case 8 => Some(IcmpCode)
    case 10 => Some(PktLen)
    case 11 => Some(Dscp)
    case _ => None
  }

  function DecodePayload(ty: u8, rest: Bytes): (r: Option<(Component, nat)>)
    ensures r.Some? ==> r.value.1 <= |rest| && r.value.0.Sendable() && r.value.0.TypeCode() == ty
  {
    if ty == 1 || ty == 2 then
      match DecodePrefix(rest)
      case None => None
      case Some((p, n)) => Some((if ty == 1 then DestPrefix(p) else SrcPrefix(p), n))
    else if ty == 9 || ty == 12 then
      match DecodeTerms(rest, ReadTerm)
      case None => None
      case Some((ts, n)) => Some((Bitmask(if ty == 9 then TcpFlags else Fragment, Each(ts, TermBit)), n))
    else if NumFieldOf(ty).Some? then
      match DecodeTerms(rest, ReadTerm)
      case None => None
      case Some((ts, n)) => Some((Numeric(NumFieldOf(ty).value, Each(ts, TermNum)), n))
    else None
  }

  function DecodeTyped(buf: Bytes, payload: (u8, Bytes) -> Option<(Component, nat)>): (r: Option<(Component, nat)>) {
    if buf == [] then None
    else match payload(buf[0], buf[1..])
      case None => None
      case Some((c, n)) => Some((c, 1 + n))
  }

  function DecodeComponent(buf: Bytes): (r: Option<(Component, nat)>)
    ensures r.Some? ==> 1 <= r.value.1 <= |buf| && r.value.0.Sendable()
  {
    DecodeTyped(buf, DecodePayload)
  }

  lemma NumOpsReadBack(ops: seq<NumOp>, rest: Bytes)
    requires ops != []
    ensures
      var b := EncodeTerms(Each(ops, NumTerm), TermBytes);
      var r := DecodeTerms(b + rest, ReadTerm);
      r.Some? && Each(r.value.0, TermNum) == ops && r.value.1 == |b|
  {
    TermsRoundTrip(Each(ops, NumTerm), rest);
    NumOpsThroughTerms(ops);
  }

  lemma BitOpsReadBack(ops: seq<BitOp>, rest: Bytes)
    requires ops != []
    ensures
      var b := EncodeTerms(Each(ops, BitTerm), TermBytes);
      var r := DecodeTerms(b + rest, ReadTerm);
      r.Some? && Each(r.value.0, TermBit) == ops && r.value.1 == |b|
  {
    TermsRoundTrip(Each(ops, BitTerm), rest);
    BitOpsThroughTerms(ops);
  }

  ghost predicate PayloadReads(c: Component) {
    forall rest: Bytes :: DecodePayload(c.TypeCode(), Payload(c) + rest) == Some((c, |Payload(c)|))
  }

  lemma PrefixPayloadReads(c: Component)
    requires c.Sendable() && (c.DestPrefix? || c.SrcPrefix?)
    ensures PayloadReads(c)
  {
    forall rest: Bytes ensures DecodePayload(c.TypeCode(), Payload(c) + rest) == Some((c, |Payload(c)|)) {
      PrefixRoundTrip(c.prefix, rest);
    }
  }

  lemma NumericPayloadReads(c: Component)
    requires c.Sendable() && c.Numeric?
    ensures PayloadReads(c)
  {
    assert NumFieldOf(c.TypeCode()) == Some(c.num);
    forall rest: Bytes ensures DecodePayload(c.TypeCode(), Payload(c) + rest) == Some((c, |Payload(c)|)) {
      NumOpsReadBack(c.numOps, rest);
    }
  }

  lemma BitmaskPayloadReads(c: Component)
    requires c.Sendable() && c.Bitmask?
    ensures PayloadReads(c)
  {
    forall rest: Bytes ensures DecodePayload(c.TypeCode(), Payload(c) + rest) == Some((c, |Payload(c)|)) {
      BitOpsReadBack(c.bitOps, rest);
    }
  }

  lemma TypedReads(ty: u8, b: Bytes, c: Component, dec: (u8, Bytes) -> Option<(Component, nat)>)
    requires forall rest: Bytes :: dec(ty, b + rest) == Some((c, |b|))
    ensures forall rest: Bytes :: DecodeTyped([ty] + b + rest, dec) == Some((c, |[ty] + b|))
  {
    forall rest: Bytes ensures DecodeTyped([ty] + b + rest, dec) == Some((c, |[ty] + b|)) {
      assert ([ty] + b + rest)[1..] == b + rest;
      assert dec(ty, b + rest) == Some((c, |b|));
    }
  }

  lemma ComponentReadsBack(c: Component)
    requires c.Sendable()
    ensures Reads(DecodeComponent, EncodeComponent(c), c)
  {
    match c {
      case Numeric(_, _) => NumericPayloadReads(c);
      case Bitmask(_, _) => BitmaskPayloadReads(c);
      case _ => PrefixPayloadReads(c);
    }
    TypedReads(c.TypeCode(), Payload(c), c, DecodePayload);
  }

  lemma NumOpsLength(ts: seq<Term>)
    ensures |EncodeTerms(Each(Each(ts, TermNum), NumTerm), TermBytes)| == |EncodeTerms(ts, TermBytes)|
  {
    SameLengthTerms(Each(Each(ts, TermNum), NumTerm), ts, TermBytes);
  }

  lemma BitOpsLength(ts: seq<Term>)
    ensures |EncodeTerms(Each(Each(ts, TermBit), BitTerm), TermBytes)| == |EncodeTerms(ts, TermBytes)|
  {
    SameLengthTerms(Each(Each(ts, TermBit), BitTerm), ts, TermBytes);
  }

  lemma ReadTermsReencodeShorter(buf: Bytes)
    requires DecodeTerms(buf, ReadTerm).Some?
    ensures |EncodeTerms(DecodeTerms(buf, ReadTerm).value.0, TermBytes)| <= DecodeTerms(buf, ReadTerm).value.1
  {
    forall b: Bytes, last | ReadTerm(b).Some? ensures |TermBytes(ReadTerm(b).value.term, last)| <= ReadTerm(b).value.size {
      TermReencodesShorter(b, last);
    }
    TermsReencodeShorter(buf, TermBytes, ReadTerm);
  }

  lemma PayloadReencodesShorter(ty: u8, rest: Bytes)
    requires DecodePayload(ty, rest).Some?
    ensures |Payload(DecodePayload(ty, rest).value.0)| <= DecodePayload(ty, rest).value.1
  {
    if ty != 1 && ty != 2 {
      ReadTermsReencodeShorter(rest);
      NumOpsLength(DecodeTerms(rest, ReadTerm).value.0);
      BitOpsLength(DecodeTerms(rest, ReadTerm).value.0);
    }
  }

  /** `encode_component`. */
  method PushComponent(c: Component, front: Bytes) returns (out: Bytes)
    ensures out == front + EncodeComponent(c)
  {
    out := front + [c.TypeCode()];
    AppendAssociates(front, [c.TypeCode()], Payload(c));
    match c
    case DestPrefix(p) => out := out + EncodePrefix(p);
    case SrcPrefix(p) => out := out + EncodePrefix(p);
    case Numeric(_, ops) => out := PushTerms(Each(ops, NumTerm), out, TermBytes);
    case Bitmask(_, ops) => out := PushTerms(Each(ops, BitTerm), out, TermBytes);
  }

  function EncodeComponents(cs: seq<Component>): Bytes {
    Joined(Each(cs, EncodeComponent))
  }

  function DecodeComponents(body: Bytes): (r: Option<seq<Component>>) {
    DecodeEach(body, DecodeComponent)
  }

  lemma ComponentsRoundTrip(cs: seq<Component>)
    requires AllSendable(cs)
    ensures DecodeComponents(EncodeComponents(cs)) == Some(cs)
  {
    forall i | 0 <= i < |cs| ensures Reads(DecodeComponent, EncodeComponent(cs[i]), cs[i]) {
      ComponentReadsBack(cs[i]);
    }
    JoinedReadsBack(Each(cs, EncodeComponent), cs, DecodeComponent);
  }

  lemma ComponentsReencodeShorter(body: Bytes)
    requires DecodeComponents(body).Some?
    ensures |EncodeComponents(DecodeComponents(body).value)| <= |body|
  {
    forall b: Bytes | DecodeComponent(b).Some?
      ensures |EncodeComponent(DecodeComponent(b).value.0)| <= DecodeComponent(b).value.1
    {
      PayloadReencodesShorter(b[0], b[1..]);
    }
    ReencodeShorter(body, DecodeComponent, EncodeComponent);
  }

  lemma DecodedAreSendable(body: Bytes)
    requires DecodeComponents(body).Some?
    ensures AllSendable(DecodeComponents(body).value)
  {
    EachDecoded(body, DecodeComponent, (c: Component) => c.Sendable());
  }

  // ---- The order of the components -----------------------------------------------------------

  predicate SortedByType(cs: seq<Component>) {
    forall i, j | 0 <= i < j < |cs| :: cs[i].TypeCode() <= cs[j].TypeCode()
  }

  /** The components of one type, in order. */
  function OfType(cs: seq<Component>, code: u8): seq<Component> {
    if cs == [] then []
    else (if cs[0].TypeCode() == code then [cs[0]] else []) + OfType(cs[1..], code)
  }

  function InsertByType(c: Component, cs: seq<Component>): (r: seq<Component>) {
    if cs == [] || c.TypeCode() <= cs[0].TypeCode() then [c] + cs
    else [cs[0]] + InsertByType(c, cs[1..])
  }

  /** `sort_by_key(type_code)`, a stable sort. */
  function StableSort(cs: seq<Component>): (r: seq<Component>) {
    if cs == [] then [] else InsertByType(cs[0], StableSort(cs[1..]))
  }

  lemma {:induction false} InsertMembers(c: Component, cs: seq<Component>)
    ensures forall d :: d in InsertByType(c, cs) <==> d == c || d in cs
  {
    if cs != [] && c.TypeCode() > cs[0].TypeCode() { InsertMembers(c, cs[1..]); }
  }

  lemma {:induction false} SortMembers(cs: seq<Component>)
    ensures forall c :: c in StableSort(cs) <==> c in cs
  {
    if cs != [] {
      SortMembers(cs[1..]);
      InsertMembers(cs[0], StableSort(cs[1..]));
    }
  }

  lemma {:induction false} InsertSorted(c: Component, cs: seq<Component>)
    requires SortedByType(cs)
    ensures SortedByType(InsertByType(c, cs))
  {
    if cs != [] && c.TypeCode() > cs[0].TypeCode() {
      InsertSorted(c, cs[1..]);
      InsertMembers(c, cs[1..]);
      assert forall d | d in InsertByType(c, cs[1..]) :: cs[0].TypeCode() <= d.TypeCode();
    }
  }

  lemma OfTypeCons(c: Component, cs: seq<Component>, code: u8)
    ensures OfType([c] + cs, code) == if c.TypeCode() == code then [c] + OfType(cs, code) else OfType(cs, code)
  {
    assert ([c] + cs)[1..] == cs;
  }

  lemma {:induction false} InsertIsStable(c: Component, cs: seq<Component>, code: u8)
    ensures OfType(InsertByType(c, cs), code) == OfType([c] + cs, code)
  {
    if cs != [] && c.TypeCode() > cs[0].TypeCode() {
      InsertIsStable(c, cs[1..], code);
      OfTypeCons(cs[0], InsertByType(c, cs[1..]), code);
      OfTypeCons(c, cs[1..], code);
      OfTypeCons(c, cs, code);
    }
  }

  /** The sort: in type order, and the components of one type keep their order. */
  lemma {:induction false} StableSortMeaning(cs: seq<Component>)
    ensures SortedByType(StableSort(cs))
    ensures forall code :: OfType(StableSort(cs), code) == OfType(cs, code)
  {
    if cs != [] {
      var rest := StableSort(cs[1..]);
      StableSortMeaning(cs[1..]);
      InsertSorted(cs[0], rest);
      forall code ensures OfType(StableSort(cs), code) == OfType(cs, code) {
        InsertIsStable(cs[0], rest, code);
        OfTypeCons(cs[0], rest, code);
      }
    }
  }

  lemma {:induction false} OfTypeMembers(cs: seq<Component>, code: u8)
    ensures forall c :: c in OfType(cs, code) <==> c in cs && c.TypeCode() == code
  {
    if cs != [] { OfTypeMembers(cs[1..], code); }
  }

  lemma HeadIsOfLeastType(a: seq<Component>, b: seq<Component>)
    requires SortedByType(b) && a != []
    requires forall code :: OfType(a, code) == OfType(b, code)
    ensures b != [] && b[0].TypeCode() <= a[0].TypeCode()
  {
    OfTypeMembers(a, a[0].TypeCode());
    OfTypeMembers(b, a[0].TypeCode());
    assert a[0] in OfType(b, a[0].TypeCode());
  }

  /** Only one sequence is in type order with the given components of each type. */
  lemma {:induction false} SortedIsUnique(a: seq<Component>, b: seq<Component>)
    requires SortedByType(a) && SortedByType(b)
    requires forall code :: OfType(a, code) == OfType(b, code)
    ensures a == b
  {
    if a != [] { HeadIsOfLeastType(a, b); }
    if b != [] { HeadIsOfLeastType(b, a); }
    if a != [] && b != [] {
      var k := a[0].TypeCode();
      assert OfType(a, k) == [a[0]] + OfType(a[1..], k) && OfType(b, k) == [b[0]] + OfType(b[1..], k);
      assert a[0] == OfType(a, k)[0] == OfType(b, k)[0] == b[0];
      forall code ensures OfType(a[1..], code) == OfType(b[1..], code) {
        assert OfType(a, code) == OfType(b, code);
        assert code == k ==> OfType(a[1..], k) == OfType(a, k)[1..] && OfType(b[1..], k) == OfType(b, k)[1..];
      }
      SortedIsUnique(a[1..], b[1..]);
      assert a == [a[0]] + a[1..] && b == [b[0]] + b[1..];
    }
  }

  lemma SortingASorted(cs: seq<Component>)
    requires SortedByType(cs)
    ensures StableSort(cs) == cs
  {
    StableSortMeaning(cs);
    SortedIsUnique(StableSort(cs), cs);
  }

  lemma {:induction false} InsertedLength(c: Component, cs: seq<Component>, enc: Component -> Bytes)
    ensures |Joined(Each(InsertByType(c, cs), enc))| == |enc(c)| + |Joined(Each(cs, enc))|
  {
    var r := InsertByType(c, cs);
    if cs == [] || c.TypeCode() <= cs[0].TypeCode() {
      assert Each(r, enc)[1..] == Each(cs, enc);
    } else {
      assert Each(r, enc)[1..] == Each(InsertByType(c, cs[1..]), enc);
      assert Each(cs, enc)[1..] == Each(cs[1..], enc);
      InsertedLength(c, cs[1..], enc);
    }
  }

  lemma {:induction false} SortingKeepsLength(cs: seq<Component>, enc: Component -> Bytes)
    ensures |Joined(Each(StableSort(cs), enc))| == |Joined(Each(cs, enc))|
  {
    if cs != [] {
      SortingKeepsLength(cs[1..], enc);
      InsertedLength(cs[0], StableSort(cs[1..]), enc);
      assert Each(cs, enc)[1..] == Each(cs[1..], enc);
    }
  }

  // ---- The whole NLRI ------------------------------------------------------------------------

  /** The length field: one octet below 240, otherwise 0xf and twelve bits. */
  function LengthField(n: nat): (h: Bytes)
    ensures |h| == if n < 240 then 1 else 2
  {
    if n < 240 then [n]
    else
      var len := n % 0x1_0000;
      [0xf0 + len / 0x100 % 16, len % 0x100]
  }

  function Body(fs: FlowSpec): Bytes {
    EncodeComponents(StableSort(fs))
  }

  function Encode(fs: FlowSpec): (b: Bytes)
    ensures |b| >= 1
  {
    LengthField(|Body(fs)|) + Body(fs)
  }

  /** The body length the header announces and the octets the header takes. */
  function ReadLength(buf: Bytes): (r: Option<(nat, nat)>)
    ensures r.Some? ==> 1 <= r.value.1 <= 2 && r.value.1 <= |buf|
  {
    if buf == [] then None
    else if buf[0] / 16 == 15 then
      if |buf| < 2 then None else
        var high: nat, low: nat := buf[0] % 16, buf[1];
        Some((0x100 * high + low, 2))
    else
      var len: nat := buf[0];
      Some((len, 1))
  }

  function DecodeWith(buf: Bytes, dec: Bytes -> Option<(Component, nat)>): (r: Option<(FlowSpec, nat)>)
    requires Progresses(dec)
    ensures r.Some? ==> 1 <= r.value.1 <= |buf|
  {
    match ReadLength(buf)
    case None => None
    case Some((len, hdr)) =>
      if |buf| < hdr + len then None
      else match DecodeEach(buf[hdr..hdr + len], dec)
        case None => None
        case Some(cs) => Some((cs, hdr + len))
  }

  function Decode(buf: Bytes): (r: Option<(FlowSpec, nat)>)
    ensures r.Some? ==> 1 <= r.value.1 <= |buf|
  {
    DecodeWith(buf, DecodeComponent)
  }

  lemma TwelveBits(n: nat)
    ensures
      var high, low := n % 0x1_0000 / 0x100 % 16, n % 0x1_0000 % 0x100;
      0x100 * high + low == n % 0x1000 && (0xf0 + high) / 16 == 15 && (0xf0 + high) % 16 == high
  {
  }

  lemma LengthFieldMeaning(n: nat, rest: Bytes)
    ensures ReadLength(LengthField(n) + rest) == Some((if n < 240 then n else n % 0x1000, |LengthField(n)|))
  {
    var buf := LengthField(n) + rest;
    if n < 240 {
      assert buf[0] == n;
    } else {
      assert buf[0] == LengthField(n)[0] && buf[1] == LengthField(n)[1];
      TwelveBits(n);
    }
  }

  lemma FramedBody(h: Bytes, len: nat, body: Bytes, rest: Bytes,
                   cs: seq<Component>, dec: Bytes -> Option<(Component, nat)>)
    requires Progresses(dec) && DecodeEach(body, dec) == Some(cs)
    requires ReadLength(h + (body + rest)) == Some((len, |h|)) && len <= |body|
    ensures DecodeWith(h + body + rest, dec) == Some((cs, |h + body|)) <==> len == |body|
  {
    AppendAssociates(h, body, rest);
    if len == |body| {
      assert (h + (body + rest))[|h|..|h| + len] == body;
    }
  }

  lemma BodyReadsBack(fs: FlowSpec)
    requires AllSendable(fs)
    ensures DecodeComponents(Body(fs)) == Some(StableSort(fs))
  {
    SortMembers(fs);
    ComponentsRoundTrip(StableSort(fs));
  }

  /** The announced length is the body's own, or too short when twelve bits cannot hold it. */
  lemma AnnouncedLength(body: Bytes, rest: Bytes) returns (len: nat)
    ensures ReadLength(LengthField(|body|) + (body + rest)) == Some((len, |LengthField(|body|)|))
    ensures len <= |body| && (len == |body| <==> |body| <= 4095)
  {
    LengthFieldMeaning(|body|, body + rest);
    len := if |body| < 240 then |body| else |body| % 0x1000;
  }

  lemma FramedRoundTrip(body: Bytes, rest: Bytes, cs: seq<Component>, dec: Bytes -> Option<(Component, nat)>)
    requires Progresses(dec) && DecodeEach(body, dec) == Some(cs)
    ensures
      var b := LengthField(|body|) + body;
      DecodeWith(b + rest, dec) == Some((cs, |b|)) <==> |body| <= 4095
  {
    var len := AnnouncedLength(body, rest);
    FramedBody(LengthField(|body|), len, body, rest, cs, dec);
  }

  /** Decoding an encoding gives the components in type order and uses exactly its octets, if
      and only if the body fits the twelve-bit length. */
  lemma RoundTrip(fs: FlowSpec, rest: Bytes)
    requires AllSendable(fs)
    ensures Decode(Encode(fs) + rest) == Some((StableSort(fs), |Encode(fs)|)) <==> |Body(fs)| <= 4095
  {
    BodyReadsBack(fs);
    FramedRoundTrip(Body(fs), rest, StableSort(fs), DecodeComponent);
  }

  /** What one NLRI can carry. */
  predicate Encodable(fs: FlowSpec) {
    AllSendable(fs) && |Body(fs)| <= 4095
  }

  function DecodeAll(buf: Bytes): (r: Option<seq<FlowSpec>>) {
    DecodeEach(buf, Decode)
  }

  /** `decode_nlris` of concatenated encodings is the list. */
  lemma ListRoundTrip(fss: seq<FlowSpec>)
    requires forall fs | fs in fss :: Encodable(fs)
    ensures DecodeAll(Joined(Each(fss, Encode))) == Some(Each(fss, StableSort))
  {
    forall i | 0 <= i < |fss| ensures Reads(Decode, Encode(fss[i]), StableSort(fss[i])) {
      forall rest: Bytes ensures Decode(Encode(fss[i]) + rest) == Some((StableSort(fss[i]), |Encode(fss[i])|)) {
        assert Encodable(fss[i]);
        RoundTrip(fss[i], rest);
      }
    }
    JoinedReadsBack(Each(fss, Encode), Each(fss, StableSort), Decode);
  }

  /** No encoding is a proper prefix of another. */
  lemma PrefixFree(a: FlowSpec, b: FlowSpec)
    requires Encodable(a) && Encodable(b)
    ensures Encode(a) <= Encode(b) <==> StableSort(a) == StableSort(b)
  {
    if Encode(a) <= Encode(b) {
      var rest := Encode(b)[|Encode(a)|..];
      assert Encode(b) == Encode(a) + rest;
      RoundTrip(a, rest);
      RoundTrip(b, []);
      assert Encode(b) + [] == Encode(b);
    }
  }

  lemma EncodingIsItsBody(a: FlowSpec, b: FlowSpec)
    ensures Encode(a) == Encode(b) <==> Body(a) == Body(b)
  {
    if Encode(a) == Encode(b) {
      LengthFieldMeaning(|Body(a)|, Body(a));
      LengthFieldMeaning(|Body(b)|, Body(b));
      AppendInjective(LengthField(|Body(a)|), Body(a), LengthField(|Body(b)|), Body(b));
    }
  }

  /** The encoding identifies the sorted components, whatever the body's length. */
  lemma EncodingIsCanonical(a: FlowSpec, b: FlowSpec)
    requires AllSendable(a) && AllSendable(b)
    ensures Encode(a) == Encode(b) <==> StableSort(a) == StableSort(b)
  {
    EncodingIsItsBody(a, b);
    BodyReadsBack(a);
    BodyReadsBack(b);
  }

  /** Whatever the decoder accepts can be sent on: the canonical form is no longer and reads
      back as the same components in type order. */
  lemma DecodedCanBeSent(buf: Bytes)
    requires Decode(buf).Some?
    ensures
      var (fs, n) := Decode(buf).value;
      && Encodable(fs) && |Encode(fs)| <= n
      && Decode(Encode(fs)) == Some((StableSort(fs), |Encode(fs)|))
  {
    var (fs, n) := Decode(buf).value;
    var (len, hdr) := ReadLength(buf).value;
    ComponentsReencodeShorter(buf[hdr..hdr + len]);
    DecodedAreSendable(buf[hdr..hdr + len]);
    SortingKeepsLength(fs, EncodeComponent);
    RoundTrip(fs, []);
    assert Encode(fs) + [] == Encode(fs);
  }

  /** The body of `FlowSpec::encode`. */
  method EncodeBody(fs: FlowSpec) returns (body: Bytes)
    ensures body == Body(fs)
  {
    var comps := StableSort(fs);
    ghost var chunks := Each(comps, EncodeComponent);
    body := [];
    for i := 0 to |comps|
      invariant body == Joined(chunks[..i])
    {
      JoinedStep(chunks, i);
      body := PushComponent(comps[i], body);
    }
    assert chunks[..|comps|] == chunks;
  }

  /** `FlowSpec::encode`. */
  method EncodeInto(fs: FlowSpec, front: Bytes) returns (out: Bytes)
    ensures out == front + Encode(fs)
  {
    var body := EncodeBody(fs);
    out := front;
    if |body| < 240 {
      out := out + [|body|];
    } else {
      var len := |body| % 0x1_0000;
      out := out + [0xf0 + len / 0x100 % 16];
      out := out + [len % 0x100];
    }
    AppendAssociates(front, LengthField(|body|), body);
    assert out == front + LengthField(|body|);
    out := out + body;
  }

  /** `FlowSpec::decode`, with the decoder of one component. */
  method DecodeFrom(buf: Bytes, dec: Bytes -> Option<(Component, nat)>) returns (r: Option<(FlowSpec, nat)>)
    requires Progresses(dec)
    ensures r == DecodeWith(buf, dec)
  {
    var head := ReadLength(buf);
    if head.None? {
      return None;
    }
    var (len, hdr) := head.value;
    if |buf| < hdr + len {
      return None;
    }
    var components := PullEach(buf[hdr..hdr + len], dec);
    if components.None? {
      return None;
    }
    r := Some((components.value, hdr + len));
  }

  /** `decode_nlris`. */
  method DecodeNlris(buf: Bytes) returns (r: Option<seq<FlowSpec>>)
    ensures r == DecodeAll(buf)
  {
    r := PullEach(buf, Decode);
  }
}
