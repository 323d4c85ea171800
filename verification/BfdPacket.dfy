/** The BFD Control packet codec (`packet.rs`). */
module BfdPacket {
  import opened Wrappers
  import opened Net
  import opened ByteOrder

  const VERSION: u8 := 1
  const MANDATORY_LEN: nat := 24
  const MIN_AUTHENTICATED_LEN: nat := 26

  datatype State = Down | Init | Up | AdminDown

  function StateBits(s: State): u8 {
    match s
    case AdminDown => 0
    case Down => 1
    case Init => 2
    case Up => 3
  }

  function StateFromBits(b: nat): State {
    match b % 4
    case 0 => AdminDown
    case 1 => Down
    case 2 => Init
    case _ => Up
  }

  datatype Diag =
    | NoDiagnostic
    | ControlDetectionTimeExpired
    | EchoFunctionFailed
    | NeighborSignaledDown
    | AdministrativelyDown
    | Other(raw: u8)

  function DiagCode(d: Diag): u8 {
    match d
    case NoDiagnostic => 0
    case ControlDetectionTimeExpired => 1
    case EchoFunctionFailed => 2
    case NeighborSignaledDown => 3
    case AdministrativelyDown => 7
    case Other(c) => c % 32
  }

  function DiagFromCode(code: u8): Diag {
    match code % 32
    case 0 => NoDiagnostic
    case 1 => ControlDetectionTimeExpired
    case 2 => EchoFunctionFailed
    case 3 => NeighborSignaledDown
    case 7 => AdministrativelyDown
    case c => Other(c)
  }

  datatype ControlPacket = ControlPacket(
    diag: Diag, state: State, poll: bool, final: bool, cpi: bool, demand: bool,
    detectMult: u8, myDiscr: u32, yourDiscr: u32,
    desiredMinTx: u32, requiredMinRx: u32, requiredMinEchoRx: u32, authPresent: bool)

  /** Sta (2 bits), P, F, C, A, D, M. */
  function FlagOctet(p: ControlPacket): u8 {
    64 * StateBits(p.state) + 32 * One(p.poll) + 16 * One(p.final) + 8 * One(p.cpi) + 2 * One(p.demand)
  }

  /** The 24 octets of a packet. The A and M bits stay clear and Length is 24. */
  function Wire(p: ControlPacket): (b: Bytes)
    ensures |b| == MANDATORY_LEN
  {
    [VERSION * 32 + DiagCode(p.diag),
     FlagOctet(p),
     p.detectMult,
     MANDATORY_LEN]
    + Be32(p.myDiscr) + Be32(p.yourDiscr) + Be32(p.desiredMinTx) + Be32(p.requiredMinRx) + Be32(p.requiredMinEchoRx)
  }

  method CopyInto(b: array<u8>, at: nat, src: Bytes)
    requires at + |src| <= b.Length
    modifies b
    ensures b[..at + |src|] == old(b[..at]) + src
  {
    for i := 0 to |src|
      invariant b[..at + i] == old(b[..at]) + src[..i]
    {
      b[at + i] := src[i];
      assert b[..at + i + 1] == b[..at + i] + [src[i]];
    }
    assert src[..|src|] == src;
  }

  /** `encode`: fills a zeroed buffer field by field. */
  method Encode(p: ControlPacket) returns (b: array<u8>)
    ensures fresh(b) && b[..] == Wire(p)
  {
    b := new u8[MANDATORY_LEN](i => 0);
    b[0] := VERSION * 32 + DiagCode(p.diag);
    b[1] := EncodeFlags(p);
    b[2] := p.detectMult;
    b[3] := MANDATORY_LEN;
    FillWords(b, Be32(p.myDiscr), Be32(p.yourDiscr), Be32(p.desiredMinTx), Be32(p.requiredMinRx),
              Be32(p.requiredMinEchoRx));
  }

  /** The five words that follow the first four octets. */
  method FillWords(b: array<u8>, w1: Bytes, w2: Bytes, w3: Bytes, w4: Bytes, w5: Bytes)
    requires b.Length == 24 && |w1| == 4 && |w2| == 4 && |w3| == 4 && |w4| == 4 && |w5| == 4
    modifies b
    ensures b[..] == old(b[..4]) + w1 + w2 + w3 + w4 + w5
  {
    CopyInto(b, 4, w1);
    CopyInto(b, 8, w2);
    CopyInto(b, 12, w3);
    CopyInto(b, 16, w4);
    CopyInto(b, 20, w5);
    assert b[..24] == b[..];
  }

  method EncodeFlags(p: ControlPacket) returns (flags: u8)
    ensures flags == FlagOctet(p)
  {
    flags := StateBits(p.state) * 64;
    if p.poll { flags := flags + 32; }
    if p.final { flags := flags + 16; }
    if p.cpi { flags := flags + 8; }
    if p.demand { flags := flags + 2; }
  }

  /** `decode`: the reception checks that need the packet alone. */
  function Decode(buf: Bytes): Option<ControlPacket> {
    if |buf| < MANDATORY_LEN then None
    else if buf[0] / 32 != VERSION then None
    else
      var state := StateFromBits(Shr(buf[1], 6));
      var auth := BitAt(buf[1], 2);
      var length := buf[3];
      if BitAt(buf[1], 0) || buf[2] == 0 then None
      else if length < (if auth then MIN_AUTHENTICATED_LEN else MANDATORY_LEN) || length > |buf| then None
      else if U32At(buf, 4) == 0 then None
      else if U32At(buf, 8) == 0 && state != Down && state != AdminDown then None
      else Some(ControlPacket(
        DiagFromCode(buf[0] % 32), state, BitAt(buf[1], 5), BitAt(buf[1], 4), BitAt(buf[1], 3), BitAt(buf[1], 1),
        buf[2], U32At(buf, 4), U32At(buf, 8), U32At(buf, 12), U32At(buf, 16), U32At(buf, 20), auth))
  }

  /** What a packet must satisfy to survive its own codec. */
  predicate SelfCompatible(p: ControlPacket) {
    && DiagFromCode(DiagCode(p.diag)) == p.diag
    && p.detectMult != 0
    && p.myDiscr != 0
    && (p.yourDiscr == 0 ==> p.state == Down || p.state == AdminDown)
    && !p.authPresent
  }

  lemma FlagOctetBits(p: ControlPacket)
    ensures
      var f := FlagOctet(p);
      && StateFromBits(Shr(f, 6)) == p.state
      && BitAt(f, 5) == p.poll && BitAt(f, 4) == p.final && BitAt(f, 3) == p.cpi && BitAt(f, 1) == p.demand
      && !BitAt(f, 2) && !BitAt(f, 0)
  {
    var f, h := FlagOctet(p), StateBits(p.state);
    var d5, d4, d3, d1 := One(p.poll), One(p.final), One(p.cpi), One(p.demand);
    assert f == 64 * h + 32 * d5 + 16 * d4 + 8 * d3 + 4 * 0 + 2 * d1 + 0;
    BitsOf(f, h, d5, d4, d3, 0, d1, 0);
  }

  /** The octet of flags is determined by the fields it is read into. */
  lemma FlagOctetOf(f: u8, p: ControlPacket)
    requires p.state == StateFromBits(Shr(f, 6)) && !BitAt(f, 2) && !BitAt(f, 0)
    requires p.poll == BitAt(f, 5) && p.final == BitAt(f, 4) && p.cpi == BitAt(f, 3) && p.demand == BitAt(f, 1)
    ensures f == FlagOctet(p)
  {
    OctetBits(f);
    StateBitsRoundTrip(Shr(f, 6));
    BitsAreOnes(f);
  }

  /** The five words of a packet's tail sit at their offsets. */
  lemma WireWords(p: ControlPacket)
    ensures
      var b := Wire(p);
      && U32At(b, 4) == p.myDiscr && U32At(b, 8) == p.yourDiscr && U32At(b, 12) == p.desiredMinTx
      && U32At(b, 16) == p.requiredMinRx && U32At(b, 20) == p.requiredMinEchoRx
  {
    var b := Wire(p);
    assert b[4..8] == Be32(p.myDiscr) && b[8..12] == Be32(p.yourDiscr) && b[12..16] == Be32(p.desiredMinTx);
    assert b[16..20] == Be32(p.requiredMinRx) && b[20..24] == Be32(p.requiredMinEchoRx);
    U32RoundTrip(b, 4, p.myDiscr);
    U32RoundTrip(b, 8, p.yourDiscr);
    U32RoundTrip(b, 12, p.desiredMinTx);
    U32RoundTrip(b, 16, p.requiredMinRx);
    U32RoundTrip(b, 20, p.requiredMinEchoRx);
  }

  /** Encoding then decoding returns the packet exactly when it is self-compatible; any other
      packet is refused or changed. */
  lemma RoundTrip(p: ControlPacket)
    ensures Decode(Wire(p)) == Some(p) <==> SelfCompatible(p)
  {
    FlagOctetBits(p);
    WireWords(p);
    assert Wire(p)[0] % 32 == DiagCode(p.diag);
  }

  lemma DecodedHeader(buf: Bytes, p: ControlPacket)
    requires |buf| == MANDATORY_LEN && Decode(buf) == Some(p) && !p.authPresent
    ensures buf[0] == VERSION * 32 + DiagCode(p.diag) && buf[1] == FlagOctet(p)
    ensures buf[2] == p.detectMult && buf[3] == MANDATORY_LEN
  {
    assert DiagCode(p.diag) == buf[0] % 32;
    FlagOctetOf(buf[1], p);
  }

  lemma DecodedWords(buf: Bytes, p: ControlPacket)
    requires |buf| == MANDATORY_LEN && Decode(buf) == Some(p)
    ensures buf[4..8] == Be32(p.myDiscr) && buf[8..12] == Be32(p.yourDiscr) && buf[12..16] == Be32(p.desiredMinTx)
    ensures buf[16..20] == Be32(p.requiredMinRx) && buf[20..24] == Be32(p.requiredMinEchoRx)
  {
    U32RoundTrip(buf, 4, p.myDiscr);
    U32RoundTrip(buf, 8, p.yourDiscr);
    U32RoundTrip(buf, 12, p.desiredMinTx);
    U32RoundTrip(buf, 16, p.requiredMinRx);
    U32RoundTrip(buf, 20, p.requiredMinEchoRx);
  }

  /** Every plain 24-octet datagram that decodes is the encoding of what it decodes to. */
  lemma DecodedDatagramIsCanonical(buf: Bytes, p: ControlPacket)
    requires |buf| == MANDATORY_LEN && Decode(buf) == Some(p) && !p.authPresent
    ensures Wire(p) == buf && SelfCompatible(p)
  {
    DecodedHeader(buf, p);
    DecodedWords(buf, p);
    SixWords(buf);
    WireIs(p, buf[4..8], buf[8..12], buf[12..16], buf[16..20], buf[20..24]);
    RoundTrip(p);
  }

  lemma SixWords(buf: Bytes)
    requires |buf| == 24
    ensures buf == [buf[0], buf[1], buf[2], buf[3]] + buf[4..8] + buf[8..12] + buf[12..16] + buf[16..20] + buf[20..24]
  {
  }

  lemma WireIs(p: ControlPacket, w1: Bytes, w2: Bytes, w3: Bytes, w4: Bytes, w5: Bytes)
    requires w1 == Be32(p.myDiscr) && w2 == Be32(p.yourDiscr) && w3 == Be32(p.desiredMinTx)
    requires w4 == Be32(p.requiredMinRx) && w5 == Be32(p.requiredMinEchoRx)
    ensures Wire(p) == [VERSION * 32 + DiagCode(p.diag), FlagOctet(p), p.detectMult, MANDATORY_LEN] + w1 + w2 + w3 + w4 + w5
  {
  }

  lemma StateBitsRoundTrip(b: nat)
    requires b < 4
    ensures StateBits(StateFromBits(b)) == b
  {
  }
}
