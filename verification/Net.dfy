/** The shared vocabulary of `wren-core`: machine integers, IP addresses held as their
    network-order octets, CIDR prefixes and next hops. */
module Net {
  import opened Wrappers
  import opened Orders

  type u8 = x: int | 0 <= x < 0x100
  type u16 = x: int | 0 <= x < 0x1_0000
  type u32 = x: int | 0 <= x < 0x1_0000_0000
  type u64 = x: int | 0 <= x < 0x1_0000_0000_0000_0000

  type Bytes = seq<u8>
  type Octets4 = b: Bytes | |b| == 4 witness [0, 0, 0, 0]
  type Octets8 = b: Bytes | |b| == 8 witness [0, 0, 0, 0, 0, 0, 0, 0]
  type Octets16 = b: Bytes | |b| == 16 witness seq(16, i => 0)

  datatype IpAddr = V4(v4: Octets4) | V6(v6: Octets16) {
    function Octets(): Bytes {
      match this
      case V4(o) => o
      case V6(o) => o
    }

    function MaxLen(): u8 {
      match this
      case V4(_) => 32
      case V6(_) => 128
    }
  }

  /** IPv4 sorts before IPv6, then numerically (network-order octets). */
  function AddrRank(a: IpAddr): seq<int> {
    match a
    case V4(o) => [0] + o
    case V6(o) => [1] + o
  }

  predicate AddrLess(a: IpAddr, b: IpAddr) {
    LexLess(AddrRank(a), AddrRank(b))
  }

  lemma AddrRankInjective()
    ensures Injective(AddrRank)
  {
    forall a, b | AddrRank(a) == AddrRank(b) ensures a == b {
      assert AddrRank(a)[0] == AddrRank(b)[0];
      assert AddrRank(a)[1..] == AddrRank(b)[1..];
      assert a.Octets() == AddrRank(a)[1..];
      assert b.Octets() == AddrRank(b)[1..];
    }
  }

  // ---- Prefixes ------------------------------------------------------------------

  /** `o & (0xff << k)`: the `k` lowest bits of an octet cleared. */
  function ClearLow(o: u8, k: nat): (m: u8)
    ensures m <= o
  {
    if k == 0 then o else 2 * ClearLow(o / 2, k - 1)
  }

  /** The octet at index `i` of an address masked to `len` bits. */
  function MaskOctet(o: u8, i: nat, len: nat): u8 {
    if 8 * (i + 1) <= len then o
    else if len <= 8 * i then 0
    else ClearLow(o, 8 * (i + 1) - len)
  }

  /** Clear the host bits below `len`. */
  function MaskOctets(o: Bytes, len: nat): (m: Bytes)
    ensures |m| == |o|
  {
    seq(|o|, i requires 0 <= i < |o| => MaskOctet(o[i], i, len))
  }

  function Mask(a: IpAddr, len: nat): IpAddr {
    match a
    case V4(o) => V4(MaskOctets(o, len))
    case V6(o) => V6(MaskOctets(o, len))
  }

  /** A network. `NewPrefix` makes only normal ones: equal networks are equal values. */
  datatype Prefix = Prefix(addr: IpAddr, len: u8) {
    predicate Normal() {
      len <= addr.MaxLen() && addr == Mask(addr, len)
    }
  }

  lemma {:induction false} ClearLowIdempotent(o: u8, k: nat)
    ensures ClearLow(ClearLow(o, k), k) == ClearLow(o, k)
  {
    if k > 0 { ClearLowIdempotent(o / 2, k - 1); }
  }

  lemma MaskIdempotent(a: IpAddr, len: nat)
    ensures Mask(Mask(a, len), len) == Mask(a, len)
  {
    var o := a.Octets();
    forall i | 0 <= i < |o| ensures MaskOctets(MaskOctets(o, len), len)[i] == MaskOctets(o, len)[i] {
      if 8 * i < len < 8 * (i + 1) { ClearLowIdempotent(o[i], 8 * (i + 1) - len); }
    }
    assert MaskOctets(MaskOctets(o, len), len) == MaskOctets(o, len);
  }

  /** `Prefix::new`: refuse an over-long length, clear the host bits otherwise. */
  function NewPrefix(addr: IpAddr, len: u8): (r: Option<Prefix>)
    ensures r.Some? <==> len <= addr.MaxLen()
    ensures r.Some? ==> r.value.Normal() && r.value.len == len && r.value.addr == Mask(addr, len)
  {
    MaskIdempotent(addr, len);
    if len > addr.MaxLen() then None else Some(Prefix(Mask(addr, len), len))
  }

  /** `Ord for Prefix`: (family, address, length). */
  function PrefixRank(p: Prefix): seq<int> {
    AddrRank(p.addr) + [p.len]
  }

  lemma PrefixRankInjective()
    ensures Injective(PrefixRank)
  {
    AddrRankInjective();
    forall a, b | PrefixRank(a) == PrefixRank(b) ensures a == b {
      var x, y := PrefixRank(a), PrefixRank(b);
      assert AddrRank(a.addr) == x[..|x| - 1] && AddrRank(b.addr) == y[..|y| - 1];
      assert a.len == x[|x| - 1] && b.len == y[|y| - 1];
    }
  }

  lemma ZeroIsMasked()
    ensures Prefix(V4([0, 0, 0, 0]), 0).Normal()
  {
    assert MaskOctets([0, 0, 0, 0], 0) == [0, 0, 0, 0];
  }

  function DefaultV4(): (p: Prefix)
    ensures p.Normal() && p.addr.V4? && p.len == 0
  {
    ZeroIsMasked();
    Prefix(V4([0, 0, 0, 0]), 0)
  }

  /** A prefix made by `Prefix::new`, the only way the crates make one. */
  type Network = p: Prefix | p.Normal() witness DefaultV4()

  datatype NextHop = NextHop(gateway: Option<IpAddr>, iface: Option<string>, weight: u16)
}
