/** NLRI prefixes on the wire (`lib.rs` of `wren-bgp`): a length octet and the fewest whole
    octets that hold that many bits. */
module PrefixCodec {
  import opened Wrappers
  import opened Net

  function CeilOctets(len: nat): (n: nat)
    ensures 8 * n >= len && 8 * n < len + 8
  {
    (len + 7) / 8
  }

  /** The first octets of an address, zero-filled to its width. */
  function ZeroFilled(b: Bytes, width: nat): (o: Bytes)
    requires |b| <= width
    ensures |o| == width
  {
    b + seq(width - |b|, i => 0)
  }

  /** The octets of a masked address that are not sent are zero. */
  lemma MaskedTailIsZero(o: Bytes, len: nat)
    requires CeilOctets(len) <= |o| && o == MaskOctets(o, len)
    ensures ZeroFilled(o[..CeilOctets(len)], |o|) == o
  {
    var n := CeilOctets(len);
    forall i | n <= i < |o| ensures o[i] == 0 {
      assert o[i] == MaskOctets(o, len)[i] == MaskOctet(o[i], i, len);
    }
  }

  /** `encode_prefix_any`: either family. */
  function EncodePrefixAny(p: Prefix): (b: Bytes)
    requires p.Normal()
    ensures |b| == 1 + CeilOctets(p.len)
  {
    [p.len] + p.addr.Octets()[..CeilOctets(p.len)]
  }

  /** `encode_prefix`: IPv4 only; of an IPv6 prefix it writes the length octet and stops. */
  function EncodePrefix(p: Prefix): (b: Bytes)
    requires p.Normal()
    ensures |b| >= 1
  {
    if p.addr.V4? then EncodePrefixAny(p) else [p.len]
  }

  /** The octets of one prefix at the front of `buf`, for addresses of `width` octets. */
  function ReadOctets(buf: Bytes, width: nat): (r: Option<(Bytes, nat)>)
    ensures r.Some? ==> |r.value.0| == width && 1 <= r.value.1 <= |buf|
  {
    if buf == [] || buf[0] > 8 * width then None
    else
      var n := CeilOctets(buf[0]);
      if |buf| < 1 + n then None else Some((ZeroFilled(buf[1..1 + n], width), 1 + n))
  }

  /** `decode_prefix`: the prefix at the front of `buf` and the octets it takes. */
  function DecodePrefix(buf: Bytes): (r: Option<(Prefix, nat)>)
    ensures r.Some? ==> 1 <= r.value.1 <= |buf| && r.value.0.Normal() && r.value.0.addr.V4?
  {
    match ReadOctets(buf, 4)
    case None => None
    case Some((o, n)) => Some((NewPrefix(V4(o), buf[0]).value, n))
  }

  /** `decode_prefix_v6`. */
  function DecodePrefixV6(buf: Bytes): (r: Option<(Prefix, nat)>)
    ensures r.Some? ==> 1 <= r.value.1 <= |buf| && r.value.0.Normal() && r.value.0.addr.V6?
  {
    match ReadOctets(buf, 16)
    case None => None
    case Some((o, n)) => Some((NewPrefix(V6(o), buf[0]).value, n))
  }

  lemma ReadEncodedOctets(p: Prefix, rest: Bytes)
    requires p.Normal()
    ensures ReadOctets(EncodePrefixAny(p) + rest, |p.addr.Octets()|) == Some((p.addr.Octets(), |EncodePrefixAny(p)|))
  {
    var o, n := p.addr.Octets(), CeilOctets(p.len);
    var buf := EncodePrefixAny(p) + rest;
    assert buf[1..1 + n] == o[..n];
    assert p.addr == Mask(p.addr, p.len);
    MaskedTailIsZero(o, p.len);
  }

  /** Reading back what was written, whatever follows. */
  lemma PrefixRoundTrip(p: Prefix, rest: Bytes)
    requires p.Normal() && p.addr.V4?
    ensures DecodePrefix(EncodePrefix(p) + rest) == Some((p, |EncodePrefix(p)|))
  {
    ReadEncodedOctets(p, rest);
  }

  lemma PrefixV6RoundTrip(p: Prefix, rest: Bytes)
    requires p.Normal() && p.addr.V6?
    ensures DecodePrefixV6(EncodePrefixAny(p) + rest) == Some((p, |EncodePrefixAny(p)|))
  {
    ReadEncodedOctets(p, rest);
  }
}
