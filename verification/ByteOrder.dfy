/** Big-endian integers and single bits of an octet. */
module ByteOrder {
  import opened Net

  /** The `k` low-order octets of `n`, most significant first. */
  function ToBe(n: nat, k: nat): (b: Bytes)
    ensures |b| == k
  {
    if k == 0 then [] else ToBe(n / 0x100, k - 1) + [n % 0x100]
  }

  function FromBe(b: Bytes): nat {
    if b == [] then 0 else 0x100 * FromBe(b[..|b| - 1]) + b[|b| - 1]
  }

  /** `n` fits into `k` octets. */
  predicate Fits(n: nat, k: nat) {
    if k == 0 then n == 0 else Fits(n / 0x100, k - 1)
  }

  lemma {:induction false} FromToBe(n: nat, k: nat)
    requires Fits(n, k)
    ensures FromBe(ToBe(n, k)) == n
  {
    if k > 0 {
      FromToBe(n / 0x100, k - 1);
      assert ToBe(n, k)[..k - 1] == ToBe(n / 0x100, k - 1);
    }
  }

  lemma {:induction false} ToFromBe(b: Bytes)
    ensures Fits(FromBe(b), |b|) && ToBe(FromBe(b), |b|) == b
  {
    if b != [] {
      ToFromBe(b[..|b| - 1]);
      assert FromBe(b) / 0x100 == FromBe(b[..|b| - 1]);
      assert b == b[..|b| - 1] + [b[|b| - 1]];
    }
  }

  lemma {:induction false} FitsMore(n: nat, k: nat, l: nat)
    requires Fits(n, k) && k <= l
    ensures Fits(n, l)
  {
    if k > 0 { FitsMore(n / 0x100, k - 1, l - 1); }
    else if l > 0 { FitsMore(n / 0x100, 0, l - 1); }
  }

  lemma Fits16(n: nat)
    ensures Fits(n, 2) <==> n < 0x1_0000
  {
    assert Fits(n, 2) <==> Fits(n / 0x100 / 0x100, 0);
  }

  lemma Fits32(n: nat)
    ensures Fits(n, 4) <==> n < 0x1_0000_0000
  {
    Fits16(n / 0x1_0000);
    assert n / 0x100 / 0x100 == n / 0x1_0000;
    assert Fits(n, 4) <==> Fits(n / 0x100, 3);
    assert Fits(n / 0x100, 3) <==> Fits(n / 0x100 / 0x100, 2);
  }

  lemma Fits64(n: nat)
    ensures Fits(n, 8) <==> n < 0x1_0000_0000_0000_0000
  {
    Fits32(n / 0x1_0000_0000);
    assert n / 0x100 / 0x100 / 0x100 / 0x100 == n / 0x1_0000_0000;
    assert Fits(n, 8) <==> Fits(n / 0x100, 7);
    assert Fits(n / 0x100, 7) <==> Fits(n / 0x100 / 0x100, 6);
    assert Fits(n / 0x100 / 0x100, 6) <==> Fits(n / 0x100 / 0x100 / 0x100, 5);
    assert Fits(n / 0x100 / 0x100 / 0x100, 5) <==> Fits(n / 0x100 / 0x100 / 0x100 / 0x100, 4);
  }

  function Be16(x: u16): Bytes { ToBe(x, 2) }
  function Be32(x: u32): Bytes { ToBe(x, 4) }

  /** `u16::from_be_bytes` at an offset. */
  function U16At(b: Bytes, i: nat): (x: u16)
    requires i + 2 <= |b|
  {
    ToFromBe(b[i..i + 2]);
    Fits16(FromBe(b[i..i + 2]));
    FromBe(b[i..i + 2])
  }

  function U32At(b: Bytes, i: nat): (x: u32)
    requires i + 4 <= |b|
  {
    ToFromBe(b[i..i + 4]);
    Fits32(FromBe(b[i..i + 4]));
    FromBe(b[i..i + 4])
  }

  lemma U16RoundTrip(b: Bytes, i: nat, x: u16)
    requires i + 2 <= |b|
    ensures b[i..i + 2] == Be16(x) <==> U16At(b, i) == x
  {
    Fits16(x);
    FromToBe(x, 2);
    ToFromBe(b[i..i + 2]);
  }

  lemma U32RoundTrip(b: Bytes, i: nat, x: u32)
    requires i + 4 <= |b|
    ensures b[i..i + 4] == Be32(x) <==> U32At(b, i) == x
  {
    Fits32(x);
    FromToBe(x, 4);
    ToFromBe(b[i..i + 4]);
  }

  // ---- Bits of an octet ------------------------------------------------------------------------

  /** `b >> k`. */
  function Shr(b: nat, k: nat): nat {
    if k == 0 then b else Shr(b, k - 1) / 2
  }

  /** Bit `k` of `b`, as a number. */
  function BitVal(b: nat, k: nat): nat {
    Shr(b, k) % 2
  }

  /** Whether bit `k` of `b` is set. */
  predicate BitAt(b: nat, k: nat) {
    BitVal(b, k) == 1
  }

  function One(b: bool): nat {
    if b then 1 else 0
  }

  lemma Halving(b: nat, k: nat)
    ensures Shr(b, k) == 2 * Shr(b, k + 1) + BitVal(b, k) && BitVal(b, k) <= 1
  {
  }

  lemma SumOfHalves(a0: nat, a1: nat, a2: nat, a3: nat, a4: nat, a5: nat, a6: nat,
                    d0: nat, d1: nat, d2: nat, d3: nat, d4: nat, d5: nat)
    requires a0 == 2 * a1 + d0 && a1 == 2 * a2 + d1 && a2 == 2 * a3 + d2
    requires a3 == 2 * a4 + d3 && a4 == 2 * a5 + d4 && a5 == 2 * a6 + d5
    ensures a0 == 64 * a6 + 32 * d5 + 16 * d4 + 8 * d3 + 4 * d2 + 2 * d1 + d0
  {
  }

  /** An octet is its two high bits and its six low ones. */
  lemma OctetBits(f: nat)
    ensures f == 64 * Shr(f, 6) + 32 * BitVal(f, 5) + 16 * BitVal(f, 4) + 8 * BitVal(f, 3)
              + 4 * BitVal(f, 2) + 2 * BitVal(f, 1) + BitVal(f, 0)
  {
    Halving(f, 0); Halving(f, 1); Halving(f, 2); Halving(f, 3); Halving(f, 4); Halving(f, 5);
    SumOfHalves(f, Shr(f, 1), Shr(f, 2), Shr(f, 3), Shr(f, 4), Shr(f, 5), Shr(f, 6),
                BitVal(f, 0), BitVal(f, 1), BitVal(f, 2), BitVal(f, 3), BitVal(f, 4), BitVal(f, 5));
  }

  lemma HalvesAreUnique(a: nat, d: nat, b: nat, e: nat)
    requires 2 * a + d == 2 * b + e && d <= 1 && e <= 1
    ensures a == b && d == e
  {
  }

  /** The bits of an octet put together from bits are those bits. */
  lemma AssembledBits(high: nat, d5: nat, d4: nat, d3: nat, d2: nat, d1: nat, d0: nat)
    requires d5 <= 1 && d4 <= 1 && d3 <= 1 && d2 <= 1 && d1 <= 1 && d0 <= 1
    ensures
      var f := 64 * high + 32 * d5 + 16 * d4 + 8 * d3 + 4 * d2 + 2 * d1 + d0;
      && Shr(f, 6) == high && BitVal(f, 5) == d5 && BitVal(f, 4) == d4 && BitVal(f, 3) == d3
      && BitVal(f, 2) == d2 && BitVal(f, 1) == d1 && BitVal(f, 0) == d0
  {
    var a5 := 2 * high + d5;
    var a4 := 2 * a5 + d4;
    var a3 := 2 * a4 + d3;
    var a2 := 2 * a3 + d2;
    var a1 := 2 * a2 + d1;
    var f := 2 * a1 + d0;
    Halving(f, 0); HalvesAreUnique(a1, d0, Shr(f, 1), BitVal(f, 0));
    Halving(f, 1); HalvesAreUnique(a2, d1, Shr(f, 2), BitVal(f, 1));
    Halving(f, 2); HalvesAreUnique(a3, d2, Shr(f, 3), BitVal(f, 2));
    Halving(f, 3); HalvesAreUnique(a4, d3, Shr(f, 4), BitVal(f, 3));
    Halving(f, 4); HalvesAreUnique(a5, d4, Shr(f, 5), BitVal(f, 4));
    Halving(f, 5); HalvesAreUnique(high, d5, Shr(f, 6), BitVal(f, 5));
  }

  lemma BitsOf(f: nat, high: nat, d5: nat, d4: nat, d3: nat, d2: nat, d1: nat, d0: nat)
    requires d5 <= 1 && d4 <= 1 && d3 <= 1 && d2 <= 1 && d1 <= 1 && d0 <= 1
    requires f == 64 * high + 32 * d5 + 16 * d4 + 8 * d3 + 4 * d2 + 2 * d1 + d0
    ensures Shr(f, 6) == high
    ensures BitAt(f, 5) == (d5 == 1) && BitAt(f, 4) == (d4 == 1) && BitAt(f, 3) == (d3 == 1)
    ensures BitAt(f, 2) == (d2 == 1) && BitAt(f, 1) == (d1 == 1) && BitAt(f, 0) == (d0 == 1)
  {
    AssembledBits(high, d5, d4, d3, d2, d1, d0);
  }

  lemma BitsAreOnes(f: nat)
    ensures forall k: nat | k < 6 :: BitVal(f, k) == One(BitAt(f, k))
  {
  }
}
