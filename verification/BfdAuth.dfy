/** BFD authentication (`auth.rs`): the Authentication Section, the circular replay window,
    and what an authenticated stream guarantees over unbounded runs. The digest is any
    function whose results have the length its type prescribes. */
module BfdAuth {
  import opened Wrappers
  import opened Net
  import opened ByteOrder
  import opened BfdPacket

  datatype AuthType = SimplePassword | KeyedMd5 | MeticulousKeyedMd5 | KeyedSha1 | MeticulousKeyedSha1

  function TypeCode(t: AuthType): u8 {
    match t
    case SimplePassword => 1
    case KeyedMd5 => 2
    case MeticulousKeyedMd5 => 3
    case KeyedSha1 => 4
    case MeticulousKeyedSha1 => 5
  }

  function DigestLen(t: AuthType): nat {
    match t
    case KeyedMd5 => 16
    case MeticulousKeyedMd5 => 16
    case KeyedSha1 => 20
    case MeticulousKeyedSha1 => 20
    case SimplePassword => 0
  }

  predicate Meticulous(t: AuthType) {
    t == MeticulousKeyedMd5 || t == MeticulousKeyedSha1
  }

  type Digest = (AuthType, Bytes) -> Bytes

  ghost predicate FixedLength(digest: Digest) {
    forall t, data :: |digest(t, data)| == DigestLen(t)
  }

  datatype AuthConfig = AuthConfig(authType: AuthType, keyId: u8, secret: Bytes)

  datatype AuthVars = AuthVars(cfg: AuthConfig, detectMult: u8, xmitSeq: u32, rxSeq: Option<u32>)

  function NewAuth(cfg: AuthConfig, detectMult: u8): AuthVars {
    AuthVars(cfg, if detectMult == 0 then 1 else detectMult, 1, None)
  }

  // ---- The section -----------------------------------------------------------------------------

  /** `key.resize(n, 0)`: truncated or padded with zeros. */
  function Resized(secret: Bytes, n: nat): (key: Bytes)
    ensures |key| == n
  {
    if n <= |secret| then secret[..n] else secret + seq(n - |secret|, i => 0)
  }

  /** `flags |= 1 << 2`. */
  function WithAuthBit(flags: u8): u8 {
    var wide: int := flags;
    if BitAt(flags, 2) then flags else (wide + 4) % 0x100
  }

  /** The mandatory section with the A bit set and the Length field patched. */
  function Head(mand: Bytes, length: u8): (h: Bytes)
    requires |mand| == 24
    ensures |h| == 24 && h[3] == length
  {
    mand[1 := WithAuthBit(mand[1])][3 := length]
  }

  /** Everything of a keyed section but the digest. */
  function KeyedHeader(cfg: AuthConfig, seq_: u32): (h: Bytes)
    ensures |h| == 8
  {
    [TypeCode(cfg.authType), 8 + DigestLen(cfg.authType), cfg.keyId, 0] + Be32(seq_)
  }

  /** What the digest is computed over: the datagram with the key in the digest field. */
  function Keyed(cfg: AuthConfig, mand: Bytes, seq_: u32): Bytes
    requires |mand| == 24
  {
    Head(mand, 32 + DigestLen(cfg.authType)) + KeyedHeader(cfg, seq_) + Resized(cfg.secret, DigestLen(cfg.authType))
  }

  /** `append`, with the next transmit sequence number for the digest types. */
  function Append(v: AuthVars, mand: Bytes, digest: Digest): (Bytes, AuthVars)
    requires |mand| == 24
  {
    var cfg := v.cfg;
    if cfg.authType == SimplePassword then
      var authLen := 3 + |cfg.secret|;
      (Head(mand, (24 + authLen) % 0x100) + [TypeCode(SimplePassword), authLen % 0x100, cfg.keyId] + cfg.secret, v)
    else
      var next := (v.xmitSeq + 1) % 0x1_0000_0000;
      (Head(mand, 32 + DigestLen(cfg.authType)) + KeyedHeader(cfg, next) + digest(cfg.authType, Keyed(cfg, mand, next)),
       v.(xmitSeq := next))
  }

  /** `a.wrapping_sub(b)`: the forward distance from `b` to `a` in the circular space. */
  function WrappingSub(a: u32, b: u32): u32 {
    if a >= b then a - b else a - b + 0x1_0000_0000
  }

  /** `seq_` lies in the replay window that opens at `last`, modulo 2^32. */
  predicate WithinReplayWindow(last: u32, seq_: u32, detectMult: u8, meticulous: bool) {
    var delta := WrappingSub(seq_, last);
    (if meticulous then 1 else 0) <= delta <= 3 * detectMult
  }

  predicate InWindow(v: AuthVars, seq_: u32) {
    v.rxSeq.None? || WithinReplayWindow(v.rxSeq.value, seq_, v.detectMult, Meticulous(v.cfg.authType))
  }

  /** The checks of `verify` before the digest and the window. */
  predicate WellFramed(v: AuthVars, buf: Bytes) {
    && |buf| >= 25
    && 26 <= buf[3] <= |buf|
    && buf[25] == buf[3] - 24
    && buf[24] == TypeCode(v.cfg.authType)
    && (if v.cfg.authType == SimplePassword then buf[3] - 24 == 3 + |v.cfg.secret|
        else buf[3] - 24 == 8 + DigestLen(v.cfg.authType) && buf[26] == v.cfg.keyId)
  }

  /** The datagram with the shared key where its digest was. */
  function Rekeyed(cfg: AuthConfig, buf: Bytes): Bytes
    requires |buf| >= 32
  {
    buf[..32] + Resized(cfg.secret, DigestLen(cfg.authType))
  }

  /** `verify`: whether the datagram is accepted, and the replay state after. */
  function Verify(v: AuthVars, buf: Bytes, digest: Digest): (bool, AuthVars) {
    if !WellFramed(v, buf) then (false, v)
    else if v.cfg.authType == SimplePassword then
      (buf[26] == v.cfg.keyId && buf[27..buf[3]] == v.cfg.secret, v)
    else if digest(v.cfg.authType, Rekeyed(v.cfg, buf)) != buf[32..buf[3]] then (false, v)
    else
      var seq_ := U32At(buf, 28);
      if InWindow(v, seq_) then (true, v.(rxSeq := Some(seq_))) else (false, v)
  }

  // ---- One packet ----------------------------------------------------------------------------------

  /** A digest-authenticated packet built by `append` passes every check of a receiver with
      the same key except the replay window, which alone decides. */
  lemma AppendedKeyedVerifies(s: AuthVars, r: AuthVars, mand: Bytes, digest: Digest)
    requires |mand| == 24 && FixedLength(digest) && r.cfg == s.cfg && s.cfg.authType != SimplePassword
    ensures
      var next := (s.xmitSeq + 1) % 0x1_0000_0000;
      Verify(r, Append(s, mand, digest).0, digest) ==
        if InWindow(r, next) then (true, r.(rxSeq := Some(next))) else (false, r)
  {
    var cfg, next := s.cfg, (s.xmitSeq + 1) % 0x1_0000_0000;
    var d := DigestLen(cfg.authType);
    var head, sec := Head(mand, 32 + d), KeyedHeader(cfg, next);
    var dg := digest(cfg.authType, Keyed(cfg, mand, next));
    var buf := Append(s, mand, digest).0;
    assert buf == head + sec + dg && |dg| == d;
    assert buf[..32] == head + sec && buf[32..] == dg;
    assert buf[3] == head[3] == 32 + d;
    assert buf[24] == sec[0] && buf[25] == sec[1] && buf[26] == sec[2];
    assert buf[28..32] == sec[4..8] == Be32(next);
    U32RoundTrip(buf, 28, next);
    assert Rekeyed(cfg, buf) == Keyed(cfg, mand, next);
    assert buf[32..buf[3]] == dg;
  }

  /** A Simple Password packet is accepted exactly when the password has at most 228 octets:
      beyond that the one-octet Length field cannot describe the section. */
  lemma AppendedPasswordVerifies(s: AuthVars, r: AuthVars, mand: Bytes, digest: Digest)
    requires |mand| == 24 && r.cfg == s.cfg && s.cfg.authType == SimplePassword
    ensures Verify(r, Append(s, mand, digest).0, digest) == (|s.cfg.secret| <= 228, r)
  {
    var secret := s.cfg.secret;
    var head := Head(mand, (27 + |secret|) % 0x100);
    var sec := [TypeCode(SimplePassword), (3 + |secret|) % 0x100, s.cfg.keyId];
    var buf := Append(s, mand, digest).0;
    assert buf == head + sec + secret;
    assert buf[3] == head[3] && buf[24] == sec[0] && buf[25] == sec[1] && buf[26] == sec[2];
    if |secret| <= 228 {
      assert buf[27..buf[3]] == secret;
    }
  }

  // ---- A stream ------------------------------------------------------------------------------------

  /** A receiver as a step function: accepted or not, and the state after. */
  type Verifier = (AuthVars, Bytes) -> (bool, AuthVars)

  function VerifierOf(digest: Digest): Verifier {
    (v, buf) => Verify(v, buf, digest)
  }

  /** The receiver after the first `n` arrivals. */
  function Receiver(f: Verifier, r: AuthVars, arrivals: seq<Bytes>, n: nat): AuthVars
    requires n <= |arrivals|
  {
    if n == 0 then r else f(Receiver(f, r, arrivals, n - 1), arrivals[n - 1]).1
  }

  predicate Accepted(f: Verifier, r: AuthVars, arrivals: seq<Bytes>, n: nat)
    requires n < |arrivals|
  {
    f(Receiver(f, r, arrivals, n), arrivals[n]).0
  }

  ghost predicate Mandatory(mands: seq<Bytes>) {
    forall i | 0 <= i < |mands| :: |mands[i]| == 24
  }

  /** The sender after building the first `n` packets of a stream. */
  function Sender(s: AuthVars, mands: seq<Bytes>, n: nat, digest: Digest): AuthVars
    requires n <= |mands| && Mandatory(mands)
  {
    if n == 0 then s else Append(Sender(s, mands, n - 1, digest), mands[n - 1], digest).1
  }

  /** The datagram carrying packet `n` of the stream. */
  function Datagram(s: AuthVars, mands: seq<Bytes>, n: nat, digest: Digest): Bytes
    requires n < |mands| && Mandatory(mands)
  {
    Append(Sender(s, mands, n, digest), mands[n], digest).0
  }

  /** The sequence number of packet `n` of a stream. */
  function SeqOf(s: AuthVars, n: nat): u32 {
    (s.xmitSeq + n + 1) % 0x1_0000_0000
  }

  lemma CircularSuccessor(x: nat)
    ensures (x % 0x1_0000_0000 + 1) % 0x1_0000_0000 == (x + 1) % 0x1_0000_0000
  {
    var q := x / 0x1_0000_0000;
    assert x == 0x1_0000_0000 * q + x % 0x1_0000_0000;
  }

  lemma {:induction false} SenderCounts(s: AuthVars, mands: seq<Bytes>, n: nat, digest: Digest)
    requires n <= |mands| && Mandatory(mands) && s.cfg.authType != SimplePassword
    ensures Sender(s, mands, n, digest) == s.(xmitSeq := (s.xmitSeq + n) % 0x1_0000_0000)
  {
    if n > 0 {
      SenderCounts(s, mands, n - 1, digest);
      CircularSuccessor(s.xmitSeq + (n - 1));
      AppendCounts(Sender(s, mands, n - 1, digest), mands[n - 1], digest);
      assert s.xmitSeq + (n - 1) + 1 == s.xmitSeq + n;
    }
  }

  lemma AppendCounts(v: AuthVars, mand: Bytes, digest: Digest)
    requires |mand| == 24 && v.cfg.authType != SimplePassword
    ensures Append(v, mand, digest).1 == v.(xmitSeq := (v.xmitSeq + 1) % 0x1_0000_0000)
  {
  }

  /** Counting forward by less than a full circle. */
  lemma CircularGap(x: nat, gap: nat)
    requires gap < 0x1_0000_0000
    ensures WrappingSub((x + gap) % 0x1_0000_0000, x % 0x1_0000_0000) == gap
  {
    var a, p := x % 0x1_0000_0000, x / 0x1_0000_0000;
    assert x == 0x1_0000_0000 * p + a;
    var b := if a + gap < 0x1_0000_0000 then a + gap else a + gap - 0x1_0000_0000;
    assert x + gap == 0x1_0000_0000 * (if a + gap < 0x1_0000_0000 then p else p + 1) + b;
    assert (x + gap) % 0x1_0000_0000 == b;
  }

  /** To a receiver configured like `r`, the datagram passes every check but the window, which
      it faces with sequence number `q`. */
  ghost predicate Carries(f: Verifier, r: AuthVars, d: Bytes, q: u32) {
    forall v: AuthVars {:trigger f(v, d)} | v.cfg == r.cfg ::
      f(v, d) == if InWindow(v, q) then (true, v.(rxSeq := Some(q))) else (false, v)
  }

  lemma StreamDatagramCarries(s: AuthVars, r: AuthVars, mands: seq<Bytes>, n: nat, digest: Digest)
    requires n < |mands| && Mandatory(mands) && FixedLength(digest) && r.cfg == s.cfg
    requires s.cfg.authType != SimplePassword
    ensures Carries(VerifierOf(digest), r, Datagram(s, mands, n, digest), SeqOf(s, n))
  {
    SenderCounts(s, mands, n, digest);
    CircularSuccessor(s.xmitSeq + n);
    var sender := Sender(s, mands, n, digest);
    forall v: AuthVars | v.cfg == r.cfg
      ensures Verify(v, Datagram(s, mands, n, digest), digest) ==
        if InWindow(v, SeqOf(s, n)) then (true, v.(rxSeq := Some(SeqOf(s, n)))) else (false, v)
    {
      AppendedKeyedVerifies(sender, v, mands[n], digest);
    }
  }

  /** A receiver that stands at packet `i` accepts packet `j`, less than 2^32 later, exactly
      when the gap is within the window; otherwise it does not move. */
  lemma NextInStream(f: Verifier, r: AuthVars, s: AuthVars, d: Bytes, i: nat, j: nat)
    requires i < j < i + 0x1_0000_0000 && Carries(f, r, d, SeqOf(s, j))
    ensures
      var v := r.(rxSeq := Some(SeqOf(s, i)));
      f(v, d) == if j - i <= 3 * r.detectMult then (true, r.(rxSeq := Some(SeqOf(s, j)))) else (false, v)
  {
    CircularGap(s.xmitSeq + i + 1, j - i);
    assert s.xmitSeq + i + 1 + (j - i) == s.xmitSeq + j + 1;
    var v := r.(rxSeq := Some(SeqOf(s, i)));
    assert f(v, d) == if InWindow(v, SeqOf(s, j)) then (true, v.(rxSeq := Some(SeqOf(s, j)))) else (false, v);
  }

  /** `picks` are the stream indices that get through, in order, never skipping `maxGap` or
      more in a row. */
  ghost predicate InOrder(picks: seq<nat>, length: nat, maxGap: nat) {
    && (forall k | 0 <= k < |picks| :: picks[k] < length)
    && (forall k | 0 < k < |picks| :: picks[k - 1] < picks[k] <= picks[k - 1] + maxGap)
  }

  lemma {:induction false} StreamIsAccepted(f: Verifier, s: AuthVars, r: AuthVars, length: nat,
                                            picks: seq<nat>, arrivals: seq<Bytes>, n: nat)
    requires r.rxSeq == None && n <= |arrivals| == |picks| && InOrder(picks, length, 3 * r.detectMult)
    requires forall k | 0 <= k < |picks| :: Carries(f, r, arrivals[k], SeqOf(s, picks[k]))
    ensures forall k | 0 <= k < n :: Accepted(f, r, arrivals, k)
    ensures n > 0 ==> Receiver(f, r, arrivals, n) == r.(rxSeq := Some(SeqOf(s, picks[n - 1])))
  {
    if n > 0 {
      StreamIsAccepted(f, s, r, length, picks, arrivals, n - 1);
      var d := arrivals[n - 1];
      assert Carries(f, r, d, SeqOf(s, picks[n - 1]));
      if n == 1 {
        assert f(r, d) == (true, r.(rxSeq := Some(SeqOf(s, picks[0]))));
      } else {
        NextInStream(f, r, s, d, picks[n - 2], picks[n - 1]);
      }
    }
  }

  /** A fresh receiver with the same key accepts every packet of an in-order stream however
      long, through every wrap of the sequence number, as long as fewer than 3 x Detect Mult
      consecutive packets are lost. */
  lemma InOrderStreamIsAccepted(s: AuthVars, r: AuthVars, mands: seq<Bytes>, picks: seq<nat>,
                                arrivals: seq<Bytes>, digest: Digest)
    requires Mandatory(mands) && FixedLength(digest)
    requires r.cfg == s.cfg && s.cfg.authType != SimplePassword && r.rxSeq == None
    requires InOrder(picks, |mands|, 3 * r.detectMult) && |arrivals| == |picks|
    requires forall k | 0 <= k < |picks| :: arrivals[k] == Datagram(s, mands, picks[k], digest)
    ensures forall k | 0 <= k < |arrivals| :: Accepted(VerifierOf(digest), r, arrivals, k)
  {
    forall k | 0 <= k < |picks| ensures Carries(VerifierOf(digest), r, arrivals[k], SeqOf(s, picks[k])) {
      StreamDatagramCarries(s, r, mands, picks[k], digest);
    }
    StreamIsAccepted(VerifierOf(digest), s, r, |mands|, picks, arrivals, |arrivals|);
  }

  /** The bound is exact: a receiver that has accepted packet `i` refuses packet `j` of the
      stream when 3 x Detect Mult or more packets before it were lost, until the sequence has
      gone full circle. */
  lemma LongerLossIsRefused(s: AuthVars, r: AuthVars, mands: seq<Bytes>, i: nat, j: nat, digest: Digest)
    requires Mandatory(mands) && FixedLength(digest) && r.cfg == s.cfg && s.cfg.authType != SimplePassword
    requires i < j < |mands| && j < i + 0x1_0000_0000
    ensures Verify(r.(rxSeq := Some(SeqOf(s, i))), Datagram(s, mands, j, digest), digest).0 <==>
            j - i - 1 < 3 * r.detectMult
  {
    StreamDatagramCarries(s, r, mands, j, digest);
    NextInStream(VerifierOf(digest), r, s, Datagram(s, mands, j, digest), i, j);
  }

  // ---- Replay --------------------------------------------------------------------------------------

  /** The forward distance from one accepted sequence number to the next. */
  function Move(was: Option<u32>, now: Option<u32>): nat {
    if was.Some? && now.Some? then WrappingSub(now.value, was.value) else 0
  }

  /** How far the accepted sequence has advanced in all during the first `n` arrivals. */
  function Advance(f: Verifier, r: AuthVars, arrivals: seq<Bytes>, n: nat): nat
    requires n <= |arrivals|
  {
    if n == 0 then 0 else
      Advance(f, r, arrivals, n - 1)
        + Move(Receiver(f, r, arrivals, n - 1).rxSeq, Receiver(f, r, arrivals, n).rxSeq)
  }

  /** The sequence number a datagram carries. */
  function SeqField(d: Bytes): u32 {
    if |d| >= 32 then U32At(d, 28) else 0
  }

  /** What a meticulous receiver does with any datagram: nothing, or step to the sequence
      number the datagram carries, at least one and at most the window ahead. */
  ghost predicate StepsForward(f: Verifier, seqOf: Bytes -> u32, r: AuthVars) {
    forall v: AuthVars, d: Bytes {:trigger f(v, d)} | v.cfg == r.cfg && v.detectMult == r.detectMult ::
      var (ok, next) := f(v, d);
      if !ok then next == v
      else next == v.(rxSeq := Some(seqOf(d))) && (v.rxSeq.Some? ==> 1 <= Move(v.rxSeq, next.rxSeq) <= 3 * r.detectMult)
  }

  lemma MeticulousStepsForward(r: AuthVars, digest: Digest)
    requires Meticulous(r.cfg.authType)
    ensures StepsForward(VerifierOf(digest), d => SeqField(d), r)
  {
  }

  lemma {:induction false} ReceiverKeepsKey(f: Verifier, seqOf: Bytes -> u32, r: AuthVars, arrivals: seq<Bytes>, n: nat)
    requires n <= |arrivals| && StepsForward(f, seqOf, r)
    ensures Receiver(f, r, arrivals, n).cfg == r.cfg && Receiver(f, r, arrivals, n).detectMult == r.detectMult
  {
    if n > 0 { ReceiverKeepsKey(f, seqOf, r, arrivals, n - 1); }
  }

  lemma {:induction false} AdvanceIsMonotone(f: Verifier, seqOf: Bytes -> u32, r: AuthVars, arrivals: seq<Bytes>, i: nat, j: nat)
    requires i <= j <= |arrivals| && StepsForward(f, seqOf, r) && Receiver(f, r, arrivals, i).rxSeq.Some?
    ensures Receiver(f, r, arrivals, j).rxSeq.Some?
    ensures Advance(f, r, arrivals, j) >= Advance(f, r, arrivals, i)
    decreases j
  {
    if i < j {
      AdvanceIsMonotone(f, seqOf, r, arrivals, i, j - 1);
      var _ := AdvanceStep(f, seqOf, r, arrivals, j);
    }
  }

  /** Between two moments the accepted sequence number moves by the advance, less `q` full
      circles. */
  lemma {:induction false} AdvanceTracksSequence(f: Verifier, seqOf: Bytes -> u32, r: AuthVars,
                                                 arrivals: seq<Bytes>, i: nat, j: nat)
    returns (q: int)
    requires i <= j <= |arrivals| && StepsForward(f, seqOf, r) && Receiver(f, r, arrivals, i).rxSeq.Some?
    ensures Receiver(f, r, arrivals, j).rxSeq.Some?
    ensures Receiver(f, r, arrivals, i).rxSeq.value + (Advance(f, r, arrivals, j) - Advance(f, r, arrivals, i))
         == 0x1_0000_0000 * q + Receiver(f, r, arrivals, j).rxSeq.value
    decreases j
  {
    q := 0;
    if i < j {
      q := AdvanceTracksSequence(f, seqOf, r, arrivals, i, j - 1);
      var t := AdvanceStep(f, seqOf, r, arrivals, j);
      q := q + t;
    }
  }

  /** One arrival: the advance grows by the forward distance, `t` circles apart at most. */
  lemma AdvanceStep(f: Verifier, seqOf: Bytes -> u32, r: AuthVars, arrivals: seq<Bytes>, j: nat) returns (t: int)
    requires 0 < j <= |arrivals| && StepsForward(f, seqOf, r) && Receiver(f, r, arrivals, j - 1).rxSeq.Some?
    ensures Receiver(f, r, arrivals, j).rxSeq.Some?
    ensures Advance(f, r, arrivals, j) >= Advance(f, r, arrivals, j - 1)
    ensures Receiver(f, r, arrivals, j - 1).rxSeq.value + (Advance(f, r, arrivals, j) - Advance(f, r, arrivals, j - 1))
         == 0x1_0000_0000 * t + Receiver(f, r, arrivals, j).rxSeq.value
  {
    ReceiverKeepsKey(f, seqOf, r, arrivals, j - 1);
    assert Receiver(f, r, arrivals, j) == f(Receiver(f, r, arrivals, j - 1), arrivals[j - 1]).1;
    var was, now := Receiver(f, r, arrivals, j - 1).rxSeq.value, Receiver(f, r, arrivals, j).rxSeq.value;
    t := MoveCircles(was, now);
  }

  lemma MoveCircles(was: u32, now: u32) returns (t: int)
    ensures was + Move(Some(was), Some(now)) == 0x1_0000_0000 * t + now
  {
    t := if now >= was then 0 else 1;
  }

  /** What accepting datagram `j` does to the receiver and to its advance. */
  lemma AcceptedStep(f: Verifier, seqOf: Bytes -> u32, r: AuthVars, arrivals: seq<Bytes>, j: nat)
    requires StepsForward(f, seqOf, r) && j < |arrivals| && Accepted(f, r, arrivals, j)
    ensures Receiver(f, r, arrivals, j + 1).rxSeq.Some?
    ensures Receiver(f, r, arrivals, j).rxSeq.Some? ==>
      Advance(f, r, arrivals, j) + 1 <= Advance(f, r, arrivals, j + 1) <= Advance(f, r, arrivals, j) + 3 * r.detectMult
  {
    ReceiverKeepsKey(f, seqOf, r, arrivals, j);
    assert Receiver(f, r, arrivals, j + 1) == f(Receiver(f, r, arrivals, j), arrivals[j]).1;
  }

  lemma SameDatagramSameSeq(f: Verifier, seqOf: Bytes -> u32, r: AuthVars, arrivals: seq<Bytes>, i: nat, j: nat)
    requires StepsForward(f, seqOf, r) && i < |arrivals| && j < |arrivals| && arrivals[i] == arrivals[j]
    requires Accepted(f, r, arrivals, i) && Accepted(f, r, arrivals, j)
    ensures Receiver(f, r, arrivals, i + 1).rxSeq == Receiver(f, r, arrivals, j + 1).rxSeq
  {
    ReceiverKeepsKey(f, seqOf, r, arrivals, i);
    ReceiverKeepsKey(f, seqOf, r, arrivals, j);
    assert Receiver(f, r, arrivals, i + 1) == f(Receiver(f, r, arrivals, i), arrivals[i]).1;
    assert Receiver(f, r, arrivals, j + 1) == f(Receiver(f, r, arrivals, j), arrivals[j]).1;
  }

  /** Between two acceptances of one datagram the advance is a whole number of circles. */
  lemma WholeCircles(f: Verifier, seqOf: Bytes -> u32, r: AuthVars, arrivals: seq<Bytes>, i: nat, j: nat)
    returns (q: int)
    requires StepsForward(f, seqOf, r) && i < j < |arrivals| && arrivals[i] == arrivals[j]
    requires Accepted(f, r, arrivals, i) && Accepted(f, r, arrivals, j)
    ensures Advance(f, r, arrivals, j + 1) - Advance(f, r, arrivals, i + 1) == 0x1_0000_0000 * q
  {
    AcceptedStep(f, seqOf, r, arrivals, i);
    SameDatagramSameSeq(f, seqOf, r, arrivals, i, j);
    q := AdvanceTracksSequence(f, seqOf, r, arrivals, i + 1, j + 1);
  }

  lemma FullCircle(f: Verifier, seqOf: Bytes -> u32, r: AuthVars, arrivals: seq<Bytes>, i: nat, j: nat)
    requires StepsForward(f, seqOf, r) && i < j < |arrivals| && arrivals[i] == arrivals[j]
    requires Accepted(f, r, arrivals, i) && Accepted(f, r, arrivals, j)
    requires Advance(f, r, arrivals, j + 1) > Advance(f, r, arrivals, i + 1)
    ensures Advance(f, r, arrivals, j + 1) - Advance(f, r, arrivals, i + 1) >= 0x1_0000_0000
  {
    var q := WholeCircles(f, seqOf, r, arrivals, i, j);
    PositiveMultiple(Advance(f, r, arrivals, j + 1) - Advance(f, r, arrivals, i + 1), q);
  }

  lemma PositiveMultiple(x: int, q: int)
    requires x > 0 && x == 0x1_0000_0000 * q
    ensures x >= 0x1_0000_0000
  {
  }

  lemma AdvancedAFullCircle(f: Verifier, seqOf: Bytes -> u32, r: AuthVars, arrivals: seq<Bytes>, i: nat, j: nat)
    requires StepsForward(f, seqOf, r) && i < j < |arrivals| && arrivals[i] == arrivals[j]
    requires Accepted(f, r, arrivals, i) && Accepted(f, r, arrivals, j)
    ensures Advance(f, r, arrivals, j + 1) - Advance(f, r, arrivals, i + 1) >= 0x1_0000_0000
  {
    AcceptedStep(f, seqOf, r, arrivals, i);
    AdvanceIsMonotone(f, seqOf, r, arrivals, i + 1, j);
    AcceptedStep(f, seqOf, r, arrivals, j);
    FullCircle(f, seqOf, r, arrivals, i, j);
  }

  lemma StepIsWithinWindow(f: Verifier, seqOf: Bytes -> u32, r: AuthVars, arrivals: seq<Bytes>, j: nat)
    requires StepsForward(f, seqOf, r) && j < |arrivals| && Accepted(f, r, arrivals, j)
    ensures Advance(f, r, arrivals, j + 1) <= Advance(f, r, arrivals, j) + 3 * r.detectMult
  {
    ReceiverKeepsKey(f, seqOf, r, arrivals, j);
    assert Receiver(f, r, arrivals, j + 1) == f(Receiver(f, r, arrivals, j), arrivals[j]).1;
  }

  lemma NoReplayBy(f: Verifier, seqOf: Bytes -> u32, r: AuthVars, arrivals: seq<Bytes>, i: nat, j: nat)
    requires StepsForward(f, seqOf, r) && i < j < |arrivals| && arrivals[i] == arrivals[j]
    requires Accepted(f, r, arrivals, i) && Accepted(f, r, arrivals, j)
    ensures Advance(f, r, arrivals, j) - Advance(f, r, arrivals, i + 1) >= 0x1_0000_0000 - 3 * r.detectMult
  {
    AdvancedAFullCircle(f, seqOf, r, arrivals, i, j);
    StepIsWithinWindow(f, seqOf, r, arrivals, j);
  }

  /** Whatever datagrams arrive, a meticulous receiver that has accepted one accepts it again
      only after its accepted sequence has advanced by at least 2^32 less the window. */
  lemma NoReplay(r: AuthVars, arrivals: seq<Bytes>, i: nat, j: nat, digest: Digest)
    requires Meticulous(r.cfg.authType) && i < j < |arrivals| && arrivals[i] == arrivals[j]
    requires Accepted(VerifierOf(digest), r, arrivals, i) && Accepted(VerifierOf(digest), r, arrivals, j)
    ensures Advance(VerifierOf(digest), r, arrivals, j) - Advance(VerifierOf(digest), r, arrivals, i + 1)
            >= 0x1_0000_0000 - 3 * r.detectMult
  {
    MeticulousStepsForward(r, digest);
    NoReplayBy(VerifierOf(digest), d => SeqField(d), r, arrivals, i, j);
  }

  /** The plain keyed types do accept an immediate repeat. */
  lemma KeyedAcceptsRepeats(r: AuthVars, buf: Bytes, digest: Digest)
    requires r.cfg.authType != SimplePassword && !Meticulous(r.cfg.authType) && Verify(r, buf, digest).0
    ensures Verify(Verify(r, buf, digest).1, buf, digest).0
  {
    var q := U32At(buf, 28);
    assert WrappingSub(q, q) == 0;
  }

  // ---- The state object ------------------------------------------------------------------------------

  class AuthState {
    const cfg: AuthConfig
    const detectMult: u8
    const digest: Digest
    var xmitSeq: u32
    var rxSeq: Option<u32>

    ghost function View(): AuthVars
      reads this
    {
      AuthVars(cfg, detectMult, xmitSeq, rxSeq)
    }

    constructor (config: AuthConfig, mult: u8, digestFor: Digest)
      ensures View() == NewAuth(config, mult) && digest == digestFor
    {
      cfg, detectMult, digest := config, if mult == 0 then 1 else mult, digestFor;
      xmitSeq, rxSeq := 1, None;
    }

    method AppendTo(mand: Bytes) returns (out: Bytes)
      requires |mand| == 24 && FixedLength(digest)
      modifies this`xmitSeq
      ensures (out, View()) == Append(old(View()), mand, digest)
    {
      out := mand;
      out := out[1 := WithAuthBit(out[1])];
      if cfg.authType == SimplePassword {
        var authLen := 3 + |cfg.secret|;
        out := out[3 := (24 + authLen) % 0x100];
        out := out + [TypeCode(SimplePassword), authLen % 0x100, cfg.keyId];
        out := out + cfg.secret;
      } else {
        var dlen := DigestLen(cfg.authType);
        out := out[3 := 24 + (8 + dlen)];
        xmitSeq := (xmitSeq + 1) % 0x1_0000_0000;
        out := out + ([TypeCode(cfg.authType), 8 + dlen, cfg.keyId, 0] + Be32(xmitSeq));
        var digestOff := |out|;
        out := out + Resized(cfg.secret, dlen);
        assert out == Keyed(cfg, mand, xmitSeq);
        var dg := digest(cfg.authType, out);
        out := out[..digestOff] + dg;
      }
    }

    method VerifyFrom(buf: Bytes) returns (ok: bool)
      modifies this`rxSeq
      ensures (ok, View()) == Verify(old(View()), buf, digest)
    {
      if |buf| < 25 {
        return false;
      }
      var total := buf[3];
      if total < 26 || total > |buf| {
        return false;
      }
      var sec := buf[24..total];
      if sec[1] != |sec| || sec[0] != TypeCode(cfg.authType) {
        return false;
      }
      if cfg.authType == SimplePassword {
        if |sec| != 3 + |cfg.secret| {
          return false;
        }
        assert sec[3..] == buf[27..total];
        ok := sec[2] == cfg.keyId && sec[3..] == cfg.secret;
      } else {
        var dlen := DigestLen(cfg.authType);
        if |sec| != 8 + dlen || sec[2] != cfg.keyId {
          return false;
        }
        assert buf[..total][32..] == buf[32..total] && buf[..total][..32] == buf[..32];
        var seq_ := U32At(buf, 28);
        var received := buf[..total][32..];
        if digest(cfg.authType, buf[..total][..32] + Resized(cfg.secret, dlen)) != received {
          return false;
        }
        ok := match rxSeq
          case None => true
          case Some(last) => WithinReplayWindow(last, seq_, detectMult, Meticulous(cfg.authType));
        if ok {
          rxSeq := Some(seq_);
        }
      }
    }
  }
}
