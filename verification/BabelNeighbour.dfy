/** The Babel neighbour table (`neighbor.rs`): the bit-shift Hello history, the 2-out-of-3
    receive cost, and the table's ageing. */
module BabelNeighbour {
  import opened Wrappers
  import opened Net
  import opened Orders
  import BabelTable

  const INFINITY: u16 := BabelTable.INFINITY
  const NOMINAL_RXCOST: u16 := 256

  datatype Neighbour = Neighbour(
    history: u16, expectedSeqno: u16, haveHello: bool, txcost: u16, lastHello: u64, lastIhu: u64)

  const FreshNeighbour := Neighbour(0, 0, false, INFINITY, 0, 0)

  // ---- Bits ----------------------------------------------------------------------------------

  predicate Bit(h: nat, i: nat) {
    if i == 0 then h % 2 == 1 else Bit(h / 2, i - 1)
  }

  /** `h << k` in 16 bits. */
  function Shl(h: u16, k: nat): u16 {
    if k == 0 then h else (2 * Shl(h, k - 1)) % 0x1_0000
  }

  function Pow2(n: nat): nat {
    if n == 0 then 1 else 2 * Pow2(n - 1)
  }

  lemma {:induction false} HighBitAside(h: nat, n: nat, i: nat)
    requires i < n
    ensures Bit(h + Pow2(n), i) <==> Bit(h, i)
  {
    if i > 0 {
      assert (h + 2 * Pow2(n - 1)) / 2 == h / 2 + Pow2(n - 1);
      HighBitAside(h / 2, n - 1, i - 1);
    }
  }

  lemma ShiftOne(h: u16, i: nat)
    requires i < 16
    ensures Bit((2 * h) % 0x1_0000, i) <==> i > 0 && Bit(h, i - 1)
  {
    var low := if h < 0x8000 then h else h - 0x8000;
    assert (2 * h) % 0x1_0000 == 2 * low;
    if i > 0 {
      assert (2 * low) / 2 == low;
      if h >= 0x8000 {
        assert Pow2(15) == 0x8000 by { assert Pow2(5) == 32; assert Pow2(10) == 1024; }
        HighBitAside(low, 15, i - 1);
      }
    }
  }

  lemma {:induction false} ShlBits(h: u16, k: nat, i: nat)
    requires i < 16
    ensures Bit(Shl(h, k), i) <==> i >= k && Bit(h, i - k)
  {
    if k > 0 {
      ShiftOne(Shl(h, k - 1), i);
      if i > 0 { ShlBits(h, k - 1, i - 1); }
    }
  }

  // ---- The Hello history -------------------------------------------------------------------------

  /** How far `seqno` is ahead of the one expected, in the circular space. */
  function Gap(seqno: u16, expected: u16): u16 {
    (seqno - expected) % 0x1_0000
  }

  /** `on_hello`: shift missed Hellos in as zeros, or resynchronise on a step backwards. */
  function HelloStep(n: Neighbour, seqno: u16, now: u64): Neighbour {
    var gap := Gap(seqno, n.expectedSeqno);
    var history: u16 :=
      if !n.haveHello || gap >= 0x8000 || gap + 1 >= 16 then 1
      else ShiftIn(n.history, gap + 1);
    n.(history := history, haveHello := true, expectedSeqno := (seqno + 1) % 0x1_0000, lastHello := now)
  }

  /** `(h << k) | 1` for a positive shift. */
  function ShiftIn(h: u16, k: nat): u16
    requires k > 0
  {
    ShlIsEven(h, k);
    Shl(h, k) + 1
  }

  lemma ShlIsEven(h: u16, k: nat)
    requires k > 0
    ensures Shl(h, k) % 2 == 0 && Shl(h, k) < 0xFFFF
  {
    assert (2 * Shl(h, k - 1)) % 0x1_0000 % 2 == 0;
  }

  function IhuStep(n: Neighbour, txcost: u16, now: u64): Neighbour {
    n.(txcost := txcost, lastIhu := now)
  }

  function Ones3(h: u16): nat {
    (if Bit(h, 0) then 1 else 0) + (if Bit(h, 1) then 1 else 0) + (if Bit(h, 2) then 1 else 0)
  }

  function RxcostOf(n: Neighbour): u16 {
    if n.haveHello && Ones3(n.history) >= 2 then NOMINAL_RXCOST else INFINITY
  }

  function CostOf(n: Neighbour): u16 {
    if RxcostOf(n) == INFINITY || n.txcost == INFINITY then INFINITY else n.txcost
  }

  // ---- What was heard ------------------------------------------------------------------------------

  /** The Hellos heard since the last resynchronisation, numbered without wrap-around. */
  datatype HelloLog = HelloLog(newest: int, heard: set<int>)

  function Hear(log: Option<HelloLog>, seqno: u16): HelloLog {
    if log.None? then HelloLog(seqno, {seqno as int}) else
      var l := log.value;
      var gap := Gap(seqno, (l.newest + 1) % 0x1_0000);
      if gap >= 0x8000 then HelloLog(seqno, {seqno as int})
      else HelloLog(l.newest + 1 + gap, l.heard + {l.newest + 1 + gap})
  }

  function LogOf(hellos: seq<u16>): Option<HelloLog> {
    if hellos == [] then None else Some(Hear(LogOf(hellos[..|hellos| - 1]), hellos[|hellos| - 1]))
  }

  /** Bit `i` of the history is set exactly when the Hello `i` places before the newest was
      heard since the last resynchronisation. */
  ghost predicate Windowed(n: Neighbour, log: Option<HelloLog>) {
    && n.haveHello == log.Some?
    && (log.Some? ==>
         && n.expectedSeqno == (log.value.newest + 1) % 0x1_0000
         && log.value.newest in log.value.heard
         && (forall h | h in log.value.heard :: h <= log.value.newest)
         && (forall i: nat | i < 16 :: Bit(n.history, i) <==> log.value.newest - i in log.value.heard))
  }

  lemma OneBit(i: nat)
    ensures Bit(1, i) <==> i == 0
  {
    if i > 0 { ZeroBits(i - 1); }
  }

  lemma {:induction false} ZeroBits(i: nat)
    ensures !Bit(0, i)
  {
    if i > 0 { ZeroBits(i - 1); }
  }

  lemma ShiftInBits(h: u16, k: nat, i: nat)
    requires 0 < k && i < 16
    ensures Bit(ShiftIn(h, k), i) <==> i == 0 || (i >= k && Bit(h, i - k))
  {
    ShlIsEven(h, k);
    ShlBits(h, k, i);
    if i > 0 { assert (Shl(h, k) + 1) / 2 == Shl(h, k) / 2; }
  }

  lemma ForwardHelloKeepsWindow(n: Neighbour, l: HelloLog, seqno: u16, now: u64)
    requires Windowed(n, Some(l)) && Gap(seqno, n.expectedSeqno) < 0x8000
    ensures
      var next, after := HelloStep(n, seqno, now), Hear(Some(l), seqno);
      forall i: nat | i < 16 :: Bit(next.history, i) <==> after.newest - i in after.heard
  {
    var next, after := HelloStep(n, seqno, now), Hear(Some(l), seqno);
    var gap := Gap(seqno, n.expectedSeqno);
    assert after.newest == l.newest + 1 + gap;
    forall i: nat | i < 16 ensures Bit(next.history, i) <==> after.newest - i in after.heard {
      if gap + 1 >= 16 {
        OneBit(i);
      } else {
        ShiftInBits(n.history, gap + 1, i);
        if i >= gap + 1 { assert after.newest - i == l.newest - (i - (gap + 1)); }
      }
    }
  }

  lemma RestartedWindow(n: Neighbour, seqno: u16)
    requires n.history == 1 && n.haveHello && n.expectedSeqno == (seqno + 1) % 0x1_0000
    ensures Windowed(n, Some(HelloLog(seqno, {seqno as int})))
  {
    forall i: nat | i < 16 ensures Bit(n.history, i) <==> seqno - i in {seqno as int} { OneBit(i); }
  }

  /** Moving forward by the gap lands on the received sequence number. */
  lemma GapLandsOnSeqno(newest: int, seqno: u16)
    ensures
      var next := newest + 1 + Gap(seqno, (newest + 1) % 0x1_0000);
      next % 0x1_0000 == seqno && (next + 1) % 0x1_0000 == (seqno + 1) % 0x1_0000
  {
    var r, q := (newest + 1) % 0x1_0000, (newest + 1) / 0x1_0000;
    var next := newest + 1 + Gap(seqno, r);
    assert next == (if seqno >= r then q else q + 1) * 0x1_0000 + seqno;
  }

  lemma HelloKeepsWindow(n: Neighbour, log: Option<HelloLog>, seqno: u16, now: u64)
    requires Windowed(n, log)
    ensures Windowed(HelloStep(n, seqno, now), Some(Hear(log, seqno)))
    ensures Hear(log, seqno).newest % 0x1_0000 == seqno
  {
    if log.Some? && Gap(seqno, n.expectedSeqno) < 0x8000 {
      GapLandsOnSeqno(log.value.newest, seqno);
      ForwardHelloKeepsWindow(n, log.value, seqno, now);
      var after := Hear(log, seqno);
      assert forall h | h in after.heard :: h <= after.newest;
    } else {
      RestartedWindow(HelloStep(n, seqno, now), seqno);
    }
  }

  /** At least two of the last three expected Hellos arrived: the newest always did. */
  predicate TwoOfThree(log: Option<HelloLog>) {
    log.Some? && (log.value.newest - 1 in log.value.heard || log.value.newest - 2 in log.value.heard)
  }

  /** The receive cost is finite exactly when two of the last three Hellos arrived, and the
      link cost is then the reported txcost. */
  lemma RxcostMeaning(n: Neighbour, log: Option<HelloLog>)
    requires Windowed(n, log)
    ensures RxcostOf(n) == if TwoOfThree(log) then NOMINAL_RXCOST else INFINITY
    ensures CostOf(n) == if TwoOfThree(log) then n.txcost else INFINITY
  {
    if log.Some? {
      var l := log.value;
      assert Bit(n.history, 0) <==> l.newest - 0 in l.heard;
      assert Bit(n.history, 1) <==> l.newest - 1 in l.heard;
      assert Bit(n.history, 2) <==> l.newest - 2 in l.heard;
    }
  }

  // ---- The table -----------------------------------------------------------------------------------

  type Table = map<IpAddr, Neighbour>

  datatype Op =
    | Hello(addr: IpAddr, seqno: u16, now: u64)
    | Ihu(addr: IpAddr, rxcost: u16, now: u64)
    | Expire(now: u64, helloTimeout: u64, ihuTimeout: u64)
    | Forget(addr: IpAddr)

  /** `now.saturating_sub(then) > timeout`. */
  predicate Older(now: u64, then_: u64, timeout: u64) {
    now - then_ > timeout
  }

  function Entry(t: Table, a: IpAddr): Neighbour {
    if a in t then t[a] else FreshNeighbour
  }

  function Aged(n: Neighbour, now: u64, ihuTimeout: u64): Neighbour {
    if Older(now, n.lastIhu, ihuTimeout) then n.(txcost := INFINITY) else n
  }

  function Step(t: Table, op: Op): Table {
    match op
    case Hello(a, seqno, now) => t[a := HelloStep(Entry(t, a), seqno, now)]
    case Ihu(a, rxcost, now) => t[a := IhuStep(Entry(t, a), rxcost, now)]
    case Expire(now, helloTimeout, ihuTimeout) =>
      map a | a in t && !Older(now, t[a].lastHello, helloTimeout) :: Aged(t[a], now, ihuTimeout)
    case Forget(a) => t - {a}
  }

  function Run(ops: seq<Op>): Table {
    if ops == [] then map[] else Step(Run(ops[..|ops| - 1]), ops[|ops| - 1])
  }

  /** The Hellos received from `a` since it was last entered in the table. */
  function HellosSince(ops: seq<Op>, a: IpAddr): seq<u16> {
    if ops == [] then [] else
      var front, op := ops[..|ops| - 1], ops[|ops| - 1];
      if a !in Run(ops) then []
      else if op.Hello? && op.addr == a then HellosSince(front, a) + [op.seqno]
      else HellosSince(front, a)
  }

  /** Over every run of Hellos, IHUs, expiries and removals, each neighbour's history is the
      window over the Hellos heard from it since it was entered. */
  lemma {:induction false} TableKeepsWindows(ops: seq<Op>, a: IpAddr)
    ensures a in Run(ops) ==> Windowed(Run(ops)[a], LogOf(HellosSince(ops, a)))
    ensures a !in Run(ops) ==> HellosSince(ops, a) == []
  {
    if ops != [] {
      var front, op := ops[..|ops| - 1], ops[|ops| - 1];
      TableKeepsWindows(front, a);
      var was := Run(front);
      if op.Hello? && op.addr == a {
        var hellos := HellosSince(front, a);
        assert Windowed(Entry(was, a), LogOf(hellos));
        HelloKeepsWindow(Entry(was, a), LogOf(hellos), op.seqno, op.now);
        assert (hellos + [op.seqno])[..|hellos|] == hellos;
      } else if op.Ihu? && op.addr == a {
        assert Windowed(Entry(was, a), LogOf(HellosSince(front, a)));
      }
    }
  }

  function RxcostAt(t: Table, a: IpAddr): u16 {
    if a in t then RxcostOf(t[a]) else INFINITY
  }

  /** The receive cost the table reports for any address, in terms of what was heard. */
  lemma TableRxcostMeaning(ops: seq<Op>, a: IpAddr)
    ensures RxcostAt(Run(ops), a) == if TwoOfThree(LogOf(HellosSince(ops, a))) then NOMINAL_RXCOST else INFINITY
  {
    TableKeepsWindows(ops, a);
    if a in Run(ops) { RxcostMeaning(Run(ops)[a], LogOf(HellosSince(ops, a))); }
  }

  // ---- The table as an object --------------------------------------------------------------------

  /** The table keeps its entries by value, so updating one in place replaces a map value. */
  class NeighbourTable {
    var neighbours: Table

    constructor ()
      ensures neighbours == map[]
    {
      neighbours := map[];
    }

    method OnHello(addr: IpAddr, seqno: u16, now: u64)
      modifies this
      ensures neighbours == Step(old(neighbours), Hello(addr, seqno, now))
    {
      var n := if addr in neighbours then neighbours[addr] else FreshNeighbour;
      if !n.haveHello {
        n := n.(history := 1, haveHello := true);
      } else {
        var gap := (seqno - n.expectedSeqno) % 0x1_0000;
        if gap < 0x8000 {
          var shift := gap + 1;
          n := n.(history := if shift >= 16 then 1 else ShiftIn(n.history, shift));
        } else {
          n := n.(history := 1);
        }
      }
      n := n.(expectedSeqno := (seqno + 1) % 0x1_0000, lastHello := now);
      neighbours := neighbours[addr := n];
    }

    method OnIhu(addr: IpAddr, rxcost: u16, now: u64)
      modifies this
      ensures neighbours == Step(old(neighbours), Ihu(addr, rxcost, now))
    {
      var n := if addr in neighbours then neighbours[addr] else FreshNeighbour;
      neighbours := neighbours[addr := n.(txcost := rxcost, lastIhu := now)];
    }

    method ForgetNeighbour(addr: IpAddr)
      modifies this
      ensures neighbours == Step(old(neighbours), Forget(addr))
    {
      neighbours := neighbours - {addr};
    }

    /** The first loop of `expire`: the links whose IHU is stale go infinite. */
    method ClearStaleTxcosts(addrs: seq<IpAddr>, now: u64, ihuTimeout: u64)
      requires forall a :: a in addrs <==> a in neighbours
      requires forall i, j | 0 <= i < j < |addrs| :: addrs[i] != addrs[j]
      modifies this
      ensures neighbours == map a | a in old(neighbours) :: Aged(old(neighbours)[a], now, ihuTimeout)
    {
      ghost var t := neighbours;
      for i := 0 to |addrs|
        invariant neighbours.Keys == t.Keys
        invariant forall a | a in t :: neighbours[a] == if a in addrs[..i] then Aged(t[a], now, ihuTimeout) else t[a]
      {
        var a := addrs[i];
        assert addrs[..i + 1] == addrs[..i] + [a] && a !in addrs[..i];
        if Older(now, neighbours[a].lastIhu, ihuTimeout) {
          neighbours := neighbours[a := neighbours[a].(txcost := INFINITY)];
        }
      }
      assert addrs[..|addrs|] == addrs;
    }

    /** The filter of `expire`: the neighbours no longer heard. */
    method StaleNeighbours(addrs: seq<IpAddr>, now: u64, helloTimeout: u64) returns (dead: seq<IpAddr>)
      requires forall a | a in addrs :: a in neighbours
      ensures forall a :: a in dead <==> a in addrs && Older(now, neighbours[a].lastHello, helloTimeout)
    {
      dead := [];
      for i := 0 to |addrs|
        invariant forall a :: a in dead <==> a in addrs[..i] && Older(now, neighbours[a].lastHello, helloTimeout)
      {
        assert addrs[..i + 1] == addrs[..i] + [addrs[i]];
        if Older(now, neighbours[addrs[i]].lastHello, helloTimeout) {
          dead := dead + [addrs[i]];
        }
      }
      assert addrs[..|addrs|] == addrs;
    }

    /** `expire`: first clear stale txcosts, then drop the neighbours no longer heard. */
    method ExpireAt(now: u64, helloTimeout: u64, ihuTimeout: u64) returns (dead: seq<IpAddr>)
      modifies this
      ensures neighbours == Step(old(neighbours), Expire(now, helloTimeout, ihuTimeout))
      ensures forall a :: a in dead <==> a in old(neighbours) && a !in neighbours
    {
      var addrs := Addresses(neighbours);
      ClearStaleTxcosts(addrs, now, ihuTimeout);
      dead := StaleNeighbours(addrs, now, helloTimeout);
      StaleDropped(old(neighbours), neighbours, dead, now, helloTimeout, ihuTimeout);
      neighbours := neighbours - set a | a in dead;
    }
  }

  function Addresses(t: Table): (r: seq<IpAddr>)
    ensures forall a :: a in r <==> a in t
    ensures forall i, j | 0 <= i < j < |r| :: r[i] != r[j]
  {
    AddrRankInjective();
    Ascending(t.Keys, AddrRank)
  }

  lemma StaleDropped(t: Table, aged: Table, dead: seq<IpAddr>, now: u64, helloTimeout: u64, ihuTimeout: u64)
    requires aged == map a | a in t :: Aged(t[a], now, ihuTimeout)
    requires forall a :: a in dead <==> a in t && Older(now, aged[a].lastHello, helloTimeout)
    ensures aged - (set a | a in dead) == Step(t, Expire(now, helloTimeout, ihuTimeout))
    ensures forall a :: a in dead <==> a in t && a !in aged - (set a | a in dead)
  {
  }
}
