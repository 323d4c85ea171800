/** The BFD session state machine (`session.rs`), two sessions over a network that may lose,
    duplicate, delay and reorder datagrams, and their convergence. */
module BfdSession {
  import opened Wrappers
  import opened Net
  import opened BfdPacket

  const SLOW_TX_FLOOR_US: u32 := 1_000_000

  datatype SessionConfig = SessionConfig(desiredMinTxUs: u32, requiredMinRxUs: u32, detectMult: u8)

  datatype Transition = Transition(from: State, to: State)

  /** The state variables of a session. */
  datatype Vars = Vars(
    localDiscr: u32, cfg: SessionConfig, state: State, localDiag: Diag,
    remoteDiscr: u32, remoteState: State, remoteMinRxUs: u32, remoteDesiredTxUs: u32, remoteDetectMult: u8,
    sendFinal: bool)

  function NewVars(localDiscr: u32, cfg: SessionConfig): Vars {
    Vars(localDiscr, cfg, Down, NoDiagnostic, 0, Down, 1, 1, 1, false)
  }

  // ---- Transitions ---------------------------------------------------------------------------

  /** What every accepted packet teaches, whatever the state. */
  function Learned(s: Vars, p: ControlPacket): Vars {
    s.(remoteDiscr := p.myDiscr, remoteState := p.state, remoteMinRxUs := p.requiredMinRx,
       remoteDesiredTxUs := p.desiredMinTx, remoteDetectMult := p.detectMult,
       sendFinal := s.sendFinal || p.poll)
  }

  /** The reception state machine of section 6.8.6 of RFC 5880: the next state, if any. */
  function NextState(local: State, received: State): Option<State> {
    if local == AdminDown then None
    else if received == AdminDown then if local != Down then Some(Down) else None
    else match (local, received)
      case (Down, Down) => Some(Init)
      case (Down, Init) => Some(Up)
      case (Init, Init) => Some(Up)
      case (Init, Up) => Some(Up)
      case (Up, Down) => Some(Down)
      case _ => None
  }

  function OnPacket(s: Vars, p: ControlPacket): (Vars, Option<Transition>) {
    var l := Learned(s, p);
    match NextState(s.state, p.state)
    case None => (l, None)
    case Some(Up) => (l.(state := Up, localDiag := NoDiagnostic), Some(Transition(s.state, Up)))
    case Some(Down) =>
      (l.(state := Down, localDiag := NeighborSignaledDown, remoteDiscr := 0), Some(Transition(s.state, Down)))
    case Some(to) => (l.(state := to), Some(Transition(s.state, to)))
  }

  /** Detection or Echo timeout: an Up or Init session falls, with its diagnostic. */
  function OnTimeout(s: Vars, diag: Diag): (Vars, Option<Transition>) {
    if s.state == Up || s.state == Init then
      (s.(localDiag := diag, state := Down, remoteState := Down, remoteDiscr := 0), Some(Transition(s.state, Down)))
    else (s, None)
  }

  function EffectiveDesiredTx(s: Vars): u32 {
    if s.state == Up || s.cfg.desiredMinTxUs > SLOW_TX_FLOOR_US then s.cfg.desiredMinTxUs else SLOW_TX_FLOOR_US
  }

  function Control(s: Vars): ControlPacket {
    ControlPacket(s.localDiag, s.state, false, s.sendFinal, false, false, s.cfg.detectMult,
                  s.localDiscr, s.remoteDiscr, EffectiveDesiredTx(s), s.cfg.requiredMinRxUs, 0, false)
  }

  function Sent(s: Vars): Vars { s.(sendFinal := false) }

  function Max(a: nat, b: nat): nat { if a > b then a else b }

  function TransmitIntervalUs(s: Vars): nat {
    Max(EffectiveDesiredTx(s), s.remoteMinRxUs) * (75 + s.localDiscr % 16) / 100
  }

  function DetectionTimeUs(s: Vars): nat {
    s.remoteDetectMult * Max(s.cfg.requiredMinRxUs, s.remoteDesiredTxUs)
  }

  // ---- The session object --------------------------------------------------------------------

  class Session {
    const localDiscr: u32
    const cfg: SessionConfig
    var state: State
    var localDiag: Diag
    var remoteDiscr: u32
    var remoteState: State
    var remoteMinRxUs: u32
    var remoteDesiredTxUs: u32
    var remoteDetectMult: u8
    var sendFinal: bool

    ghost function View(): Vars
      reads this
    {
      Vars(localDiscr, cfg, state, localDiag, remoteDiscr, remoteState, remoteMinRxUs, remoteDesiredTxUs,
           remoteDetectMult, sendFinal)
    }

    constructor (discr: u32, config: SessionConfig)
      ensures View() == NewVars(discr, config)
    {
      localDiscr, cfg, state, localDiag := discr, config, Down, NoDiagnostic;
      remoteDiscr, remoteState, remoteMinRxUs, remoteDesiredTxUs, remoteDetectMult := 0, Down, 1, 1, 1;
      sendFinal := false;
    }

    method Receive(pkt: ControlPacket) returns (t: Option<Transition>)
      modifies this
      ensures (View(), t) == OnPacket(old(View()), pkt)
    {
      remoteDiscr := pkt.myDiscr;
      remoteState := pkt.state;
      remoteMinRxUs := pkt.requiredMinRx;
      remoteDesiredTxUs := pkt.desiredMinTx;
      remoteDetectMult := pkt.detectMult;
      if pkt.poll {
        sendFinal := true;
      }
      if state == AdminDown {
        return None;
      }
      var next: Option<State> := None;
      if pkt.state == AdminDown {
        if state != Down {
          localDiag := NeighborSignaledDown;
          next := Some(Down);
        }
      } else {
        match (state, pkt.state)
        case (Down, Down) => next := Some(Init);
        case (Down, Init) => next := Some(Up);
        case (Init, Init) => next := Some(Up);
        case (Init, Up) => next := Some(Up);
        case (Up, Down) =>
          localDiag := NeighborSignaledDown;
          next := Some(Down);
        case _ =>
      }
      match next
      case None => t := None;
      case Some(to) =>
        var from := state;
        if to == Up {
          localDiag := NoDiagnostic;
        }
        if to == Down {
          remoteDiscr := 0;
        }
        state := to;
        t := Some(Transition(from, to));
    }

    /** `on_detect_timeout` and `on_echo_timeout`, which differ in the diagnostic only. */
    method Timeout(diag: Diag) returns (t: Option<Transition>)
      modifies this
      ensures (View(), t) == OnTimeout(old(View()), diag)
    {
      if state == Up || state == Init {
        var from := state;
        localDiag := diag;
        state := Down;
        remoteState := Down;
        remoteDiscr := 0;
        t := Some(Transition(from, Down));
      } else {
        t := None;
      }
    }

    method BuildControl() returns (p: ControlPacket)
      modifies this`sendFinal
      ensures p == Control(old(View())) && View() == Sent(old(View()))
    {
      var final := sendFinal;
      sendFinal := false;
      var tx := if state == Up || cfg.desiredMinTxUs > SLOW_TX_FLOOR_US then cfg.desiredMinTxUs else SLOW_TX_FLOOR_US;
      p := ControlPacket(localDiag, state, false, final, false, false, cfg.detectMult, localDiscr, remoteDiscr,
                         tx, cfg.requiredMinRxUs, 0, false);
    }
  }

  // ---- Two sessions over a network --------------------------------------------------------------

  /** A session, every datagram it ever sent, and whether it ever received one. */
  datatype Node = Node(vars: Vars, sent: set<Bytes>, heard: bool)

  /** The pair; what either ever sent may be delivered to the other at any later time, any
      number of times, or never. */
  datatype Pair = Pair(a: Node, b: Node) {
    function Flip(): Pair { Pair(b, a) }
  }

  datatype Event =
    | Transmit(atA: bool)
    | Deliver(atA: bool, datagram: Bytes)
    | DetectTimeout(atA: bool)
    | EchoTimeout(atA: bool)

  /** One event at the first node. */
  function StepA(p: Pair, e: Event): Pair {
    match e
    case Transmit(_) => p.(a := Node(Sent(p.a.vars), p.a.sent + {Wire(Control(p.a.vars))}, p.a.heard))
    case Deliver(_, d) =>
      (match Decode(d)
       case None => p
       case Some(pkt) => p.(a := Node(OnPacket(p.a.vars, pkt).0, p.a.sent, true)))
    case DetectTimeout(_) => p.(a := p.a.(vars := OnTimeout(p.a.vars, ControlDetectionTimeExpired).0))
    case EchoTimeout(_) => p.(a := p.a.(vars := OnTimeout(p.a.vars, EchoFunctionFailed).0))
  }

  function Step(p: Pair, e: Event): Pair {
    if e.atA then StepA(p, e) else StepA(p.Flip(), e).Flip()
  }

  /** A datagram can be delivered when the peer sent it some time before. */
  predicate Enabled(p: Pair, e: Event) {
    e.Deliver? ==> e.datagram in if e.atA then p.b.sent else p.a.sent
  }

  predicate ValidConfig(discr: u32, cfg: SessionConfig) {
    discr != 0 && cfg.detectMult != 0
  }

  function Start(da: u32, ca: SessionConfig, db: u32, cb: SessionConfig): Pair {
    Pair(Node(NewVars(da, ca), {}, false), Node(NewVars(db, cb), {}, false))
  }

  predicate Active(s: State) { s == Init || s == Up }

  /** What a session's variables keep, given who has heard whom. */
  predicate VarsInv(v: Vars, heard: bool, peerDiscr: u32, peerHeard: bool) {
    && ValidConfig(v.localDiscr, v.cfg)
    && v.state != AdminDown
    && DiagFromCode(DiagCode(v.localDiag)) == v.localDiag
    && (Active(v.state) ==> heard && v.remoteDiscr == peerDiscr)
    && (v.state == Up ==> peerHeard)
  }

  /** What one side keeps, given the other. */
  ghost predicate NodeInv(n: Node, peer: Node) {
    && VarsInv(n.vars, n.heard, peer.vars.localDiscr, peer.heard)
    && (forall d | d in n.sent :: DatagramInv(n.vars.localDiscr, n.heard, d))
  }

  /** Everything in flight decodes, comes from this session, and was Init or Up only when its
      sender had heard the other side. */
  ghost predicate DatagramInv(discr: u32, heard: bool, d: Bytes) {
    && Decode(d).Some?
    && Decode(d).value.myDiscr == discr
    && Decode(d).value.state != AdminDown
    && (Active(Decode(d).value.state) ==> heard)
  }

  ghost predicate PairInv(p: Pair) {
    NodeInv(p.a, p.b) && NodeInv(p.b, p.a)
  }

  /** Every packet a session in such a state builds survives its own codec. */
  lemma BuiltPacketsAreSelfCompatible(n: Node, peer: Node)
    requires NodeInv(n, peer) && peer.vars.localDiscr != 0
    ensures SelfCompatible(Control(n.vars)) && Decode(Wire(Control(n.vars))) == Some(Control(n.vars))
  {
    RoundTrip(Control(n.vars));
  }

  lemma PacketKeepsVarsInv(v: Vars, heard: bool, peerDiscr: u32, peerHeard: bool, pkt: ControlPacket)
    requires VarsInv(v, heard, peerDiscr, peerHeard)
    requires pkt.myDiscr == peerDiscr && pkt.state != AdminDown && (Active(pkt.state) ==> peerHeard)
    ensures VarsInv(OnPacket(v, pkt).0, true, peerDiscr, peerHeard)
    ensures OnPacket(v, pkt).0.localDiscr == v.localDiscr
  {
  }

  lemma TimeoutKeepsVarsInv(v: Vars, heard: bool, peerDiscr: u32, peerHeard: bool, diag: Diag)
    requires VarsInv(v, heard, peerDiscr, peerHeard) && DiagFromCode(DiagCode(diag)) == diag
    ensures VarsInv(OnTimeout(v, diag).0, heard, peerDiscr, peerHeard)
    ensures OnTimeout(v, diag).0.localDiscr == v.localDiscr
  {
  }

  lemma DeliverKeepsInv(p: Pair, d: Bytes)
    requires PairInv(p) && d in p.b.sent
    ensures PairInv(StepA(p, Deliver(true, d)))
  {
    assert DatagramInv(p.b.vars.localDiscr, p.b.heard, d);
    PacketKeepsVarsInv(p.a.vars, p.a.heard, p.b.vars.localDiscr, p.b.heard, Decode(d).value);
    var n := StepA(p, Deliver(true, d)).a;
    forall x | x in n.sent ensures DatagramInv(n.vars.localDiscr, n.heard, x) {
      assert DatagramInv(p.a.vars.localDiscr, p.a.heard, x);
    }
  }

  lemma StepAKeepsInv(p: Pair, e: Event)
    requires PairInv(p) && (e.Deliver? ==> e.datagram in p.b.sent)
    ensures PairInv(StepA(p, e))
  {
    match e
    case Transmit(_) => BuiltPacketsAreSelfCompatible(p.a, p.b);
    case Deliver(_, d) => DeliverKeepsInv(p, d);
    case DetectTimeout(_) =>
      TimeoutKeepsVarsInv(p.a.vars, p.a.heard, p.b.vars.localDiscr, p.b.heard, ControlDetectionTimeExpired);
    case EchoTimeout(_) =>
      TimeoutKeepsVarsInv(p.a.vars, p.a.heard, p.b.vars.localDiscr, p.b.heard, EchoFunctionFailed);
  }

  lemma StepKeepsInv(p: Pair, e: Event)
    requires PairInv(p) && Enabled(p, e)
    ensures PairInv(Step(p, e))
  {
    if e.atA { StepAKeepsInv(p, e); } else { StepAKeepsInv(p.Flip(), e); }
  }

  /** `run` is a possible history from `start` and ends in `end`. */
  ghost predicate Reaches(start: Pair, run: seq<Event>, end: Pair)
    decreases run
  {
    if run == [] then end == start
    else Enabled(start, run[0]) && Reaches(Step(start, run[0]), run[1..], end)
  }

  lemma {:induction false} RunKeepsInv(start: Pair, run: seq<Event>, end: Pair)
    requires PairInv(start) && Reaches(start, run, end)
    ensures PairInv(end)
    decreases run
  {
    if run != [] {
      StepKeepsInv(start, run[0]);
      RunKeepsInv(Step(start, run[0]), run[1..], end);
    }
  }

  /** Two-way knowledge. However the network loses, duplicates, delays and reorders, and
      whenever timeouts strike: a session is Up only if its peer has received something from
      it, and Init or Up only if it has itself; whatever Init or Up packet is in flight was
      sent by a side that had heard the other; and the discriminator an Init or Up session
      holds is its peer's. */
  lemma TwoWayKnowledge(da: u32, ca: SessionConfig, db: u32, cb: SessionConfig, run: seq<Event>, end: Pair)
    requires ValidConfig(da, ca) && ValidConfig(db, cb)
    requires Reaches(Start(da, ca, db, cb), run, end)
    ensures PairInv(end)
    ensures end.a.vars.state == Up ==> end.a.heard && end.b.heard
    ensures end.b.vars.state == Up ==> end.a.heard && end.b.heard
    ensures Active(end.a.vars.state) ==> end.a.vars.remoteDiscr == end.b.vars.localDiscr
    ensures forall d | d in end.a.sent && Active(Decode(d).value.state) :: end.a.heard
  {
    RunKeepsInv(Start(da, ca, db, cb), run, end);
    forall d | d in end.a.sent && Active(Decode(d).value.state) ensures end.a.heard {
      assert DatagramInv(end.a.vars.localDiscr, end.a.heard, d);
    }
  }

  // ---- Convergence ---------------------------------------------------------------------------------

  /** One loss-free round: A transmits and B receives it, then B transmits and A receives it. */
  function Round(p: Pair): Pair {
    var p1 := Step(p, Transmit(true));
    var p2 := Step(p1, Deliver(false, Wire(Control(p.a.vars))));
    var p3 := Step(p2, Transmit(false));
    Step(p3, Deliver(true, Wire(Control(p2.b.vars))))
  }

  function Iterate(f: Pair -> Pair, p: Pair, n: nat): Pair {
    if n == 0 then p else f(Iterate(f, p, n - 1))
  }

  function Rounds(p: Pair, n: nat): Pair {
    Iterate(q => Round(q), p, n)
  }

  /** The state after receiving a packet sent in state `received`. */
  function After(local: State, received: State): State {
    match NextState(local, received)
    case None => local
    case Some(to) => to
  }

  /** What one round does to the variables of both sides; it is a possible history. */
  lemma RoundEffect(p: Pair)
    requires PairInv(p)
    ensures
      var b1 := OnPacket(p.b.vars, Control(p.a.vars)).0;
      && PairInv(Round(p))
      && Round(p).b.vars == Sent(b1)
      && Round(p).a.vars == OnPacket(Sent(p.a.vars), Control(b1)).0
  {
    var p1 := Step(p, Transmit(true));
    StepKeepsInv(p, Transmit(true));
    BuiltPacketsAreSelfCompatible(p.a, p.b);
    var d := Deliver(false, Wire(Control(p.a.vars)));
    StepKeepsInv(p1, d);
    var p2 := Step(p1, d);
    StepKeepsInv(p2, Transmit(false));
    BuiltPacketsAreSelfCompatible(p2.b, p2.a);
    var p3 := Step(p2, Transmit(false));
    StepKeepsInv(p3, Deliver(true, Wire(Control(p2.b.vars))));
  }

  predicate BothUp(p: Pair) {
    p.a.vars.state == Up && p.b.vars.state == Up
  }

  /** `q` is `p` one round later, as far as the variables go. */
  ghost predicate OneRoundLater(p: Pair, q: Pair) {
    && PairInv(q)
    && var b1 := OnPacket(p.b.vars, Control(p.a.vars)).0;
       q.b.vars == Sent(b1) && q.a.vars == OnPacket(Sent(p.a.vars), Control(b1)).0
  }

  ghost predicate IsRoundFunction(f: Pair -> Pair) {
    forall p {:trigger f(p)} | PairInv(p) :: OneRoundLater(p, f(p))
  }

  lemma RoundIsRoundFunction()
    ensures IsRoundFunction(q => Round(q))
  {
    forall p | PairInv(p) ensures OneRoundLater(p, Round(p)) { RoundEffect(p); }
  }

  lemma OneRoundStates(p: Pair, q: Pair)
    requires OneRoundLater(p, q)
    ensures q.b.vars.state == After(p.b.vars.state, p.a.vars.state)
    ensures q.a.vars.state == After(p.a.vars.state, q.b.vars.state)
  {
  }

  lemma {:induction false} IterateKeepsInv(f: Pair -> Pair, p: Pair, n: nat)
    requires PairInv(p) && IsRoundFunction(f)
    ensures PairInv(Iterate(f, p, n))
  {
    if n > 0 {
      IterateKeepsInv(f, p, n - 1);
      assert OneRoundLater(Iterate(f, p, n - 1), Iterate(f, p, n));
    }
  }

  /** The states of both sides from one round to the next. */
  lemma IterateStates(f: Pair -> Pair, p: Pair, n: nat)
    requires PairInv(p) && IsRoundFunction(f)
    ensures
      var q, r := Iterate(f, p, n), Iterate(f, p, n + 1);
      && r.b.vars.state == After(q.b.vars.state, q.a.vars.state)
      && r.a.vars.state == After(q.a.vars.state, r.b.vars.state)
      && q.a.vars.state != AdminDown && q.b.vars.state != AdminDown
  {
    IterateKeepsInv(f, p, n);
    assert OneRoundLater(Iterate(f, p, n), Iterate(f, p, n + 1));
    OneRoundStates(Iterate(f, p, n), Iterate(f, p, n + 1));
  }

  /** The first three rounds, case by case on the states. */
  lemma StatesConverge(a0: State, b0: State, a1: State, b1: State, a2: State, b2: State, a3: State, b3: State)
    requires a0 != AdminDown && b0 != AdminDown
    requires b1 == After(b0, a0) && a1 == After(a0, b1)
    requires b2 == After(b1, a1) && a2 == After(a1, b2)
    requires b3 == After(b2, a2) && a3 == After(a2, b3)
    ensures a3 == Up && b3 == Up
  {
  }

  lemma {:induction false} IterateConverges(f: Pair -> Pair, p: Pair, n: nat)
    requires PairInv(p) && IsRoundFunction(f) && n >= 3
    ensures BothUp(Iterate(f, p, n))
  {
    IterateStates(f, p, n - 1);
    if n == 3 {
      IterateStates(f, p, 0);
      IterateStates(f, p, 1);
      var p0, p1, p2, p3 := Iterate(f, p, 0), Iterate(f, p, 1), Iterate(f, p, 2), Iterate(f, p, 3);
      StatesConverge(p0.a.vars.state, p0.b.vars.state, p1.a.vars.state, p1.b.vars.state,
                     p2.a.vars.state, p2.b.vars.state, p3.a.vars.state, p3.b.vars.state);
    } else {
      IterateConverges(f, p, n - 1);
    }
  }

  /** From any state a history can lead to, three loss-free rounds bring both sides Up, and
      every further round keeps them Up. */
  lemma ThreeRoundsConverge(p: Pair, n: nat)
    requires PairInv(p) && n >= 3
    ensures BothUp(Rounds(p, n))
  {
    RoundIsRoundFunction();
    IterateConverges(q => Round(q), p, n);
  }

  lemma StatesAfterTwo(a0: State, b0: State, a1: State, b1: State, a2: State, b2: State)
    requires a0 != AdminDown && b0 != AdminDown
    requires b1 == After(b0, a0) && a1 == After(a0, b1)
    requires b2 == After(b1, a1) && a2 == After(a1, b2)
    ensures a2 == b2 == Up <==> !(a0 == Up && b0 == Down)
  {
  }

  lemma IterateTwice(f: Pair -> Pair, p: Pair)
    requires PairInv(p) && IsRoundFunction(f)
    ensures BothUp(Iterate(f, p, 2)) <==> !(p.a.vars.state == Up && p.b.vars.state == Down)
  {
    IterateStates(f, p, 0);
    IterateStates(f, p, 1);
    var p0, p1, p2 := Iterate(f, p, 0), Iterate(f, p, 1), Iterate(f, p, 2);
    StatesAfterTwo(p0.a.vars.state, p0.b.vars.state, p1.a.vars.state, p1.b.vars.state,
                   p2.a.vars.state, p2.b.vars.state);
  }

  /** Two rounds are enough unless A is still Up and B has fallen. */
  lemma TwoRoundsMayNotConverge(p: Pair)
    requires PairInv(p)
    ensures BothUp(Rounds(p, 2)) <==> !(p.a.vars.state == Up && p.b.vars.state == Down)
  {
    RoundIsRoundFunction();
    IterateTwice(q => Round(q), p);
  }

  /** `s` hears a peer in the state `peer` and has learned its parameters, and conversely. */
  predicate Synchronised(s: Vars, peer: Vars) {
    && s.remoteDesiredTxUs == EffectiveDesiredTx(peer)
    && s.remoteDetectMult == peer.cfg.detectMult
    && peer.remoteMinRxUs == s.cfg.requiredMinRxUs
  }

  lemma OneRoundSynchronises(p: Pair, q: Pair)
    requires OneRoundLater(p, q) && BothUp(p) && BothUp(q)
    ensures Synchronised(q.a.vars, q.b.vars) && Synchronised(q.b.vars, q.a.vars)
  {
  }

  /** The Detection Time at `s` leaves room for `peer`'s Detect Mult transmissions, with a
      tenth of each to spare. */
  predicate Outlasts(s: Vars, peer: Vars) {
    10 * peer.cfg.detectMult * TransmitIntervalUs(peer) <= 9 * DetectionTimeUs(s)
  }

  /** Once both sides have exchanged packets in state Up, neither side's Detection Time can
      run out unless as many transmissions as the peer's Detect Mult go missing: jitter only
      ever shortens the interval (section 6.8.7 of RFC 5880). */
  lemma DetectionOutlastsTransmissions(p: Pair, n: nat)
    requires PairInv(p) && n >= 4
    ensures Outlasts(Rounds(p, n).a.vars, Rounds(p, n).b.vars)
    ensures Outlasts(Rounds(p, n).b.vars, Rounds(p, n).a.vars)
  {
    RoundIsRoundFunction();
    IterateOutlasts(q => Round(q), p, n);
  }

  lemma IterateOutlasts(f: Pair -> Pair, p: Pair, n: nat)
    requires PairInv(p) && IsRoundFunction(f) && n >= 4
    ensures Outlasts(Iterate(f, p, n).a.vars, Iterate(f, p, n).b.vars)
    ensures Outlasts(Iterate(f, p, n).b.vars, Iterate(f, p, n).a.vars)
  {
    IterateConverges(f, p, n - 1);
    IterateConverges(f, p, n);
    SynchronisedAfter(f, p, n);
    SynchronisedDetection(Iterate(f, p, n).a.vars, Iterate(f, p, n).b.vars);
    SynchronisedDetection(Iterate(f, p, n).b.vars, Iterate(f, p, n).a.vars);
  }

  lemma SynchronisedAfter(f: Pair -> Pair, p: Pair, n: nat)
    requires PairInv(p) && IsRoundFunction(f) && n > 0
    requires BothUp(Iterate(f, p, n - 1)) && BothUp(Iterate(f, p, n))
    ensures
      var q := Iterate(f, p, n);
      Synchronised(q.a.vars, q.b.vars) && Synchronised(q.b.vars, q.a.vars)
  {
    IterateKeepsInv(f, p, n - 1);
    assert OneRoundLater(Iterate(f, p, n - 1), Iterate(f, p, n));
    OneRoundSynchronises(Iterate(f, p, n - 1), Iterate(f, p, n));
  }

  lemma SynchronisedDetection(s: Vars, peer: Vars)
    requires Synchronised(s, peer)
    ensures Outlasts(s, peer)
  {
    JitterBound(Max(EffectiveDesiredTx(peer), peer.remoteMinRxUs), peer.localDiscr, peer.cfg.detectMult);
  }

  /** 75 to 90 percent of an interval, `mult` times over. */
  lemma JitterBound(base: nat, discr: u32, mult: nat)
    ensures 10 * mult * (base * (75 + discr % 16) / 100) <= 9 * (mult * base)
  {
    var pct := 75 + discr % 16;
    var t := base * pct / 100;
    assert base * pct <= base * 90;
    assert 10 * t <= 9 * base;
    assert mult * (10 * t) <= mult * (9 * base);
  }
}
