/** Per-prefix path selection (`select_best` in `rib.rs`): the deterministic-MED
    two-level reduction, its meaning, and its independence of the candidates' order. */
module Selection {
  import opened Wrappers
  import opened Net
  import opened Orders
  import opened Decision

  /** `v` comes before `w` inside one AS: smaller full key, or the same and offered first. */
  predicate Before(ps: seq<Path>, v: nat, w: nat)
    requires v < |ps| && w < |ps|
  {
    LexLess(MedKey(ps[v]), MedKey(ps[w])) || (MedKey(ps[v]) == MedKey(ps[w]) && v < w)
  }

  /** `w` is its neighbouring AS's winner: first among the smallest full keys. */
  predicate AsWinner(ps: seq<Path>, w: nat) {
    w < |ps| &&
    forall j | 0 <= j < |ps| && j != w && ps[j].peerAs == ps[w].peerAs :: Before(ps, w, j)
  }

  /** `v` comes ahead of `w` across ASes: smaller key without MED, or the lower AS number. */
  predicate Ahead(ps: seq<Path>, v: nat, w: nat)
    requires v < |ps| && w < |ps|
  {
    || LexLess(PlainKey(ps[v]), PlainKey(ps[w]))
    || (PlainKey(ps[v]) == PlainKey(ps[w]) && ps[v].peerAs < ps[w].peerAs)
  }

  /** `w` is the overall winner: its AS's winner, ahead of every other AS's winner. */
  ghost predicate Chosen(ps: seq<Path>, w: nat) {
    && AsWinner(ps, w)
    && forall v: nat | AsWinner(ps, v) && v != w :: Ahead(ps, w, v)
  }

  // ---- Existence and uniqueness ------------------------------------------------------

  lemma BeforeIsStrictOrder(ps: seq<Path>, u: nat, v: nat, w: nat)
    requires u < |ps| && v < |ps| && w < |ps|
    ensures u == v || Before(ps, u, v) || Before(ps, v, u)
    ensures !(Before(ps, u, v) && Before(ps, v, u))
    ensures Before(ps, u, v) && Before(ps, v, w) ==> Before(ps, u, w)
  {
    var x, y, z := MedKey(ps[u]), MedKey(ps[v]), MedKey(ps[w]);
    LexTotal(x, y);
    LexIrreflexive(x);
    if LexLess(x, y) {
      LexAsymmetric(x, y);
      if LexLess(y, z) { LexTransitive(x, y, z); }
    }
  }

  lemma AheadIsStrictOrder(ps: seq<Path>, u: nat, v: nat, w: nat)
    requires u < |ps| && v < |ps| && w < |ps|
    ensures Ahead(ps, u, v) || Ahead(ps, v, u) || ps[u].peerAs == ps[v].peerAs
    ensures !(Ahead(ps, u, v) && Ahead(ps, v, u))
    ensures Ahead(ps, u, v) && Ahead(ps, v, w) ==> Ahead(ps, u, w)
  {
    var x, y, z := PlainKey(ps[u]), PlainKey(ps[v]), PlainKey(ps[w]);
    LexTotal(x, y);
    LexIrreflexive(x);
    if LexLess(x, y) {
      LexAsymmetric(x, y);
      if LexLess(y, z) { LexTransitive(x, y, z); }
    }
  }

  /** Two winners of one AS are the same candidate. */
  lemma AsWinnerUnique(ps: seq<Path>, v: nat, w: nat)
    requires AsWinner(ps, v) && AsWinner(ps, w) && ps[v].peerAs == ps[w].peerAs
    ensures v == w
  {
    if v != w { BeforeIsStrictOrder(ps, v, w, v); }
  }

  predicate WithinAs(ps: seq<Path>, v: nat, w: nat) {
    v < |ps| && w < |ps| && Before(ps, v, w)
  }

  lemma AsWinnerExists(ps: seq<Path>, i: nat)
    requires i < |ps|
    ensures exists w: nat :: AsWinner(ps, w) && ps[w].peerAs == ps[i].peerAs
  {
    var s: set<nat> := set j: nat | j < |ps| && ps[j].peerAs == ps[i].peerAs;
    var less := (v: nat, w: nat) => WithinAs(ps, v, w);
    assert i in s;
    forall x: nat, y: nat | x in s && y in s && x != y ensures less(x, y) || less(y, x) {
      BeforeIsStrictOrder(ps, x, y, x);
    }
    forall x: nat, y: nat, z: nat | x in s && y in s && z in s && less(x, y) && less(y, z) ensures less(x, z) {
      BeforeIsStrictOrder(ps, x, y, z);
    }
    var w := LeastBy(s, less);
    forall j | 0 <= j < |ps| && j != w && ps[j].peerAs == ps[w].peerAs ensures Before(ps, w, j) {
      assert j in s && less(w, j);
    }
    assert AsWinner(ps, w);
  }

  predicate AcrossAs(ps: seq<Path>, v: nat, w: nat) {
    v < |ps| && w < |ps| && Ahead(ps, v, w)
  }

  lemma ChosenExists(ps: seq<Path>)
    requires ps != []
    ensures exists w: nat :: Chosen(ps, w)
  {
    var s: set<nat> := set j: nat | j < |ps| && AsWinner(ps, j);
    var less := (v: nat, w: nat) => AcrossAs(ps, v, w);
    AsWinnerExists(ps, 0);
    var first: nat :| AsWinner(ps, first);
    assert first in s;
    forall x: nat, y: nat | x in s && y in s && x != y ensures less(x, y) || less(y, x) {
      AheadIsStrictOrder(ps, x, y, x);
      if ps[x].peerAs == ps[y].peerAs { AsWinnerUnique(ps, x, y); }
    }
    forall x: nat, y: nat, z: nat | x in s && y in s && z in s && less(x, y) && less(y, z) ensures less(x, z) {
      AheadIsStrictOrder(ps, x, y, z);
    }
    var w := LeastBy(s, less);
    forall v: nat | AsWinner(ps, v) && v != w ensures Ahead(ps, w, v) {
      assert v in s && less(w, v);
    }
    assert Chosen(ps, w);
  }

  lemma ChosenUnique(ps: seq<Path>, v: nat, w: nat)
    requires Chosen(ps, v) && Chosen(ps, w)
    ensures v == w
  {
    if v != w { AheadIsStrictOrder(ps, v, w, v); }
  }

  /** The selected candidate, defined without reference to any reduction. */
  ghost function Choice(ps: seq<Path>): (w: nat)
    requires ps != []
    ensures Chosen(ps, w)
  {
    ChosenExists(ps);
    var w: nat :| Chosen(ps, w);
    w
  }

  // ---- The reduction -----------------------------------------------------------------

  function AsRank(a: u32): seq<int> { [a] }

  lemma AsRankInjective()
    ensures Injective(AsRank)
  {
    forall a, b | AsRank(a) == AsRank(b) ensures a == b { assert AsRank(a)[0] == AsRank(b)[0]; }
  }

  /** Offering one more candidate changes the winner of its own AS only. */
  lemma AsWinnerStep(ps: seq<Path>, i: nat, w: nat)
    requires i < |ps| && AsWinner(ps[..i], w)
    ensures ps[i].peerAs != ps[w].peerAs ==> AsWinner(ps[..i + 1], w)
    ensures ps[i].peerAs == ps[w].peerAs ==> AsWinner(ps[..i + 1], if IsBetter(ps[i], ps[w]) then i else w)
  {
    var front, more := ps[..i], ps[..i + 1];
    forall j | 0 <= j < i && j != w && more[j].peerAs == more[w].peerAs ensures Before(more, w, j) {
      assert front[j] == more[j] && Before(front, w, j);
    }
    if ps[i].peerAs == ps[w].peerAs {
      IsBetterMeaning(ps[i], ps[w]);
      BeforeIsStrictOrder(more, i, w, i);
      if IsBetter(ps[i], ps[w]) {
        forall j | 0 <= j < |more| && j != i && more[j].peerAs == more[i].peerAs ensures Before(more, i, j) {
          if j != w { BeforeIsStrictOrder(more, i, w, j); }
        }
        assert AsWinner(more, i);
      } else {
        assert AsWinner(more, w);
      }
    }
  }

  /** The first level: the winner of every neighbouring AS among the first candidates. */
  ghost predicate HoldsAsWinners(ps: seq<Path>, bestPerAs: map<u32, nat>) {
    && (forall j | 0 <= j < |ps| :: ps[j].peerAs in bestPerAs)
    && (forall a | a in bestPerAs :: AsWinner(ps, bestPerAs[a]) && ps[bestPerAs[a]].peerAs == a)
  }

  lemma HoldsAsWinnersStep(ps: seq<Path>, i: nat, bestPerAs: map<u32, nat>)
    requires i < |ps| && HoldsAsWinners(ps[..i], bestPerAs)
    ensures
      var a := ps[i].peerAs;
      HoldsAsWinners(ps[..i + 1],
        if a in bestPerAs && !IsBetter(ps[i], ps[bestPerAs[a]]) then bestPerAs else bestPerAs[a := i])
  {
    var a := ps[i].peerAs;
    var next := if a in bestPerAs && !IsBetter(ps[i], ps[bestPerAs[a]]) then bestPerAs else bestPerAs[a := i];
    forall b | b in next ensures AsWinner(ps[..i + 1], next[b]) && ps[next[b]].peerAs == b {
      if b in bestPerAs {
        AsWinnerStep(ps, i, bestPerAs[b]);
      } else {
        assert forall j | 0 <= j < i :: ps[..i][j].peerAs in bestPerAs;
      }
    }
    forall j | 0 <= j < i + 1 ensures ps[j].peerAs in next {
      if j < i { assert ps[..i][j].peerAs in bestPerAs; }
    }
  }

  method ReduceWithinAs(ps: seq<Path>) returns (bestPerAs: map<u32, nat>)
    ensures HoldsAsWinners(ps, bestPerAs)
  {
    bestPerAs := map[];
    for i := 0 to |ps|
      invariant HoldsAsWinners(ps[..i], bestPerAs)
    {
      HoldsAsWinnersStep(ps, i, bestPerAs);
      var p := ps[i];
      if p.peerAs in bestPerAs {
        if IsBetter(p, ps[bestPerAs[p.peerAs]]) {
          bestPerAs := bestPerAs[p.peerAs := i];
        }
      } else {
        bestPerAs := bestPerAs[p.peerAs := i];
      }
    }
    assert ps[..|ps|] == ps;
  }

  /** `b` is ahead of every AS winner listed. */
  ghost predicate LeadsAll(ps: seq<Path>, winners: seq<nat>, b: nat) {
    && b in winners
    && forall v | v in winners && v != b :: AcrossAs(ps, b, v)
  }

  /** The second level, over the AS winners in ascending AS order. */
  method ReduceAcrossAs(ps: seq<Path>, winners: seq<nat>) returns (best: Option<nat>)
    requires forall k | 0 <= k < |winners| :: winners[k] < |ps|
    requires forall j, k | 0 <= j < k < |winners| :: ps[winners[j]].peerAs < ps[winners[k]].peerAs
    ensures best.None? <==> winners == []
    ensures best.Some? ==> LeadsAll(ps, winners, best.value)
  {
    best := None;
    for k := 0 to |winners|
      invariant best.None? <==> k == 0
      invariant best.Some? ==> LeadsAll(ps, winners[..k], best.value)
    {
      var p := winners[k];
      assert winners[..k + 1] == winners[..k] + [p];
      match best
      case None => best := Some(p);
      case Some(b) =>
        var j :| 0 <= j < k && winners[j] == b;
        AscendingReduction(ps, b, p);
        if IsBetter(ps[p], ps[b]) {
          forall v | v in winners[..k] && v != b ensures AcrossAs(ps, p, v) {
            AheadIsStrictOrder(ps, p, b, v);
          }
          best := Some(p);
        }
    }
    assert winners[..|winners|] == winners;
  }

  /** The two levels together find the selected candidate. */
  lemma LevelsFindChoice(ps: seq<Path>, bestPerAs: map<u32, nat>, winners: seq<nat>, w: nat)
    requires ps != [] && HoldsAsWinners(ps, bestPerAs)
    requires forall v: nat :: v in winners <==> exists a :: a in bestPerAs && bestPerAs[a] == v
    requires LeadsAll(ps, winners, w)
    ensures w == Choice(ps)
  {
    forall v: nat | AsWinner(ps, v) && v != w ensures Ahead(ps, w, v) {
      var a := ps[v].peerAs;
      assert a in bestPerAs;
      AsWinnerUnique(ps, v, bestPerAs[a]);
      assert v in winners && AcrossAs(ps, w, v);
    }
    assert Chosen(ps, w);
    ChosenUnique(ps, w, Choice(ps));
  }

  lemma WinnersAscend(ps: seq<Path>, bestPerAs: map<u32, nat>, ases: seq<u32>, winners: seq<nat>)
    requires HoldsAsWinners(ps, bestPerAs) && ases == AsesInOrder(bestPerAs.Keys)
    requires winners == WinnersOf(ases, bestPerAs)
    ensures forall k | 0 <= k < |winners| :: winners[k] < |ps|
    ensures forall j, k | 0 <= j < k < |winners| :: ps[winners[j]].peerAs < ps[winners[k]].peerAs
    ensures forall v: nat :: v in winners <==> exists a :: a in bestPerAs && bestPerAs[a] == v
  {
    forall k | 0 <= k < |winners| ensures winners[k] < |ps| && ps[winners[k]].peerAs == ases[k] {
      assert ases[k] in bestPerAs && winners[k] == bestPerAs[ases[k]];
    }
    forall a | a in bestPerAs ensures bestPerAs[a] in winners {
      var k :| 0 <= k < |ases| && ases[k] == a;
      assert winners[k] == bestPerAs[a];
    }
  }

  /** `select_best`: reduce within each neighbouring AS, then across the AS winners. A
      candidate is named by its index, as the source names it by reference. */
  method SelectBest(ps: seq<Path>) returns (r: Option<nat>)
    ensures r == if ps == [] then None else Some(Choice(ps))
  {
    var bestPerAs := ReduceWithinAs(ps);
    var ases := AsesInOrder(bestPerAs.Keys);
    var winners := WinnersOf(ases, bestPerAs);
    WinnersAscend(ps, bestPerAs, ases, winners);
    r := ReduceAcrossAs(ps, winners);
    if ps != [] {
      assert bestPerAs[ps[0].peerAs] in winners;
      LevelsFindChoice(ps, bestPerAs, winners, r.value);
    }
  }

  /** The neighbouring ASes in ascending order, as a `BTreeMap` iterates them. */
  function AsesInOrder(ases: set<u32>): (r: seq<u32>)
    ensures forall a :: a in r <==> a in ases
    ensures forall j, k | 0 <= j < k < |r| :: r[j] < r[k]
  {
    AsRankInjective();
    var r := Ascending(ases, AsRank);
    assert forall j, k | 0 <= j < k < |r| :: LexLess(AsRank(r[j]), AsRank(r[k]));
    r
  }

  function WinnersOf(ases: seq<u32>, bestPerAs: map<u32, nat>): (r: seq<nat>)
    requires forall k | 0 <= k < |ases| :: ases[k] in bestPerAs
    ensures |r| == |ases| && forall k | 0 <= k < |ases| :: r[k] == bestPerAs[ases[k]]
  {
    seq(|ases|, k requires 0 <= k < |ases| => bestPerAs[ases[k]])
  }

  /** Keeping the incumbent unless strictly beaten implements `Ahead` when the challenger
      is of a higher-numbered AS. */
  lemma AscendingReduction(ps: seq<Path>, b: nat, p: nat)
    requires b < |ps| && p < |ps| && ps[b].peerAs < ps[p].peerAs
    ensures IsBetter(ps[p], ps[b]) <==> Ahead(ps, p, b)
    ensures !IsBetter(ps[p], ps[b]) <==> Ahead(ps, b, p)
  {
    IsBetterMeaning(ps[p], ps[b]);
    AheadIsStrictOrder(ps, b, p, b);
  }

  // ---- What the selected path is -------------------------------------------------------

  /** The selected path is unbeaten in its own neighbouring AS, and unbeaten by the winner
      of any other AS. */
  lemma ChoiceIsUnbeaten(ps: seq<Path>)
    requires ps != []
    ensures
      var w := Choice(ps);
      && (forall j | 0 <= j < |ps| && ps[j].peerAs == ps[w].peerAs :: !IsBetter(ps[j], ps[w]))
      && (forall v: nat | AsWinner(ps, v) :: !IsBetter(ps[v], ps[w]))
  {
    var w := Choice(ps);
    forall j | 0 <= j < |ps| && ps[j].peerAs == ps[w].peerAs ensures !IsBetter(ps[j], ps[w]) {
      IsBetterMeaning(ps[j], ps[w]);
      BeforeIsStrictOrder(ps, w, j, w);
      LexIrreflexive(MedKey(ps[w]));
    }
    forall v: nat | AsWinner(ps, v) ensures !IsBetter(ps[v], ps[w]) {
      if ps[v].peerAs == ps[w].peerAs {
        AsWinnerUnique(ps, v, w);
      } else {
        IsBetterMeaning(ps[v], ps[w]);
        AheadIsStrictOrder(ps, w, v, w);
      }
    }
  }

  /** A path that lost on MED inside its own AS may still beat the selected path pairwise:
      "unbeaten" cannot be strengthened to all candidates. */
  lemma ChoiceMayBeBeatenByAMedLoser()
    ensures
      var ps := [SamplePath(100, 20, 1), SamplePath(200, 0, 2), SamplePath(100, 10, 3)];
      Choice(ps) == 1 && IsBetter(ps[0], ps[Choice(ps)])
  {
    var ps := [SamplePath(100, 20, 1), SamplePath(200, 0, 2), SamplePath(100, 10, 3)];
    IsBetterMeaning(ps[0], ps[2]);
    IsBetterMeaning(ps[2], ps[0]);
    IsBetterMeaning(ps[1], ps[2]);
    assert Before(ps, 2, 0);
    assert AsWinner(ps, 1) && AsWinner(ps, 2);
    BeforeIsStrictOrder(ps, 2, 0, 2);
    assert !AsWinner(ps, 0);
    assert Ahead(ps, 1, 2);
    assert Chosen(ps, 1);
    ChosenUnique(ps, 1, Choice(ps));
  }

  /** The winner of an AS in one order is, in any other order of the same candidates, as
      good as the winner of that AS there. */
  lemma AsWinnerKeyIsOrderFree(ps: seq<Path>, qs: seq<Path>, v: nat, w: nat)
    requires multiset(ps) == multiset(qs)
    requires AsWinner(ps, v) && AsWinner(qs, w) && ps[v].peerAs == qs[w].peerAs
    ensures MedKey(ps[v]) == MedKey(qs[w])
  {
    assert ps[v] in multiset(ps) && qs[w] in multiset(qs);
    var i :| 0 <= i < |qs| && qs[i] == ps[v];
    var j :| 0 <= j < |ps| && ps[j] == qs[w];
    assert i == w || Before(qs, w, i);
    assert j == v || Before(ps, v, j);
    if MedKey(ps[v]) != MedKey(qs[w]) { LexAsymmetric(MedKey(ps[v]), MedKey(qs[w])); }
  }

  /** Of two orders of the same candidates, neither choice is worse than the other. */
  lemma ChoiceNotWorse(ps: seq<Path>, qs: seq<Path>)
    requires ps != [] && multiset(ps) == multiset(qs)
    ensures qs != []
    ensures
      var p, q := ps[Choice(ps)], qs[Choice(qs)];
      || LexLess(PlainKey(p), PlainKey(q))
      || (PlainKey(p) == PlainKey(q) && p.peerAs <= q.peerAs)
  {
    assert ps[0] in multiset(ps) && ps[0] in multiset(qs);
    var v, w := Choice(ps), Choice(qs);
    assert qs[w] in multiset(qs) && qs[w] in multiset(ps);
    var j :| 0 <= j < |ps| && ps[j] == qs[w];
    AsWinnerExists(ps, j);
    var u: nat :| AsWinner(ps, u) && ps[u].peerAs == qs[w].peerAs;
    AsWinnerKeyIsOrderFree(ps, qs, u, w);
    MedKeyDeterminesPlainKey(ps[u], qs[w]);
    assert u == v || Ahead(ps, v, u);
  }

  /** Nothing the decision compares tells the two apart. */
  predicate Tie(a: Path, b: Path) {
    a.peerAs == b.peerAs && MedKey(a) == MedKey(b)
  }

  /** Deterministic MED: whatever the order of the candidates, the selected path has the
      same neighbouring AS and the same decision key. */
  lemma SelectionIsOrderIndependent(ps: seq<Path>, qs: seq<Path>)
    requires ps != [] && multiset(ps) == multiset(qs)
    ensures qs != [] && Tie(ps[Choice(ps)], qs[Choice(qs)])
    ensures (forall x | x in ps && Tie(x, ps[Choice(ps)]) :: x == ps[Choice(ps)]) ==> qs[Choice(qs)] == ps[Choice(ps)]
  {
    ChoiceNotWorse(ps, qs);
    ChoiceNotWorse(qs, ps);
    var p, q := ps[Choice(ps)], qs[Choice(qs)];
    LexIrreflexive(PlainKey(p));
    if PlainKey(p) != PlainKey(q) { LexTransitive(PlainKey(p), PlainKey(q), PlainKey(p)); }
    AsWinnerKeyIsOrderFree(ps, qs, Choice(ps), Choice(qs));
    assert q in multiset(qs) && q in multiset(ps);
    assert q in ps && Tie(q, p);
  }

  /** `qs` is another order of the candidates `ps`. */
  predicate Reordered(ps: seq<Path>, qs: seq<Path>) {
    multiset(ps) == multiset(qs)
  }

  lemma SameCandidates(ps: seq<Path>, qs: seq<Path>)
    requires Reordered(ps, qs)
    ensures |ps| == |qs| && forall x :: x in ps <==> x in qs
  {
    assert |multiset(ps)| == |multiset(qs)|;
    forall x ensures x in ps <==> x in qs {
      assert x in multiset(ps) <==> x in multiset(qs);
    }
  }

  /** A candidate can be offered first. */
  lemma OfferedFirst(ps: seq<Path>, x: Path) returns (rest: seq<Path>)
    requires x in ps
    ensures Reordered(ps, [x] + rest) && Reordered(ps, rest + [x])
  {
    var k :| 0 <= k < |ps| && ps[k] == x;
    rest := ps[..k] + ps[k + 1..];
    assert ps == ps[..k] + [ps[k]] + ps[k + 1..];
  }

  /** A candidate that ties with the selected one and is offered first is itself selected. */
  lemma FirstOfTheTied(ps: seq<Path>)
    requires ps != [] && Tie(ps[0], ps[Choice(ps)])
    ensures Choice(ps) == 0
  {
    LexIrreflexive(MedKey(ps[0]));
  }

  /** Every candidate that ties with the selected one is selected in some order. */
  lemma TiedPathsFollowTheOrder(ps: seq<Path>, x: Path) returns (qs: seq<Path>)
    requires ps != [] && x in ps && Tie(x, ps[Choice(ps)])
    ensures Reordered(ps, qs) && qs != [] && qs[Choice(qs)] == x
  {
    var rest := OfferedFirst(ps, x);
    qs := [x] + rest;
    SelectionIsOrderIndependent(ps, qs);
    FirstOfTheTied(qs);
  }

  /** Every order selects one and the same path exactly when no other path ties with the
      selected one. Ties among losers are harmless. */
  lemma SelectionIsOnePath(ps: seq<Path>)
    requires ps != []
    ensures (forall qs | Reordered(ps, qs) :: qs != [] && qs[Choice(qs)] == ps[Choice(ps)])
       <==> (forall x | x in ps && Tie(x, ps[Choice(ps)]) :: x == ps[Choice(ps)])
  {
    var p := ps[Choice(ps)];
    if x :| x in ps && Tie(x, p) && x != p {
      var qs := TiedPathsFollowTheOrder(ps, x);
    } else {
      forall qs | Reordered(ps, qs) ensures qs != [] && qs[Choice(qs)] == p {
        SelectionIsOrderIndependent(ps, qs);
      }
    }
  }

  // ---- Equal-cost next hops --------------------------------------------------------------

  /** The hops of those of the first `n` candidates eligible beside `best`, in order. */
  function EligibleHops(best: Path, ps: seq<Path>, n: nat): seq<NextHop>
    requires n <= |ps|
  {
    if n == 0 then [] else
      EligibleHops(best, ps, n - 1) + if MultipathEligible(best, ps[n - 1]) then [ps[n - 1].Hop()] else []
  }

  /** First occurrences only. */
  function FirstOccurrences(hops: seq<NextHop>): (r: seq<NextHop>)
    ensures forall h :: h in r <==> h in hops
    ensures forall i, j | 0 <= i < j < |r| :: r[i] != r[j]
  {
    if hops == [] then [] else
      var front, last := hops[..|hops| - 1], hops[|hops| - 1];
      assert hops == front + [last];
      var d := FirstOccurrences(front);
      if last in d then d else d + [last]
  }

  function UpTo(hops: seq<NextHop>, max: nat): seq<NextHop> {
    if |hops| <= max then hops else hops[..max]
  }

  /** The distinct hops of a best path and of the first `n` candidates eligible beside it. */
  function Collected(best: Path, ps: seq<Path>, n: nat): seq<NextHop>
    requires n <= |ps|
  {
    if n == 0 then [best.Hop()] else
      var was := Collected(best, ps, n - 1);
      if MultipathEligible(best, ps[n - 1]) && ps[n - 1].Hop() !in was then was + [ps[n - 1].Hop()] else was
  }

  /** The installed next hops: the winner's first, then the distinct hops of the paths tied
      with it in candidate order, at most `maxPaths` in all. */
  ghost function InstalledHops(ps: seq<Path>, maxPaths: nat): seq<NextHop>
    requires ps != []
  {
    UpTo(Collected(ps[Choice(ps)], ps, |ps|), maxPaths)
  }

  lemma {:induction false} EligibleHopsMembers(best: Path, ps: seq<Path>, n: nat, h: NextHop)
    requires n <= |ps|
    ensures h in EligibleHops(best, ps, n) <==>
            exists i :: 0 <= i < n && MultipathEligible(best, ps[i]) && ps[i].Hop() == h
  {
    if n > 0 { EligibleHopsMembers(best, ps, n - 1, h); }
  }

  /** What is collected is the winner's hop and the eligible candidates' hops in candidate
      order, each at its first occurrence. */
  lemma {:induction false} CollectedIsFirstOccurrences(best: Path, ps: seq<Path>, n: nat)
    requires n <= |ps|
    ensures Collected(best, ps, n) == FirstOccurrences([best.Hop()] + EligibleHops(best, ps, n))
  {
    if n == 0 {
      assert [best.Hop()] + EligibleHops(best, ps, 0) == [best.Hop()];
      assert [best.Hop()][..0] == [];
    } else {
      CollectedIsFirstOccurrences(best, ps, n - 1);
      var was := [best.Hop()] + EligibleHops(best, ps, n - 1);
      if MultipathEligible(best, ps[n - 1]) {
        assert [best.Hop()] + EligibleHops(best, ps, n) == was + [ps[n - 1].Hop()];
        assert (was + [ps[n - 1].Hop()])[..|was|] == was;
      } else {
        assert [best.Hop()] + EligibleHops(best, ps, n) == was;
      }
    }
  }

  /** The installed next hops lead with the winner's, repeat nothing, respect the cap, come
      from eligible candidates, and below the cap leave out no eligible candidate. */
  lemma InstalledHopsMeaning(ps: seq<Path>, maxPaths: nat)
    requires ps != [] && maxPaths >= 1
    ensures
      var hops, best := InstalledHops(ps, maxPaths), ps[Choice(ps)];
      && 1 <= |hops| <= maxPaths
      && hops[0] == best.Hop()
      && (forall i, j | 0 <= i < j < |hops| :: hops[i] != hops[j])
      && (forall h | h in hops :: exists i :: 0 <= i < |ps| && MultipathEligible(best, ps[i]) && ps[i].Hop() == h)
      && (|hops| < maxPaths ==>
          forall i | 0 <= i < |ps| && MultipathEligible(best, ps[i]) :: ps[i].Hop() in hops)
  {
    var best := ps[Choice(ps)];
    var hops, all := InstalledHops(ps, maxPaths), Collected(best, ps, |ps|);
    CollectedIsFirstOccurrences(best, ps, |ps|);
    CollectedFront(best, ps, 0, |ps|);
    forall h | h in hops
      ensures exists i :: 0 <= i < |ps| && MultipathEligible(best, ps[i]) && ps[i].Hop() == h
    {
      assert h in all;
      EligibleHopsMembers(best, ps, |ps|, h);
      if h == best.Hop() { assert MultipathEligible(best, ps[Choice(ps)]); }
    }
    forall i | |hops| < maxPaths && 0 <= i < |ps| && MultipathEligible(best, ps[i]) ensures ps[i].Hop() in hops {
      EligibleHopsMembers(best, ps, |ps|, ps[i].Hop());
      assert ps[i].Hop() in all;
    }
  }

  /** What is collected from the first candidates is the front of what all of them give. */
  lemma {:induction false} CollectedFront(best: Path, ps: seq<Path>, i: nat, n: nat)
    requires i <= n <= |ps|
    ensures Collected(best, ps, i) <= Collected(best, ps, n)
    decreases n
  {
    if i < n { CollectedFront(best, ps, i, n - 1); }
  }
}
