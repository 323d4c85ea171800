/** The one-pass `select_best` of the sibling RIBs (`evpn_rib.rs`, `flowspec_rib.rs`,
    `sr_policy_rib.rs`) compared with the deterministic-MED selection of `rib.rs`. */
module SinglePassModel {
  import opened Wrappers
  import opened Net
  import opened Orders
  import opened Decision
  import opened Selection

  /** All candidates share one neighbouring AS. */
  predicate OneAs(ps: seq<Path>) {
    forall i, j | 0 <= i < |ps| && 0 <= j < |ps| :: ps[i].peerAs == ps[j].peerAs
  }

  /** All candidates carry one MED. */
  predicate OneMed(ps: seq<Path>) {
    forall i, j | 0 <= i < |ps| && 0 <= j < |ps| :: ps[i].med == ps[j].med
  }

  /** Under either condition the preference is the order of one key. */
  function CommonKey(ps: seq<Path>, i: nat): seq<int>
    requires i < |ps|
  {
    if OneAs(ps) then MedKey(ps[i]) else PlainKey(ps[i])
  }

  lemma CommonKeyDecides(ps: seq<Path>, i: nat, j: nat)
    requires i < |ps| && j < |ps| && (OneAs(ps) || OneMed(ps))
    ensures IsBetter(ps[i], ps[j]) <==> LexLess(CommonKey(ps, i), CommonKey(ps, j))
  {
    IsBetterMeaning(ps[i], ps[j]);
    if !OneAs(ps) { EqualMedOrder(ps[i], ps[j]); }
  }

  predicate Leads(ps: seq<Path>, w: nat, j: nat) {
    && w < |ps| && j < |ps|
    && (LexLess(CommonKey(ps, w), CommonKey(ps, j)) || (CommonKey(ps, w) == CommonKey(ps, j) && w < j))
  }

  lemma LeadsIsStrictOrder(ps: seq<Path>, u: nat, v: nat, w: nat)
    ensures Leads(ps, u, v) && Leads(ps, v, w) ==> Leads(ps, u, w)
    ensures !(Leads(ps, u, v) && Leads(ps, v, u))
  {
    if Leads(ps, u, v) {
      var x, y := CommonKey(ps, u), CommonKey(ps, v);
      if x != y { LexAsymmetric(x, y); } else { LexIrreflexive(x); }
      if Leads(ps, v, w) && x != y && y != CommonKey(ps, w) { LexTransitive(x, y, CommonKey(ps, w)); }
    }
  }

  /** The candidate that comes later leads exactly when it is strictly better. */
  lemma LaterLeads(ps: seq<Path>, i: nat, j: nat)
    requires i < j < |ps| && (OneAs(ps) || OneMed(ps))
    ensures IsBetter(ps[j], ps[i]) ==> Leads(ps, j, i)
    ensures !IsBetter(ps[j], ps[i]) ==> Leads(ps, i, j)
  {
    CommonKeyDecides(ps, j, i);
    LexTotal(CommonKey(ps, i), CommonKey(ps, j));
  }

  /** A single pass ends with the candidate that leads all others, for any transitive lead
      under which a later candidate leads exactly when it is strictly better. */
  lemma {:induction false} SinglePassFindsLeader(ps: seq<Path>, n: nat, leads: (nat, nat) -> bool)
    requires 0 < n <= |ps|
    requires forall i: nat, j: nat | i < j < |ps| ::
      if IsBetter(ps[j], ps[i]) then leads(j, i) else leads(i, j)
    requires forall u: nat, v: nat, w: nat | leads(u, v) && leads(v, w) :: leads(u, w)
    ensures forall j: nat | j < n && j != SinglePass(ps, n) :: leads(SinglePass(ps, n), j)
  {
    if n > 1 {
      SinglePassFindsLeader(ps, n - 1, leads);
      var was, last: nat := SinglePass(ps, n - 1), n - 1;
      if IsBetter(ps[last], ps[was]) {
        assert leads(last, was);
        forall j: nat | j < last ensures leads(last, j) {
          if j != was { assert leads(was, j); }
        }
      } else {
        assert leads(was, last);
      }
    }
  }

  /** Under either condition a single pass ends with the first of the best candidates. */
  lemma SinglePassFindsFirstBest(ps: seq<Path>)
    requires ps != [] && (OneAs(ps) || OneMed(ps))
    ensures forall j: nat | j < |ps| && j != SinglePass(ps, |ps|) :: Leads(ps, SinglePass(ps, |ps|), j)
  {
    var leads := (i: nat, j: nat) => Leads(ps, i, j);
    forall i: nat, j: nat | i < j < |ps| ensures if IsBetter(ps[j], ps[i]) then leads(j, i) else leads(i, j) {
      LaterLeads(ps, i, j);
    }
    forall u: nat, v: nat, w: nat | leads(u, v) && leads(v, w) ensures leads(u, w) {
      LeadsIsStrictOrder(ps, u, v, w);
    }
    SinglePassFindsLeader(ps, |ps|, leads);
    forall j: nat | j < |ps| && j != SinglePass(ps, |ps|) ensures Leads(ps, SinglePass(ps, |ps|), j) {
      assert leads(SinglePass(ps, |ps|), j);
    }
  }

  /** When all candidates share one neighbouring AS, the single pass selects the very path
      the two-level reduction selects. When all MEDs are equal, it selects a path with the
      same decision key. */
  lemma SinglePassAgrees(ps: seq<Path>)
    requires ps != []
    ensures OneAs(ps) ==> SinglePass(ps, |ps|) == Choice(ps)
    ensures OneMed(ps) ==> MedKey(ps[SinglePass(ps, |ps|)]) == MedKey(ps[Choice(ps)])
  {
    var w, c := SinglePass(ps, |ps|), Choice(ps);
    if OneAs(ps) {
      SinglePassFindsFirstBest(ps);
      if w != c {
        assert Before(ps, c, w);
        LeadsIsStrictOrder(ps, w, c, w);
      }
    } else if OneMed(ps) {
      SinglePassFindsFirstBest(ps);
      AsWinnerExists(ps, w);
      var u: nat :| AsWinner(ps, u) && ps[u].peerAs == ps[w].peerAs;
      EqualMedOrder(ps[u], ps[w]);
      MedKeyDeterminesPlainKey(ps[u], ps[w]);
      MedKeyDeterminesPlainKey(ps[w], ps[c]);
      assert u == w || Before(ps, u, w);
      assert c == w || Leads(ps, w, c);
      assert c == u || Ahead(ps, c, u);
      NotBothBetter(PlainKey(ps[w]), PlainKey(ps[u]), PlainKey(ps[c]));
    }
  }

  /** The chain of comparisons that closes the equal-MED case. */
  lemma NotBothBetter(x: seq<int>, y: seq<int>, z: seq<int>)
    requires LexLe(y, x) && LexLe(z, y) && LexLe(x, z)
    ensures x == z
  {
    if x != z {
      LexAsymmetric(x, z);
      if y != x && z != y { LexTransitive(z, y, x); }
    }
  }

  // ---- Exactly when the order does not matter ----------------------------------------------

  /** `w` beats every candidate it does not tie with. */
  predicate Dominates(w: Path, ps: seq<Path>) {
    forall x | x in ps :: IsBetter(w, x) || Tie(x, w)
  }

  /** The path a single pass ends with. */
  function PassResult(ps: seq<Path>): Path
    requires ps != []
  {
    ps[SinglePass(ps, |ps|)]
  }

  lemma BetterIsAsymmetric(a: Path, b: Path)
    ensures !(IsBetter(a, b) && IsBetter(b, a)) && !IsBetter(a, a)
    ensures Tie(a, b) ==> !IsBetter(a, b)
  {
    KeysAreAsymmetric(MedKey(a), MedKey(b));
    KeysAreAsymmetric(PlainKey(a), PlainKey(b));
    IsBetterMeaning(a, a);
    IsBetterMeaning(a, b);
    IsBetterMeaning(b, a);
  }

  lemma KeysAreAsymmetric(x: seq<int>, y: seq<int>)
    ensures !(LexLess(x, y) && LexLess(y, x)) && !LexLess(x, x)
  {
    LexIrreflexive(x);
    if LexLess(x, y) { LexAsymmetric(x, y); }
  }

  /** Paths that tie compare alike with any third. */
  lemma TiedCompareAlike(a: Path, b: Path, x: Path)
    requires Tie(a, b)
    ensures IsBetter(a, x) <==> IsBetter(b, x)
    ensures IsBetter(x, a) <==> IsBetter(x, b)
  {
    IsBetterMeaning(a, x);
    IsBetterMeaning(b, x);
    IsBetterMeaning(x, a);
    IsBetterMeaning(x, b);
    MedKeyDeterminesPlainKey(a, b);
  }

  /** Once a candidate that ties with a dominating path has been seen, such a one is held. */
  lemma {:induction false} PassHoldsTheDominating(ps: seq<Path>, n: nat, w: Path)
    requires 0 < n <= |ps| && Dominates(w, ps) && exists i :: 0 <= i < n && Tie(ps[i], w)
    ensures Tie(ps[SinglePass(ps, n)], w)
  {
    if n > 1 {
      var was, last := ps[SinglePass(ps, n - 1)], ps[n - 1];
      assert was in ps && last in ps;
      BetterIsAsymmetric(last, w);
      if exists i :: 0 <= i < n - 1 && Tie(ps[i], w) {
        PassHoldsTheDominating(ps, n - 1, w);
        TiedCompareAlike(was, w, last);
      } else {
        assert !Tie(was, w);
        TiedCompareAlike(last, w, was);
      }
    }
  }

  /** Candidates that do not tie with `w`, seen from `n` on, do not bring it back. */
  lemma {:induction false} PassStaysAway(ps: seq<Path>, n: nat, m: nat, w: Path)
    requires 0 < n <= m <= |ps| && !Tie(ps[SinglePass(ps, n)], w)
    requires forall i | n <= i < m :: !Tie(ps[i], w)
    ensures !Tie(ps[SinglePass(ps, m)], w)
  {
    if m > n { PassStaysAway(ps, n, m - 1, w); }
  }

  /** What comes first is held against everything that does not beat it. */
  lemma {:induction false} PassHoldsTheFirst(ps: seq<Path>, n: nat)
    requires 0 < n <= |ps| && forall i | 0 < i < n :: !IsBetter(ps[i], ps[0])
    ensures SinglePass(ps, n) == 0
  {
    if n > 1 { PassHoldsTheFirst(ps, n - 1); }
  }

  /** The candidates that tie with `w`, or those that do not, in order. */
  function Those(ps: seq<Path>, w: Path, tied: bool): (r: seq<Path>)
    ensures forall x | x in r :: Tie(x, w) == tied
  {
    if ps == [] then []
    else (if Tie(ps[0], w) == tied then [ps[0]] else []) + Those(ps[1..], w, tied)
  }

  lemma {:induction false} ThoseTogether(ps: seq<Path>, w: Path)
    ensures Reordered(ps, Those(ps, w, true) + Those(ps, w, false))
  {
    if ps != [] {
      ThoseTogether(ps[1..], w);
      assert ps == [ps[0]] + ps[1..];
    }
  }

  lemma LastBeats(rest: seq<Path>, w: Path, x: Path)
    requires IsBetter(x, w) && !Tie(x, w)
    ensures !Tie(PassResult(rest + [x]), w)
  {
    var qs := rest + [x];
    if rest != [] {
      var was := qs[SinglePass(qs, |rest|)];
      if Tie(was, w) { TiedCompareAlike(was, w, x); }
    }
  }

  lemma FirstIsKept(x: Path, tied: seq<Path>, others: seq<Path>, w: Path)
    requires !IsBetter(w, x) && !Tie(x, w)
    requires (forall y | y in tied :: Tie(y, w)) && (forall y | y in others :: !Tie(y, w))
    ensures !Tie(PassResult([x] + tied + others), w)
  {
    var qs, n := [x] + tied + others, 1 + |tied|;
    forall i | 0 < i < n ensures !IsBetter(qs[i], qs[0]) {
      assert qs[i] == tied[i - 1];
      TiedCompareAlike(qs[i], w, x);
    }
    PassHoldsTheFirst(qs, n);
    forall i | n <= i < |qs| ensures !Tie(qs[i], w) { assert qs[i] == others[i - n]; }
    PassStaysAway(qs, n, |qs|, w);
  }

  /** A candidate that `w` neither beats nor ties with can be placed so that the pass ends
      away from `w`: last if it beats `w`, else first, before all that tie with `w`. */
  lemma PassEndsElsewhere(ps: seq<Path>, w: Path, x: Path) returns (qs: seq<Path>)
    requires x in ps && !IsBetter(w, x) && !Tie(x, w)
    ensures Reordered(ps, qs) && qs != [] && !Tie(PassResult(qs), w)
  {
    var rest := OfferedFirst(ps, x);
    if IsBetter(x, w) {
      qs := rest + [x];
      LastBeats(rest, w, x);
    } else {
      var tied, others := Those(rest, w, true), Those(rest, w, false);
      ThoseTogether(rest, w);
      qs := [x] + tied + others;
      assert qs == [x] + (tied + others);
      FirstIsKept(x, tied, others, w);
    }
  }

  /** In every order the pass ends with a path that ties with `w` exactly when `w` beats every
      candidate it does not tie with. */
  lemma PassAlwaysFinds(ps: seq<Path>, w: Path)
    requires w in ps
    ensures (forall qs | Reordered(ps, qs) :: qs != [] && Tie(PassResult(qs), w)) <==> Dominates(w, ps)
  {
    if Dominates(w, ps) {
      forall qs | Reordered(ps, qs) ensures qs != [] && Tie(PassResult(qs), w) {
        SameCandidates(ps, qs);
        var i :| 0 <= i < |qs| && qs[i] == w;
        PassHoldsTheDominating(qs, |qs|, w);
      }
    } else {
      var x :| x in ps && !IsBetter(w, x) && !Tie(x, w);
      var qs := PassEndsElsewhere(ps, w, x);
      assert Reordered(ps, qs) && !Tie(PassResult(qs), w);
    }
  }

  /** The single pass is independent of the order of the candidates exactly when one of them
      beats every other that it does not tie with. */
  lemma PassOrderIndependence(ps: seq<Path>)
    requires ps != []
    ensures (forall qs | Reordered(ps, qs) :: qs != [] && Tie(PassResult(qs), PassResult(ps)))
       <==> (exists w :: w in ps && Dominates(w, ps))
  {
    var r := PassResult(ps);
    PassAlwaysFinds(ps, r);
    if w :| w in ps && Dominates(w, ps) {
      PassAlwaysFinds(ps, w);
      assert Reordered(ps, ps);
      assert Tie(r, w);
      forall qs | Reordered(ps, qs) ensures qs != [] && Tie(PassResult(qs), r) {
        assert Tie(PassResult(qs), w);
      }
    }
  }

  /** In every order the single pass selects what the two-level reduction selects, up to a tie,
      exactly when the two-level winner beats every candidate it does not tie with. */
  lemma PassAlwaysAgrees(ps: seq<Path>)
    requires ps != []
    ensures (forall qs | Reordered(ps, qs) :: qs != [] && Tie(PassResult(qs), ps[Choice(ps)]))
       <==> Dominates(ps[Choice(ps)], ps)
  {
    PassAlwaysFinds(ps, ps[Choice(ps)]);
  }

  /** Order independence is agreement: a dominating candidate ties with the two-level winner. */
  lemma DominatingIsChosen(ps: seq<Path>, w: Path)
    requires ps != [] && w in ps && Dominates(w, ps)
    ensures Tie(ps[Choice(ps)], w)
  {
    var c := Choice(ps);
    if !Tie(ps[c], w) {
      assert ps[c] in ps && IsBetter(w, ps[c]);
      var k :| 0 <= k < |ps| && ps[k] == w;
      AsWinnerExists(ps, k);
      var u: nat :| AsWinner(ps, u) && ps[u].peerAs == w.peerAs;
      ChoiceIsUnbeaten(ps);
      assert ps[u] in ps;
      if Tie(ps[u], w) {
        TiedCompareAlike(ps[u], w, ps[c]);
      } else {
        IsBetterMeaning(w, ps[u]);
        assert Before(ps, u, k);
        LexAsymmetric(MedKey(ps[u]), MedKey(w));
      }
    }
  }

  /** With one neighbouring AS the condition always holds. */
  lemma OneAsIsDominated(ps: seq<Path>)
    requires ps != [] && OneAs(ps)
    ensures Dominates(ps[Choice(ps)], ps)
  {
    var c := Choice(ps);
    forall j | 0 <= j < |ps| ensures IsBetter(ps[c], ps[j]) || Tie(ps[j], ps[c]) {
      IsBetterMeaning(ps[c], ps[j]);
      assert j == c || Before(ps, c, j);
    }
  }

  lemma NoneDominatesACircle(a: Path, b: Path, c: Path)
    requires IsBetter(a, b) && IsBetter(b, c) && IsBetter(c, a)
    ensures forall w | w in [a, b, c] :: !Dominates(w, [a, b, c])
  {
    BetterIsAsymmetric(a, b);
    BetterIsAsymmetric(b, c);
    BetterIsAsymmetric(c, a);
    assert a in [a, b, c] && b in [a, b, c] && c in [a, b, c];
  }

  /** An input that fails the condition: three paths, two orders, two results. */
  lemma SinglePassMayDisagree()
    ensures
      var a, b, c := SamplePath(100, 20, 1), SamplePath(200, 0, 2), SamplePath(100, 10, 3);
      && multiset([a, b, c]) == multiset([c, b, a])
      && [a, b, c][SinglePass([a, b, c], 3)] == c && [c, b, a][SinglePass([c, b, a], 3)] == a
      && [a, b, c][Choice([a, b, c])] == b && forall w | w in [a, b, c] :: !Dominates(w, [a, b, c])
  {
    var a, b, c := SamplePath(100, 20, 1), SamplePath(200, 0, 2), SamplePath(100, 10, 3);
    ChoiceMayBeBeatenByAMedLoser();
    SampleComparisons();
    ThreePathPass(a, b, c);
    ThreePathPass(c, b, a);
    NoneDominatesACircle(a, b, c);
  }

  lemma ThreePathPass(a: Path, b: Path, c: Path)
    ensures
      var ab := if IsBetter(b, a) then b else a;
      [a, b, c][SinglePass([a, b, c], 3)] == if IsBetter(c, ab) then c else ab
  {
    var ps := [a, b, c];
    assert SinglePass(ps, 1) == 0;
    assert SinglePass(ps, 2) == if IsBetter(b, a) then 1 else 0;
  }

  lemma SampleComparisons()
    ensures
      var a, b, c := SamplePath(100, 20, 1), SamplePath(200, 0, 2), SamplePath(100, 10, 3);
      && IsBetter(a, b) && IsBetter(b, c) && IsBetter(c, a)
      && !IsBetter(b, a) && !IsBetter(c, b) && !IsBetter(a, c)
  {
  }
}
