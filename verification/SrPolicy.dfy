/** SR Policy selection (`sr_policy_rib.rs`; section 2.9 of RFC 9256): the active candidate of
    every policy, found in one pass over the table's sorted keys. */
module SrPolicyModel {
  import opened Wrappers
  import opened Net
  import opened Orders

  /** A candidate path's contents: its preference, and the binding SID, priority, name and
      segment lists, which selection does not read. */
  datatype Encoding = Encoding(preference: Option<u32>, contents: Bytes) {
    /** Without a preference, 100. */
    function EffectivePreference(): u32 {
      if preference.Some? then preference.value else 100
    }
  }

  datatype Nlri = Nlri(color: u32, endpoint: IpAddr, distinguisher: u32) {
    /** A policy is a colour and an endpoint; a distinguisher tells its candidates apart. */
    predicate SamePolicy(n: Nlri) {
      color == n.color && endpoint == n.endpoint
    }
  }

  /** The derived order: colour, endpoint, distinguisher. */
  function NlriRank(n: Nlri): seq<int> {
    PolicyRank(n) + [n.distinguisher]
  }

  function PolicyRank(n: Nlri): seq<int> {
    [n.color] + AddrRank(n.endpoint)
  }

  datatype InstalledPolicy = InstalledPolicy(color: u32, endpoint: IpAddr, distinguisher: u32, encoding: Encoding) {
    function Key(): Nlri {
      Nlri(color, endpoint, distinguisher)
    }
  }

  /** `(preference, distinguisher)` of `p` is at least that of the candidate. */
  predicate AtLeast(p: InstalledPolicy, n: Nlri, e: Encoding) {
    var mine, its := p.encoding.EffectivePreference(), e.EffectivePreference();
    mine > its || (mine == its && p.distinguisher >= n.distinguisher)
  }

  /** `p` is the greatest candidate of `n`'s policy, as far as `n` is concerned. */
  predicate Covers(p: InstalledPolicy, n: Nlri, e: Encoding) {
    p.Key().SamePolicy(n) && AtLeast(p, n, e)
  }

  /** The order of policies: colour, endpoint. */
  predicate PolicyBefore(a: Nlri, b: Nlri) {
    LexLess(PolicyRank(a), PolicyRank(b))
  }

  /** The result over the candidates `s`: policies in strictly ascending order, each entry one
      of the candidates, and every candidate covered. */
  ghost predicate Grouped(out: seq<InstalledPolicy>, s: set<Nlri>, best: map<Nlri, Encoding>,
                          before: (Nlri, Nlri) -> bool, covers: (InstalledPolicy, Nlri, Encoding) -> bool)
    requires s <= best.Keys
  {
    && (forall i, j | 0 <= i < j < |out| :: before(out[i].Key(), out[j].Key()))
    && (forall i | 0 <= i < |out| :: out[i].Key() in s && out[i].encoding == best[out[i].Key()])
    && (forall n {:trigger IsCovered(out, n, best[n], covers)} | n in s :: IsCovered(out, n, best[n], covers))
  }

  ghost predicate IsCovered(out: seq<InstalledPolicy>, n: Nlri, e: Encoding,
                            covers: (InstalledPolicy, Nlri, Encoding) -> bool) {
    exists i :: 0 <= i < |out| && covers(out[i], n, e)
  }

  ghost predicate IsInstalled(out: seq<InstalledPolicy>, best: map<Nlri, Encoding>) {
    Grouped(out, best.Keys, best, PolicyBefore, Covers)
  }

  // ---- The order of the keys groups the policies -------------------------------------------------

  lemma NlriRankInjective()
    ensures Injective(NlriRank)
  {
    AddrRankInjective();
    forall a, b | NlriRank(a) == NlriRank(b) ensures a == b {
      var x, y := NlriRank(a), NlriRank(b);
      assert PolicyRank(a) == x[..|x| - 1] && PolicyRank(b) == y[..|y| - 1];
      assert a.distinguisher == x[|x| - 1] && b.distinguisher == y[|y| - 1];
      PolicyRankMeaning(a, b);
    }
  }

  lemma PolicyRankMeaning(a: Nlri, b: Nlri)
    ensures PolicyRank(a) == PolicyRank(b) <==> a.SamePolicy(b)
    ensures PolicyRank(a) <= PolicyRank(b) ==> a.SamePolicy(b)
  {
    AddrRankInjective();
    assert PolicyRank(a)[1..] == AddrRank(a.endpoint) && PolicyRank(b)[1..] == AddrRank(b.endpoint);
    if PolicyRank(a) <= PolicyRank(b) {
      assert PolicyRank(a)[0] == PolicyRank(b)[0] && PolicyRank(a)[1] == PolicyRank(b)[1];
      assert PolicyRank(a) == PolicyRank(b);
    }
  }

  /** What is appended cannot undo a difference. */
  lemma {:induction false} LexExtend(a: seq<int>, b: seq<int>, u: seq<int>, v: seq<int>)
    requires LexLess(a, b) && !(a <= b)
    ensures LexLess(a + u, b + v)
  {
    if a[0] == b[0] {
      assert (a + u)[1..] == a[1..] + u && (b + v)[1..] == b[1..] + v;
      LexExtend(a[1..], b[1..], u, v);
    }
  }

  lemma KeysGroupPolicies(a: Nlri, b: Nlri)
    requires LexLess(NlriRank(a), NlriRank(b)) && !a.SamePolicy(b)
    ensures PolicyBefore(a, b)
  {
    PolicyRankMeaning(a, b);
    PolicyRankMeaning(b, a);
    LexTotal(PolicyRank(a), PolicyRank(b));
    if LexLess(PolicyRank(b), PolicyRank(a)) {
      LexExtend(PolicyRank(b), PolicyRank(a), [b.distinguisher], [a.distinguisher]);
      LexAsymmetric(NlriRank(b), NlriRank(a));
    }
  }

  /** Policies are strictly ordered, and candidates of one policy are not told apart. */
  ghost predicate IsOrder(before: (Nlri, Nlri) -> bool) {
    && (forall a {:trigger before(a, a)} :: !before(a, a))
    && (forall a, b, c {:trigger before(a, b), before(b, c)} :: before(a, b) && before(b, c) ==> before(a, c))
    && (forall a: Nlri, b: Nlri, c: Nlri {:trigger before(a, b), b.SamePolicy(c)} ::
          before(a, b) && b.SamePolicy(c) ==> before(a, c))
    && (forall a: Nlri, b: Nlri, c: Nlri {:trigger before(b, c), a.SamePolicy(b)} ::
          a.SamePolicy(b) && before(b, c) ==> before(a, c))
  }

  lemma PolicyBeforeIsOrder()
    ensures IsOrder(PolicyBefore)
  {
    forall a: Nlri, b: Nlri, c: Nlri
      ensures !PolicyBefore(a, a)
      ensures PolicyBefore(a, b) && PolicyBefore(b, c) ==> PolicyBefore(a, c)
      ensures PolicyBefore(a, b) && b.SamePolicy(c) ==> PolicyBefore(a, c)
      ensures a.SamePolicy(b) && PolicyBefore(b, c) ==> PolicyBefore(a, c)
    {
      RanksOrder(PolicyRank(a), PolicyRank(b), PolicyRank(c));
    }
  }

  lemma RanksOrder(x: seq<int>, y: seq<int>, z: seq<int>)
    ensures !LexLess(x, x)
    ensures LexLess(x, y) && LexLess(y, z) ==> LexLess(x, z)
  {
    LexIrreflexive(x);
    if LexLess(x, y) && LexLess(y, z) { LexTransitive(x, y, z); }
  }

  // ---- The pass ----------------------------------------------------------------------------------

  function Entry(n: Nlri, e: Encoding): InstalledPolicy {
    InstalledPolicy(n.color, n.endpoint, n.distinguisher, e)
  }

  /** A key that opens a new policy comes after every entry so far. */
  lemma Opens(out: seq<InstalledPolicy>, s: set<Nlri>, best: map<Nlri, Encoding>, n: Nlri,
              before: (Nlri, Nlri) -> bool, covers: (InstalledPolicy, Nlri, Encoding) -> bool)
    requires n in best && s <= best.Keys && Grouped(out, s, best, before, covers)
    requires forall i | 0 <= i < |out| :: before(out[i].Key(), n)
    requires covers(Entry(n, best[n]), n, best[n])
    ensures Grouped(out + [Entry(n, best[n])], s + {n}, best, before, covers)
  {
    var now := out + [Entry(n, best[n])];
    assert now[|out|] == Entry(n, best[n]) && Entry(n, best[n]).Key() == n;
    forall m | m in s + {n} ensures IsCovered(now, m, best[m], covers) {
      if m in s {
        assert IsCovered(out, m, best[m], covers);
        var i :| 0 <= i < |out| && covers(out[i], m, best[m]);
        assert now[i] == out[i];
      } else {
        assert covers(now[|out|], m, best[m]);
      }
    }
  }

  /** A key of the last entry's policy that beats it takes its place. */
  lemma Replaces(out: seq<InstalledPolicy>, s: set<Nlri>, best: map<Nlri, Encoding>, n: Nlri,
                 before: (Nlri, Nlri) -> bool, covers: (InstalledPolicy, Nlri, Encoding) -> bool)
    requires n in best && s <= best.Keys && Grouped(out, s, best, before, covers) && out != []
    requires forall a | before(a, out[|out| - 1].Key()) :: before(a, n)
    requires covers(Entry(n, best[n]), n, best[n])
    requires forall m | m in s && covers(out[|out| - 1], m, best[m]) :: covers(Entry(n, best[n]), m, best[m])
    ensures Grouped(out[..|out| - 1] + [Entry(n, best[n])], s + {n}, best, before, covers)
  {
    var k := |out| - 1;
    var p := Entry(n, best[n]);
    var now := out[..k] + [p];
    assert p.Key() == n && now[k] == p;
    forall m | m in s + {n} ensures IsCovered(now, m, best[m], covers) {
      if m in s && !covers(out[k], m, best[m]) {
        assert IsCovered(out, m, best[m], covers);
        var i :| 0 <= i < |out| && covers(out[i], m, best[m]);
        assert now[i] == out[i];
      } else {
        assert covers(now[k], m, best[m]);
      }
    }
  }

  /** A key of the last entry's policy that does not beat it changes nothing. */
  lemma Keeps(out: seq<InstalledPolicy>, s: set<Nlri>, best: map<Nlri, Encoding>, n: Nlri,
              before: (Nlri, Nlri) -> bool, covers: (InstalledPolicy, Nlri, Encoding) -> bool)
    requires n in best && s <= best.Keys && Grouped(out, s, best, before, covers) && out != []
    requires covers(out[|out| - 1], n, best[n])
    ensures Grouped(out, s + {n}, best, before, covers)
  {
    forall m | m in s + {n} ensures IsCovered(out, m, best[m], covers) {
      if m in s {
        assert IsCovered(out, m, best[m], covers);
      } else {
        assert covers(out[|out| - 1], m, best[m]);
      }
    }
  }

  /** What the loop does with one key. */
  function Fold(out: seq<InstalledPolicy>, n: Nlri, e: Encoding): seq<InstalledPolicy> {
    if out != [] && out[|out| - 1].Key().SamePolicy(n) then
      if AtLeast(out[|out| - 1], n, e) then out else out[..|out| - 1] + [Entry(n, e)]
    else out + [Entry(n, e)]
  }

  /** The last entry is of the last key's policy, and the keys to come are larger. */
  ghost predicate Pending(out: seq<InstalledPolicy>, keys: seq<Nlri>, k: nat)
    requires k <= |keys|
  {
    if k == 0 then out == [] else out != [] && out[|out| - 1].Key().SamePolicy(keys[k - 1])
  }

  lemma FoldStep(out: seq<InstalledPolicy>, s: set<Nlri>, best: map<Nlri, Encoding>, keys: seq<Nlri>, k: nat,
                 before: (Nlri, Nlri) -> bool)
    requires k < |keys| && keys[k] in best && s <= best.Keys && Pending(out, keys, k)
    requires Grouped(out, s, best, before, Covers) && IsOrder(before)
    requires k > 0 && !keys[k - 1].SamePolicy(keys[k]) ==> before(keys[k - 1], keys[k])
    ensures Grouped(Fold(out, keys[k], best[keys[k]]), s + {keys[k]}, best, before, Covers)
    ensures Pending(Fold(out, keys[k], best[keys[k]]), keys, k + 1)
  {
    var n := keys[k];
    if out != [] && out[|out| - 1].Key().SamePolicy(n) {
      var last := out[|out| - 1];
      if AtLeast(last, n, best[n]) {
        Keeps(out, s, best, n, before, Covers);
      } else {
        forall a | before(a, last.Key()) ensures before(a, n) {
          assert last.Key().SamePolicy(n);
        }
        Replaces(out, s, best, n, before, Covers);
      }
    } else {
      AllBefore(out, keys, k, before);
      Opens(out, s, best, n, before, Covers);
    }
  }

  lemma AllBefore(out: seq<InstalledPolicy>, keys: seq<Nlri>, k: nat, before: (Nlri, Nlri) -> bool)
    requires k < |keys| && Pending(out, keys, k) && IsOrder(before)
    requires forall i, j | 0 <= i < j < |out| :: before(out[i].Key(), out[j].Key())
    requires out != [] ==> !out[|out| - 1].Key().SamePolicy(keys[k])
    requires k > 0 && !keys[k - 1].SamePolicy(keys[k]) ==> before(keys[k - 1], keys[k])
    ensures forall i | 0 <= i < |out| :: before(out[i].Key(), keys[k])
  {
    forall i | 0 <= i < |out| ensures before(out[i].Key(), keys[k]) {
      var last := out[|out| - 1].Key();
      if i < |out| - 1 {
        assert before(out[i].Key(), last) && last.SamePolicy(keys[k - 1]);
        assert before(out[i].Key(), keys[k - 1]);
      } else {
        assert last.SamePolicy(keys[k - 1]);
      }
    }
  }

  /** The loop, for keys in an order that groups the policies. */
  method FoldAll(keys: seq<Nlri>, best: map<Nlri, Encoding>, ghost before: (Nlri, Nlri) -> bool)
    returns (out: seq<InstalledPolicy>)
    requires IsOrder(before) && forall i | 0 <= i < |keys| :: keys[i] in best
    requires forall k | 0 < k < |keys| :: keys[k - 1].SamePolicy(keys[k]) || before(keys[k - 1], keys[k])
    ensures Grouped(out, (set i | 0 <= i < |keys| :: keys[i]), best, before, Covers)
  {
    out := [];
    ghost var seen: set<Nlri> := {};
    for k := 0 to |keys|
      invariant seen == set i | 0 <= i < k :: keys[i]
      invariant seen <= best.Keys && Grouped(out, seen, best, before, Covers)
      invariant Pending(out, keys, k)
    {
      var nlri, entry := keys[k], best[keys[k]];
      FoldStep(out, seen, best, keys, k, before);
      var pref := entry.EffectivePreference();
      if out != [] && out[|out| - 1].color == nlri.color && out[|out| - 1].endpoint == nlri.endpoint {
        var p := out[|out| - 1];
        var cur := p.encoding.EffectivePreference();
        if pref > cur || (pref == cur && nlri.distinguisher > p.distinguisher) {
          out := out[..|out| - 1] + [p.(distinguisher := nlri.distinguisher, encoding := entry)];
        }
      } else {
        out := out + [InstalledPolicy(nlri.color, nlri.endpoint, nlri.distinguisher, entry)];
      }
      seen := seen + {nlri};
    }
  }

  /** `installed`: the loop compares a candidate with the last entry pushed only. */
  method Installed(best: map<Nlri, Encoding>) returns (out: seq<InstalledPolicy>)
    ensures IsInstalled(out, best)
  {
    NlriRankInjective();
    PolicyBeforeIsOrder();
    var keys := Ascending(best.Keys, NlriRank);
    forall k | 0 < k < |keys| ensures keys[k - 1].SamePolicy(keys[k]) || PolicyBefore(keys[k - 1], keys[k]) {
      if !keys[k - 1].SamePolicy(keys[k]) { KeysGroupPolicies(keys[k - 1], keys[k]); }
    }
    assert (set i | 0 <= i < |keys| :: keys[i]) == best.Keys;
    out := FoldAll(keys, best, PolicyBefore);
  }

  // ---- There is only one such result ---------------------------------------------------------------

  ghost predicate InOrder(a: seq<InstalledPolicy>, before: (Nlri, Nlri) -> bool) {
    forall i, j | 0 <= i < j < |a| :: before(a[i].Key(), a[j].Key())
  }

  lemma {:induction false} AscendingIsUnique(a: seq<InstalledPolicy>, b: seq<InstalledPolicy>,
                                             before: (Nlri, Nlri) -> bool)
    requires IsOrder(before) && InOrder(a, before) && InOrder(b, before)
    requires forall p :: p in a <==> p in b
    ensures a == b
  {
    if a != [] { assert a[0] in b; }
    if b != [] { assert b[0] in a; }
    if a != [] && b != [] {
      SameHead(a, b, before);
      forall p ensures p in a[1..] <==> p in b[1..] {
        HeadIsFirst(a, before);
        HeadIsFirst(b, before);
        assert p in a <==> p == a[0] || p in a[1..];
        assert p in b <==> p == b[0] || p in b[1..];
      }
      AscendingIsUnique(a[1..], b[1..], before);
      assert a == [a[0]] + a[1..] && b == [b[0]] + b[1..];
    }
  }

  lemma HeadIsFirst(a: seq<InstalledPolicy>, before: (Nlri, Nlri) -> bool)
    requires IsOrder(before) && a != [] && InOrder(a, before)
    ensures a[0] !in a[1..]
  {
    forall i | 1 <= i < |a| ensures a[i] != a[0] {
      assert before(a[0].Key(), a[i].Key()) && !before(a[0].Key(), a[0].Key());
    }
  }

  lemma SameHead(a: seq<InstalledPolicy>, b: seq<InstalledPolicy>, before: (Nlri, Nlri) -> bool)
    requires IsOrder(before) && InOrder(a, before) && InOrder(b, before)
    requires a != [] && b != [] && a[0] in b && b[0] in a
    ensures a[0] == b[0]
  {
    var i :| 0 <= i < |b| && b[i] == a[0];
    var j :| 0 <= j < |a| && a[j] == b[0];
    var x, y := a[0].Key(), b[0].Key();
    assert i > 0 ==> before(y, x);
    assert j > 0 ==> before(x, y);
    assert !before(x, x);
  }

  lemma OnePerPolicy(a: seq<InstalledPolicy>, i: nat, j: nat, before: (Nlri, Nlri) -> bool)
    requires IsOrder(before) && InOrder(a, before) && i < |a| && j < |a|
    requires a[i].Key().SamePolicy(a[j].Key())
    ensures i == j
  {
    var x, y := a[i].Key(), a[j].Key();
    assert y.SamePolicy(x);
    assert i < j ==> before(x, y);
    assert j < i ==> before(y, x);
    assert !before(x, x) && !before(y, y);
  }

  lemma InstalledMember(a: seq<InstalledPolicy>, b: seq<InstalledPolicy>, best: map<Nlri, Encoding>, i: nat,
                        before: (Nlri, Nlri) -> bool)
    requires Grouped(a, best.Keys, best, before, Covers) && Grouped(b, best.Keys, best, before, Covers)
    requires IsOrder(before) && i < |a|
    ensures a[i] in b
  {
    var n := a[i].Key();
    assert IsCovered(b, n, best[n], Covers);
    var j :| 0 <= j < |b| && Covers(b[j], n, best[n]);
    var m := b[j].Key();
    assert IsCovered(a, m, best[m], Covers);
    var k :| 0 <= k < |a| && Covers(a[k], m, best[m]);
    OnePerPolicy(a, i, k, before);
    assert a[i] == b[j];
  }

  /** The result is determined: one entry per policy, its greatest candidate. */
  lemma InstalledIsUnique(a: seq<InstalledPolicy>, b: seq<InstalledPolicy>, best: map<Nlri, Encoding>)
    requires IsInstalled(a, best) && IsInstalled(b, best)
    ensures a == b
  {
    PolicyBeforeIsOrder();
    forall i | 0 <= i < |a| ensures a[i] in b { InstalledMember(a, b, best, i, PolicyBefore); }
    forall i | 0 <= i < |b| ensures b[i] in a { InstalledMember(b, a, best, i, PolicyBefore); }
    AscendingIsUnique(a, b, PolicyBefore);
  }
}
