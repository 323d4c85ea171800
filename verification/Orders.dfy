/** Lexicographic order on integer sequences, and the ascending iteration order of
    Rust's `BTreeMap`. Every ordered key type of the crates is compared through a
    rank: the sequence of integers its derived or hand-written `Ord` compares. */
module Orders {

  /** The lexicographic order of slices: a proper prefix is smaller. */
  predicate LexLess(a: seq<int>, b: seq<int>) {
    b != [] && (a == [] || a[0] < b[0] || (a[0] == b[0] && LexLess(a[1..], b[1..])))
  }

  predicate LexLe(a: seq<int>, b: seq<int>) {
    a == b || LexLess(a, b)
  }

  lemma {:induction false} LexIrreflexive(a: seq<int>)
    ensures !LexLess(a, a)
  {
    if a != [] { LexIrreflexive(a[1..]); }
  }

  lemma {:induction false} LexTransitive(a: seq<int>, b: seq<int>, c: seq<int>)
    requires LexLess(a, b) && LexLess(b, c)
    ensures LexLess(a, c)
  {
    if a != [] && a[0] == b[0] == c[0] { LexTransitive(a[1..], b[1..], c[1..]); }
  }

  lemma {:induction false} LexTotal(a: seq<int>, b: seq<int>)
    ensures LexLess(a, b) || a == b || LexLess(b, a)
  {
    if a != [] && b != [] && a[0] == b[0] {
      LexTotal(a[1..], b[1..]);
      if a[1..] == b[1..] { assert a == [a[0]] + a[1..] == b; }
    }
  }

  lemma LexAsymmetric(a: seq<int>, b: seq<int>)
    requires LexLess(a, b)
    ensures !LexLess(b, a) && a != b
  {
    LexIrreflexive(a);
    if LexLess(b, a) { LexTransitive(a, b, a); }
  }

  /** The first position at which two sequences differ decides the comparison. */
  lemma {:induction false} LexAt(a: seq<int>, b: seq<int>, i: nat)
    requires i < |a| && i < |b| && a[..i] == b[..i] && a[i] != b[i]
    ensures LexLess(a, b) <==> a[i] < b[i]
  {
    if i > 0 {
      assert a[0] == a[..i][0] == b[..i][0] == b[0];
      assert a[1..][..i - 1] == a[..i][1..] == b[..i][1..] == b[1..][..i - 1];
      LexAt(a[1..], b[1..], i - 1);
    }
  }

  /** A common front does not affect the comparison. */
  lemma {:induction false} LexFront(front: seq<int>, a: seq<int>, b: seq<int>)
    ensures LexLess(front + a, front + b) <==> LexLess(a, b)
  {
    if front == [] {
      assert front + a == a && front + b == b;
    } else {
      assert (front + a)[1..] == front[1..] + a && (front + b)[1..] == front[1..] + b;
      LexFront(front[1..], a, b);
    }
  }

  lemma AppendInjective<T>(a: seq<T>, b: seq<T>, c: seq<T>, d: seq<T>)
    requires |a| == |c|
    ensures a + b == c + d <==> a == c && b == d
  {
    if a + b == c + d {
      assert a == (a + b)[..|a|] && b == (a + b)[|a|..];
      assert c == (c + d)[..|a|] && d == (c + d)[|a|..];
    }
  }

  // ---- Ascending enumeration of a finite key set -------------------------------

  ghost predicate Injective<K(!new)>(rank: K -> seq<int>) {
    forall x, y :: rank(x) == rank(y) ==> x == y
  }

  predicate Least<K(==)>(k: K, s: set<K>, rank: K -> seq<int>) {
    k in s && forall j | j in s :: j == k || LexLess(rank(k), rank(j))
  }

  /** A finite set has a least element under a relation that is total and transitive on it. */
  lemma {:induction false} LeastBy<K>(s: set<K>, less: (K, K) -> bool) returns (k: K)
    requires s != {}
    requires forall x, y | x in s && y in s && x != y :: less(x, y) || less(y, x)
    requires forall x, y, z | x in s && y in s && z in s && less(x, y) && less(y, z) :: less(x, z)
    ensures k in s && forall j | j in s && j != k :: less(k, j)
    decreases |s|
  {
    k :| k in s;
    var rest := s - {k};
    assert s == rest + {k};
    if rest != {} {
      var m := LeastBy(rest, less);
      if less(k, m) {
        forall j | j in s && j != k ensures less(k, j) {
          if j != m { assert less(m, j); }
        }
      } else {
        assert less(m, k);
        k := m;
      }
    }
  }

  lemma LeastExists<K(!new)>(s: set<K>, rank: K -> seq<int>)
    requires Injective(rank) && s != {}
    ensures exists k :: Least(k, s, rank)
  {
    var less := (x: K, y: K) => LexLess(rank(x), rank(y));
    forall x, y | x in s && y in s && x != y ensures less(x, y) || less(y, x) {
      LexTotal(rank(x), rank(y));
    }
    forall x, y, z | x in s && y in s && z in s && less(x, y) && less(y, z) ensures less(x, z) {
      LexTransitive(rank(x), rank(y), rank(z));
    }
    var k := LeastBy(s, less);
    assert forall j | j in s && j != k :: less(k, j);
    assert Least(k, s, rank);
  }

  lemma LeastUnique<K(!new)>(k: K, l: K, s: set<K>, rank: K -> seq<int>)
    requires Least(k, s, rank) && Least(l, s, rank)
    ensures k == l
  {
    if k != l { LexAsymmetric(rank(k), rank(l)); }
  }

  function TheLeast<K(!new)>(s: set<K>, rank: K -> seq<int>): (k: K)
    requires Injective(rank) && s != {}
    ensures Least(k, s, rank)
  {
    LeastExists(s, rank);
    assert forall k, l | Least(k, s, rank) && Least(l, s, rank) :: k == l by {
      forall k, l | Least(k, s, rank) && Least(l, s, rank) ensures k == l { LeastUnique(k, l, s, rank); }
    }
    var k :| k in s && Least(k, s, rank); k
  }

  ghost predicate StrictlyAscending<K>(r: seq<K>, rank: K -> seq<int>) {
    forall i, j | 0 <= i < j < |r| :: LexLess(rank(r[i]), rank(r[j]))
  }

  /** The keys of `s` in ascending order of rank, as a `BTreeMap` iterates them. */
  function Ascending<K(!new)>(s: set<K>, rank: K -> seq<int>): (r: seq<K>)
    requires Injective(rank)
    ensures forall k :: k in r <==> k in s
    ensures |r| == |s|
    ensures StrictlyAscending(r, rank)
    ensures forall i, j | 0 <= i < j < |r| :: r[i] != r[j]
    decreases |s|
  {
    if s == {} then [] else
      var k := TheLeast(s, rank);
      var rest := Ascending(s - {k}, rank);
      assert forall j | 0 <= j < |rest| :: rest[j] in s - {k};
      assert forall i | 0 <= i < |rest| :: LexLess(rank(k), rank(rest[i]));
      [k] + rest
  }
}
