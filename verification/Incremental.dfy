/** Selection tables kept incrementally: a view that should equal a selection computed
    from scratch, and the stream of changes its consumers replay. */
module Incremental {
  import opened Wrappers

  datatype Change<K, V> =
    | Best(key: K, value: V)
    | Withdrawn(key: K)

  ghost function Lookup<K, V>(view: map<K, V>, k: K): Option<V> {
    if k in view then Some(view[k]) else None
  }

  /** The selection from scratch: `sel` gives the selected value of one key's candidates. */
  ghost function FromScratch<K, P, V>(entries: map<K, P>, sel: P -> Option<V>): map<K, V> {
    map k | k in entries && sel(entries[k]).Some? :: sel(entries[k]).value
  }

  /** The change that reports one key, if it changed. */
  ghost function Diff<K, V>(k: K, before: Option<V>, after: Option<V>): Option<Change<K, V>> {
    if before == after then None
    else if after.Some? then Some(Best(k, after.value))
    else Some(Withdrawn(k))
  }

  /** What a consumer does with one change. */
  ghost function Replay<K, V>(view: map<K, V>, c: Change<K, V>): map<K, V> {
    match c
    case Best(k, v) => view[k := v]
    case Withdrawn(k) => view - {k}
  }

  ghost function ReplayAll<K, V>(view: map<K, V>, cs: seq<Change<K, V>>): map<K, V> {
    if cs == [] then view else Replay(ReplayAll(view, cs[..|cs| - 1]), cs[|cs| - 1])
  }

  /** Every change of the list alters the view it is applied to. */
  ghost predicate EachChanges<K, V>(view: map<K, V>, cs: seq<Change<K, V>>) {
    forall i | 0 <= i < |cs| :: ReplayAll(view, cs[..i + 1]) != ReplayAll(view, cs[..i])
  }

  ghost function Listed<T>(c: Option<T>): seq<T> {
    if c.Some? then [c.value] else []
  }

  ghost predicate Distinct<T>(s: seq<T>) {
    forall i, j | 0 <= i < j < |s| :: s[i] != s[j]
  }

  /** The changes of the listed keys between two views, in order. */
  ghost function DiffAll<K, V>(keys: seq<K>, before: map<K, V>, after: map<K, V>): seq<Change<K, V>> {
    if keys == [] then [] else
      var k := keys[|keys| - 1];
      DiffAll(keys[..|keys| - 1], before, after) + Listed(Diff(k, Lookup(before, k), Lookup(after, k)))
  }

  lemma DiffAllStep<K, V>(keys: seq<K>, k: K, before: map<K, V>, after: map<K, V>)
    ensures DiffAll(keys + [k], before, after)
         == DiffAll(keys, before, after) + Listed(Diff(k, Lookup(before, k), Lookup(after, k)))
  {
    assert (keys + [k])[..|keys|] == keys;
  }

  lemma {:induction false} ReplayAppend<K, V>(view: map<K, V>, a: seq<Change<K, V>>, b: seq<Change<K, V>>)
    ensures ReplayAll(view, a + b) == ReplayAll(ReplayAll(view, a), b)
  {
    if b == [] {
      assert a + b == a;
    } else {
      assert (a + b)[..|a + b| - 1] == a + b[..|b| - 1];
      ReplayAppend(view, a, b[..|b| - 1]);
    }
  }

  lemma ReplayListed<K, V>(view: map<K, V>, c: Option<Change<K, V>>)
    ensures ReplayAll(view, Listed(c)) == if c.Some? then Replay(view, c.value) else view
  {
    if c.Some? {
      assert [c.value][..0] == [];
      assert ReplayAll(view, []) == view;
    }
  }

  lemma SameLookups<K(!new), V>(v: map<K, V>, w: map<K, V>)
    requires forall k :: Lookup(v, k) == Lookup(w, k)
    ensures v == w
  {
    forall k ensures k in v <==> k in w { assert Lookup(v, k) == Lookup(w, k); }
    forall k | k in v ensures v[k] == w[k] { assert Lookup(v, k) == Lookup(w, k); }
  }

  lemma ReplayOneDiff<K(!new), V>(view: map<K, V>, k: K, after: Option<V>)
    ensures
      var c := Diff(k, Lookup(view, k), after);
      var next := if c.Some? then Replay(view, c.value) else view;
      && Lookup(next, k) == after
      && (forall q | q != k :: Lookup(next, q) == Lookup(view, q))
      && (c.Some? ==> next != view)
  {
    var c := Diff(k, Lookup(view, k), after);
    if c.Some? { assert Lookup(Replay(view, c.value), k) != Lookup(view, k); }
  }

  /** `view` is `after` on the listed keys and `before` elsewhere. */
  ghost predicate Moved<K(!new), V>(keys: seq<K>, before: map<K, V>, after: map<K, V>, view: map<K, V>) {
    forall k :: Lookup(view, k) == if k in keys then Lookup(after, k) else Lookup(before, k)
  }

  lemma MovedStep<K(!new), V>(keys: seq<K>, k: K, before: map<K, V>, after: map<K, V>, view: map<K, V>)
    requires Moved(keys, before, after, view) && k !in keys
    ensures
      var c := Diff(k, Lookup(before, k), Lookup(after, k));
      && Moved(keys + [k], before, after, if c.Some? then Replay(view, c.value) else view)
      && (c.Some? ==> Replay(view, c.value) != view)
  {
    assert Lookup(view, k) == Lookup(before, k);
    ReplayOneDiff(view, k, Lookup(after, k));
    var c := Diff(k, Lookup(before, k), Lookup(after, k));
    var next := if c.Some? then Replay(view, c.value) else view;
    forall q ensures Lookup(next, q) == if q in keys + [k] then Lookup(after, q) else Lookup(before, q) {
      if q != k { assert Lookup(next, q) == Lookup(view, q); }
    }
  }

  lemma AppendListed<K, V>(view: map<K, V>, cs: seq<Change<K, V>>, c: Option<Change<K, V>>)
    requires EachChanges(view, cs)
    requires c.Some? ==> Replay(ReplayAll(view, cs), c.value) != ReplayAll(view, cs)
    ensures ReplayAll(view, cs + Listed(c)) ==
      if c.Some? then Replay(ReplayAll(view, cs), c.value) else ReplayAll(view, cs)
    ensures EachChanges(view, cs + Listed(c))
  {
    var all := cs + Listed(c);
    if c.None? {
      assert all == cs;
    } else {
      assert all[..|cs|] == cs && all[..|cs| + 1] == all;
      forall i | 0 <= i < |cs| ensures ReplayAll(view, all[..i + 1]) != ReplayAll(view, all[..i]) {
        assert all[..i + 1] == cs[..i + 1] && all[..i] == cs[..i];
      }
    }
  }

  lemma {:induction false} ReplayDiffAll<K(!new), V>(keys: seq<K>, before: map<K, V>, after: map<K, V>)
    requires Distinct(keys)
    ensures Moved(keys, before, after, ReplayAll(before, DiffAll(keys, before, after)))
    ensures EachChanges(before, DiffAll(keys, before, after))
  {
    if keys != [] {
      var front, k := keys[..|keys| - 1], keys[|keys| - 1];
      assert keys == front + [k];
      ReplayDiffAll(front, before, after);
      var cs := DiffAll(front, before, after);
      MovedStep(front, k, before, after, ReplayAll(before, cs));
      AppendListed(before, cs, Diff(k, Lookup(before, k), Lookup(after, k)));
    }
  }

  lemma {:induction false} NoDiffs<K, V>(keys: seq<K>, view: map<K, V>)
    ensures DiffAll(keys, view, view) == []
  {
    if keys != [] { NoDiffs(keys[..|keys| - 1], view); }
  }

  /** Reporting the diffs of every key that may have changed is enough: replaying them turns
      the old view into the new one, each is a change, and none is sent without one. */
  lemma DiffsReplay<K(!new), V>(keys: seq<K>, before: map<K, V>, after: map<K, V>)
    requires Distinct(keys)
    requires forall k | k !in keys :: Lookup(after, k) == Lookup(before, k)
    ensures ReplayAll(before, DiffAll(keys, before, after)) == after
    ensures EachChanges(before, DiffAll(keys, before, after))
    ensures DiffAll(keys, before, after) == [] <==> after == before
  {
    ReplayDiffAll(keys, before, after);
    var view := ReplayAll(before, DiffAll(keys, before, after));
    forall k ensures Lookup(view, k) == Lookup(after, k) {
      if k !in keys { assert Lookup(after, k) == Lookup(before, k); }
    }
    SameLookups(view, after);
    if after == before { NoDiffs(keys, before); }
  }

  lemma OneKey<K, V>(k: K, before: map<K, V>, after: map<K, V>)
    ensures DiffAll([k], before, after) == Listed(Diff(k, Lookup(before, k), Lookup(after, k)))
  {
    assert DiffAll([k][..0], before, after) == [];
  }

  /** Recomputing the selection of one key brings a view that was right before that key's
      candidates changed up to date. */
  lemma ReselectOneKey<K(!new), P, V>(was: map<K, P>, now: map<K, P>, k: K, sel: P -> Option<V>)
    requires forall q | q != k :: Lookup(now, q) == Lookup(was, q)
    ensures FromScratch(now, sel) ==
      if k in now && sel(now[k]).Some? then FromScratch(was, sel)[k := sel(now[k]).value]
      else FromScratch(was, sel) - {k}
  {
    forall q ensures q != k ==> (q in now <==> q in was) && (q in now ==> now[q] == was[q]) {
      if q != k { assert Lookup(now, q) == Lookup(was, q); }
    }
  }
}
