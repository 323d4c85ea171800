/** Items back to back in a buffer: what every list on the wire is made of. */
module Framing {
  import opened Wrappers
  import opened Net

  /** Byte strings written one after the other. */
  function Joined(chunks: seq<Bytes>): Bytes {
    if chunks == [] then [] else chunks[0] + Joined(chunks[1..])
  }

  lemma {:induction false} JoinedAppend(a: seq<Bytes>, b: seq<Bytes>)
    ensures Joined(a + b) == Joined(a) + Joined(b)
  {
    if a == [] {
      assert a + b == b;
    } else {
      assert (a + b)[1..] == a[1..] + b;
      JoinedAppend(a[1..], b);
    }
  }

  lemma AppendAssociates<T>(a: seq<T>, b: seq<T>, c: seq<T>)
    ensures a + b + c == a + (b + c)
  {
  }

  lemma JoinedStep(chunks: seq<Bytes>, i: nat)
    requires i < |chunks|
    ensures Joined(chunks[..i + 1]) == Joined(chunks[..i]) + chunks[i]
  {
    assert chunks[..i + 1] == chunks[..i] + [chunks[i]];
    assert Joined([chunks[i]]) == chunks[i] + Joined([]);
    JoinedAppend(chunks[..i], [chunks[i]]);
  }

  /** A decoder that uses at least one octet, and only octets that are there. */
  ghost predicate Progresses<T(!new)>(dec: Bytes -> Option<(T, nat)>) {
    forall b: Bytes :: dec(b).Some? ==> 1 <= dec(b).value.1 <= |b|
  }

  /** `dec` reads exactly `chunk`, as `item`, whatever follows. */
  ghost predicate Reads<T(!new)>(dec: Bytes -> Option<(T, nat)>, chunk: Bytes, item: T) {
    forall rest: Bytes :: dec(chunk + rest) == Some((item, |chunk|))
  }

  /** Decode items until the buffer is used up; any failure fails the whole. */
  function DecodeEach<T(!new)>(buf: Bytes, dec: Bytes -> Option<(T, nat)>): (r: Option<seq<T>>)
    requires Progresses(dec)
    decreases |buf|
  {
    if buf == [] then Some([])
    else match dec(buf)
      case None => None
      case Some((item, n)) =>
        assert 1 <= n <= |buf|;
        match DecodeEach(buf[n..], dec)
        case None => None
        case Some(items) => Some([item] + items)
  }

  /** Items that read back one by one read back as a list. */
  lemma {:induction false} JoinedReadsBack<T(!new)>(chunks: seq<Bytes>, items: seq<T>, dec: Bytes -> Option<(T, nat)>)
    requires Progresses(dec) && |chunks| == |items|
    requires forall i | 0 <= i < |chunks| :: Reads(dec, chunks[i], items[i])
    ensures DecodeEach(Joined(chunks), dec) == Some(items)
  {
    if chunks != [] {
      var rest := Joined(chunks[1..]);
      assert Reads(dec, chunks[0], items[0]);
      assert dec(chunks[0] + rest) == Some((items[0], |chunks[0]|));
      assert (chunks[0] + rest)[|chunks[0]|..] == rest;
      JoinedReadsBack(chunks[1..], items[1..], dec);
      assert items == [items[0]] + items[1..];
    }
  }

  /** The same in front of anything else. */
  lemma {:induction false} JoinedThenRest<T(!new)>(chunks: seq<Bytes>, items: seq<T>, rest: Bytes, dec: Bytes -> Option<(T, nat)>)
    requires Progresses(dec) && |chunks| == |items|
    requires forall i | 0 <= i < |chunks| :: Reads(dec, chunks[i], items[i])
    ensures DecodeEach(Joined(chunks) + rest, dec) == After(items, DecodeEach(rest, dec))
  {
    if chunks == [] {
      assert Joined(chunks) + rest == rest;
      assert items == [];
      AfterNothing(DecodeEach(rest, dec));
    } else {
      var b, more := chunks[0], Joined(chunks[1..]);
      AppendAssociates(b, more, rest);
      assert Reads(dec, b, items[0]);
      assert dec(b + (more + rest)) == Some((items[0], |b|));
      assert 1 <= |b|;
      assert (b + (more + rest))[|b|..] == more + rest;
      JoinedThenRest(chunks[1..], items[1..], rest, dec);
      assert items == [items[0]] + items[1..];
      if DecodeEach(rest, dec).Some? {
        AppendAssociates([items[0]], items[1..], DecodeEach(rest, dec).value);
      }
    }
  }

  /** The item `dec` reads off the front of `b` writes back as the octets it took. */
  ghost predicate WritesBack<T(!new)>(b: Bytes, dec: Bytes -> Option<(T, nat)>, enc: T -> Bytes)
    requires Progresses(dec)
  {
    dec(b).Some? ==> enc(dec(b).value.0) == b[..dec(b).value.1]
  }

  lemma CoversOneMore<T(!new)>(buf: Bytes, dec: Bytes -> Option<(T, nat)>, enc: T -> Bytes)
    requires Progresses(dec) && buf != [] && DecodeEach(buf, dec).Some? && WritesBack(buf, dec, enc)
    ensures
      var n := dec(buf).value.1;
      && DecodeEach(buf[n..], dec).Some?
      && Joined(Each(DecodeEach(buf, dec).value, enc)) == buf[..n] + Joined(Each(DecodeEach(buf[n..], dec).value, enc))
  {
    var (item, n) := dec(buf).value;
    var more := DecodeEach(buf[n..], dec).value;
    assert DecodeEach(buf, dec).value == [item] + more;
    assert Each([item] + more, enc)[1..] == Each(more, enc);
  }

  /** A decoder whose items write back as the octets they were read from loses nothing. */
  lemma {:induction false} DecodedCoversBuffer<T(!new)>(buf: Bytes, dec: Bytes -> Option<(T, nat)>, enc: T -> Bytes)
    requires Progresses(dec) && DecodeEach(buf, dec).Some?
    requires forall b: Bytes :: WritesBack(b, dec, enc)
    ensures Joined(Each(DecodeEach(buf, dec).value, enc)) == buf
    decreases |buf|
  {
    if buf != [] {
      var n := dec(buf).value.1;
      assert WritesBack(buf, dec, enc);
      CoversOneMore(buf, dec, enc);
      DecodedCoversBuffer(buf[n..], dec, enc);
      assert buf == buf[..n] + buf[n..];
    }
  }

  /** `dec` never reads `chunk` as `item`. */
  ghost predicate Misreads<T(!new)>(dec: Bytes -> Option<(T, nat)>, chunk: Bytes, item: T) {
    chunk != [] && forall rest: Bytes :: dec(chunk + rest).Some? ==> dec(chunk + rest).value.0 != item
  }

  /** A list reads back exactly when each of its items does. */
  lemma {:induction false} JoinedReadsBackIff<T(!new)>(chunks: seq<Bytes>, items: seq<T>,
                                                       dec: Bytes -> Option<(T, nat)>, good: seq<bool>)
    requires Progresses(dec) && |chunks| == |items| == |good|
    requires forall i | 0 <= i < |good| ::
      if good[i] then Reads(dec, chunks[i], items[i]) else Misreads(dec, chunks[i], items[i])
    ensures DecodeEach(Joined(chunks), dec) == Some(items) <==> false !in good
  {
    if chunks != [] {
      var b, rest := chunks[0], Joined(chunks[1..]);
      assert items == [items[0]] + items[1..] && good == [good[0]] + good[1..];
      if good[0] {
        assert Reads(dec, b, items[0]);
        assert dec(b + rest) == Some((items[0], |b|));
        assert (b + rest)[|b|..] == rest;
        JoinedReadsBackIff(chunks[1..], items[1..], dec, good[1..]);
        OneMoreItem(items, DecodeEach(rest, dec));
      } else {
        assert Misreads(dec, b, items[0]);
        assert dec(b + rest).Some? ==> dec(b + rest).value.0 != items[0];
        assert DecodeEach(b + rest, dec).Some? ==> DecodeEach(b + rest, dec).value[0] == dec(b + rest).value.0;
      }
    }
  }

  lemma OneMoreItem<T>(items: seq<T>, more: Option<seq<T>>)
    requires items != []
    ensures After([items[0]], more) == Some(items) <==> more == Some(items[1..])
  {
    if After([items[0]], more) == Some(items) {
      assert ([items[0]] + more.value)[1..] == more.value;
    }
    assert items == [items[0]] + items[1..];
  }

  /** Items none of which grows when written again do not grow together. */
  lemma {:induction false} ReencodeShorter<T(!new)>(buf: Bytes, dec: Bytes -> Option<(T, nat)>, enc: T -> Bytes)
    requires Progresses(dec) && DecodeEach(buf, dec).Some?
    requires forall b: Bytes :: dec(b).Some? ==> |enc(dec(b).value.0)| <= dec(b).value.1
    ensures |Joined(Each(DecodeEach(buf, dec).value, enc))| <= |buf|
    decreases |buf|
  {
    if buf != [] {
      var n := dec(buf).value.1;
      ReencodeShorter(buf[n..], dec, enc);
      var more := DecodeEach(buf[n..], dec).value;
      var all := DecodeEach(buf, dec).value;
      assert Each(all, enc)[1..] == Each(more, enc);
    }
  }

  /** What holds of every decoded item. */
  lemma {:induction false} EachDecoded<T(!new)>(buf: Bytes, dec: Bytes -> Option<(T, nat)>, good: T -> bool)
    requires Progresses(dec) && DecodeEach(buf, dec).Some?
    requires forall b: Bytes :: dec(b).Some? ==> good(dec(b).value.0)
    ensures forall item | item in DecodeEach(buf, dec).value :: good(item)
    decreases |buf|
  {
    if buf != [] { EachDecoded(buf[dec(buf).value.1..], dec, good); }
  }

  function Each<T, U>(items: seq<T>, f: T -> U): (r: seq<U>)
    ensures |r| == |items| && forall i | 0 <= i < |r| :: r[i] == f(items[i])
  {
    seq(|items|, i requires 0 <= i < |items| => f(items[i]))
  }

  /** The loop that decodes a list, advancing an offset. */
  method PullEach<T(!new)>(buf: Bytes, dec: Bytes -> Option<(T, nat)>) returns (r: Option<seq<T>>)
    requires Progresses(dec)
    ensures r == DecodeEach(buf, dec)
  {
    var items: seq<T>, off := [], 0;
    assert buf[0..] == buf;
    AfterNothing(DecodeEach(buf, dec));
    while off < |buf|
      invariant off <= |buf|
      invariant DecodeEach(buf, dec) == After(items, DecodeEach(buf[off..], dec))
    {
      var next := dec(buf[off..]);
      if next.None? {
        return None;
      }
      assert buf[off..][next.value.1..] == buf[off + next.value.1..];
      AfterAfter(items, next.value.0, DecodeEach(buf[off + next.value.1..], dec));
      items := items + [next.value.0];
      off := off + next.value.1;
    }
    assert items + [] == items;
    r := Some(items);
  }

  function After<T>(front: seq<T>, more: Option<seq<T>>): Option<seq<T>> {
    match more
    case None => None
    case Some(s) => Some(front + s)
  }

  lemma AfterNothing<T>(more: Option<seq<T>>)
    ensures After([], more) == more
  {
    if more.Some? { assert [] + more.value == more.value; }
  }

  lemma AfterAfter<T>(front: seq<T>, item: T, more: Option<seq<T>>)
    ensures After(front, After([item], more)) == After(front + [item], more)
  {
    if more.Some? { assert front + ([item] + more.value) == front + [item] + more.value; }
  }
}
