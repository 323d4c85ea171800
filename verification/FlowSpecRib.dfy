/** The key of the FlowSpec table (`flowspec_rib.rs`): an NLRI is compared by its address
    family and its canonical encoding. */
module FlowSpecRibModel {
  import opened Wrappers
  import opened Net
  import opened Orders
  import opened PrefixCodec
  import opened Framing
  import opened FlowSpecModel

  datatype FlowSpecNlri = FlowSpecNlri(afi: u16, spec: FlowSpec)

  datatype Ordering = Less | Equal | Greater

  function Reverse(o: Ordering): Ordering {
    match o
    case Less => Greater
    case Equal => Equal
    case Greater => Less
  }

  /** `sort_key`: the family, then the encoding octet by octet. */
  function SortKey(n: FlowSpecNlri): seq<int> {
    [n.afi] + Encode(n.spec)
  }

  function Compare(a: FlowSpecNlri, b: FlowSpecNlri): Ordering {
    var x, y := SortKey(a), SortKey(b);
    if x == y then Equal else if LexLess(x, y) then Less else Greater
  }

  /** `cmp` is a total order up to the encoding. */
  lemma CompareIsATotalOrder(a: FlowSpecNlri, b: FlowSpecNlri, c: FlowSpecNlri)
    ensures Compare(a, a) == Equal
    ensures Compare(b, a) == Reverse(Compare(a, b))
    ensures Compare(a, b) == Equal ==> Compare(a, c) == Compare(b, c)
    ensures Compare(a, b) == Less && Compare(b, c) == Less ==> Compare(a, c) == Less
  {
    SortKeysOrder(SortKey(a), SortKey(b), SortKey(c));
  }

  lemma SortKeysOrder(x: seq<int>, y: seq<int>, z: seq<int>)
    ensures x != y ==> (LexLess(x, y) <==> !LexLess(y, x))
    ensures !LexLess(x, x)
    ensures LexLess(x, y) && LexLess(y, z) ==> LexLess(x, z) && x != z
  {
    LexTotal(x, y);
    LexIrreflexive(x);
    if LexLess(x, y) {
      LexAsymmetric(x, y);
      if LexLess(y, z) { LexTransitive(x, y, z); }
    }
  }

  /** Two NLRI that the codec carries are one key exactly when they name the same family and
      the same components up to their order across types. */
  lemma EqualKeys(a: FlowSpecNlri, b: FlowSpecNlri)
    requires AllSendable(a.spec) && AllSendable(b.spec)
    ensures Compare(a, b) == Equal <==> a.afi == b.afi && StableSort(a.spec) == StableSort(b.spec)
  {
    AppendInjective([a.afi], Encode(a.spec), [b.afi], Encode(b.spec));
    EncodingIsCanonical(a.spec, b.spec);
  }

  /** Decoded NLRI in type order are one key only when they are equal. */
  lemma SortedKeysAreEqual(a: FlowSpecNlri, b: FlowSpecNlri)
    requires AllSendable(a.spec) && AllSendable(b.spec)
    requires SortedByType(a.spec) && SortedByType(b.spec)
    ensures Compare(a, b) == Equal <==> a == b
  {
    EqualKeys(a, b);
    SortingASorted(a.spec);
    SortingASorted(b.spec);
  }

  /** Out of type order they need not be: the derived equality and `cmp` disagree. */
  lemma EqualKeysNeedNotBeEqual() returns (a: FlowSpecNlri, b: FlowSpecNlri)
    ensures AllSendable(a.spec) && AllSendable(b.spec)
    ensures Compare(a, b) == Equal && a != b
  {
    var proto := Numeric(IpProto, [NumOp(false, false, false, true, 6)]);
    var port := Numeric(DestPort, [NumOp(false, false, false, true, 22)]);
    a := FlowSpecNlri(1, [proto, port]);
    b := FlowSpecNlri(1, [port, proto]);
    assert [port, proto][1..] == [proto] && [proto, port][1..] == [port];
    assert StableSort([port]) == [port] && StableSort([proto]) == [proto];
    assert InsertByType(port, [proto]) == [proto, port];
    EqualKeys(a, b);
  }

  /** A rule is in type order exactly when no other rule in type order is the same key. */
  lemma OneSortedKey(a: FlowSpecNlri)
    requires AllSendable(a.spec)
    ensures SortedByType(a.spec) <==>
      forall b: FlowSpecNlri | AllSendable(b.spec) && SortedByType(b.spec) && Compare(a, b) == Equal :: b == a
  {
    if SortedByType(a.spec) {
      forall b: FlowSpecNlri | AllSendable(b.spec) && SortedByType(b.spec) && Compare(a, b) == Equal ensures b == a {
        SortedKeysAreEqual(a, b);
      }
    } else {
      var b := a.(spec := StableSort(a.spec));
      StableSortMeaning(a.spec);
      SortMembers(a.spec);
      SortingASorted(b.spec);
      EqualKeys(a, b);
    }
  }

  /** All components are of one type. */
  predicate OneType(cs: seq<Component>) {
    forall i, j | 0 <= i < j < |cs| :: cs[i].TypeCode() == cs[j].TypeCode()
  }

  lemma {:induction false} OfTypeAppend(a: seq<Component>, b: seq<Component>, code: u8)
    ensures OfType(a + b, code) == OfType(a, code) + OfType(b, code)
  {
    if a == [] {
      assert a + b == b;
    } else {
      assert a + b == [a[0]] + (a[1..] + b) && a == [a[0]] + a[1..];
      OfTypeCons(a[0], a[1..] + b, code);
      OfTypeCons(a[0], a[1..], code);
      OfTypeAppend(a[1..], b, code);
      AppendAssociates([a[0]], OfType(a[1..], code), OfType(b, code));
    }
  }

  /** No type occurs in both. */
  ghost predicate Apart(front: seq<Component>, back: seq<Component>) {
    forall code: u8 :: OfType(front, code) == [] || OfType(back, code) == []
  }

  /** Components of different types can change places without changing the sort. */
  lemma SwappedTypesSortAlike(front: seq<Component>, back: seq<Component>)
    requires Apart(front, back)
    ensures StableSort(back + front) == StableSort(front + back)
  {
    var x, y := front + back, back + front;
    StableSortMeaning(x);
    StableSortMeaning(y);
    forall code ensures OfType(StableSort(y), code) == OfType(StableSort(x), code) {
      OfTypeAppend(front, back, code);
      OfTypeAppend(back, front, code);
    }
    SortedIsUnique(StableSort(y), StableSort(x));
  }

  /** Where a sorted rule of several types goes from one type to a greater one. */
  lemma TypeBoundary(cs: seq<Component>) returns (j: nat)
    requires SortedByType(cs) && !OneType(cs)
    ensures 0 < j < |cs| && cs[j - 1].TypeCode() < cs[j].TypeCode()
  {
    var i, k :| 0 <= i < k < |cs| && cs[i].TypeCode() != cs[k].TypeCode();
    j := k;
    while cs[j - 1].TypeCode() == cs[k].TypeCode()
      invariant i < j <= k && cs[j].TypeCode() == cs[k].TypeCode()
      decreases j
    {
      j := j - 1;
    }
  }

  lemma NoneOfType(cs: seq<Component>, code: u8)
    requires forall i | 0 <= i < |cs| :: cs[i].TypeCode() != code
    ensures OfType(cs, code) == []
  {
    OfTypeMembers(cs, code);
    assert OfType(cs, code) != [] ==> OfType(cs, code)[0] in OfType(cs, code);
  }

  lemma BoundarySeparates(cs: seq<Component>, j: nat)
    requires SortedByType(cs) && 0 < j < |cs| && cs[j - 1].TypeCode() < cs[j].TypeCode()
    ensures Apart(cs[..j], cs[j..])
  {
    forall code: u8 ensures OfType(cs[..j], code) == [] || OfType(cs[j..], code) == [] {
      if code <= cs[j - 1].TypeCode() {
        forall i | 0 <= i < |cs[j..]| ensures cs[j..][i].TypeCode() != code {
          assert cs[j].TypeCode() <= cs[j + i].TypeCode();
        }
        NoneOfType(cs[j..], code);
      } else {
        forall i | 0 <= i < j ensures cs[..j][i].TypeCode() != code {
          assert cs[i].TypeCode() <= cs[j - 1].TypeCode();
        }
        NoneOfType(cs[..j], code);
      }
    }
  }

  /** Another order of a sorted rule of several types. */
  lemma SwappedOrder(cs: seq<Component>) returns (front: seq<Component>, back: seq<Component>)
    requires SortedByType(cs) && !OneType(cs)
    ensures cs == front + back && Apart(front, back)
    ensures front != [] && back != [] && front[0].TypeCode() < back[0].TypeCode()
  {
    var j := TypeBoundary(cs);
    BoundarySeparates(cs, j);
    front, back := cs[..j], cs[j..];
    assert cs[0].TypeCode() <= cs[j - 1].TypeCode();
  }

  /** A rule with components of two types has another order. */
  lemma AnotherOrder(cs: seq<Component>) returns (ds: seq<Component>)
    requires !OneType(cs)
    ensures ds != cs && StableSort(ds) == StableSort(cs)
  {
    if SortedByType(cs) {
      var front, back := SwappedOrder(cs);
      SwappedTypesSortAlike(front, back);
      ds := back + front;
      assert ds[0] == back[0] && cs[0] == front[0];
    } else {
      ds := StableSort(cs);
      StableSortMeaning(cs);
      SortingASorted(ds);
    }
  }

  /** Two types in one rule: some other rule is the same key. */
  lemma AnotherKey(a: FlowSpecNlri) returns (b: FlowSpecNlri)
    requires AllSendable(a.spec) && !OneType(a.spec)
    ensures AllSendable(b.spec) && Compare(a, b) == Equal && b != a
  {
    var cs := AnotherOrder(a.spec);
    b := a.(spec := cs);
    SortMembers(a.spec);
    SortMembers(b.spec);
    EqualKeys(a, b);
  }

  /** A rule of one type has no other order. */
  lemma OneOrder(cs: seq<Component>, ds: seq<Component>)
    requires OneType(cs) && StableSort(ds) == StableSort(cs)
    ensures ds == cs
  {
    SortingASorted(cs);
    SortMembers(ds);
    forall i, j | 0 <= i < j < |ds| ensures ds[i].TypeCode() <= ds[j].TypeCode() {
      assert ds[i] in cs && ds[j] in cs;
    }
    SortingASorted(ds);
  }

  /** `cmp` agrees with derived equality on a rule, against every other, exactly when all its
      components are of one type. */
  lemma EqualityAgrees(a: FlowSpecNlri)
    requires AllSendable(a.spec)
    ensures OneType(a.spec) <==> forall b: FlowSpecNlri | AllSendable(b.spec) && Compare(a, b) == Equal :: b == a
  {
    if OneType(a.spec) {
      forall b: FlowSpecNlri | AllSendable(b.spec) && Compare(a, b) == Equal ensures b == a {
        EqualKeys(a, b);
        OneOrder(a.spec, b.spec);
      }
    } else {
      var b := AnotherKey(a);
    }
  }

  // ---- IPv6 prefixes -------------------------------------------------------------------------

  function ZeroV6(len: u8): (p: Network)
    requires len <= 128
    ensures p.addr.V6? && p.len == len
  {
    NewPrefix(V6(seq(16, i => 0)), len).value
  }

  /** What the encoding keeps of a component whose prefix is an IPv6 one: the length. */
  function Blurred(c: Component): Component {
    match c
    case DestPrefix(p) => if p.addr.V6? then DestPrefix(ZeroV6(p.len)) else c
    case SrcPrefix(p) => if p.addr.V6? then SrcPrefix(ZeroV6(p.len)) else c
    case _ => c
  }

  /** A component as an AFI 2 rule would hold it. */
  predicate Ipv6Component(c: Component) {
    match c
    case DestPrefix(p) => p.addr.V6?
    case SrcPrefix(p) => p.addr.V6?
    case _ => c.Sendable()
  }

  /** A reader that takes a prefix component for its length alone. */
  function ReadBlurred(buf: Bytes): (r: Option<(Component, nat)>)
    ensures r.Some? ==> 1 <= r.value.1 <= |buf|
  {
    if buf == [] then None
    else if buf[0] == 1 || buf[0] == 2 then
      if |buf| < 2 || buf[1] > 128 then None
      else Some((if buf[0] == 1 then DestPrefix(ZeroV6(buf[1])) else SrcPrefix(ZeroV6(buf[1])), 2))
    else DecodeComponent(buf)
  }

  lemma BlurredReads(c: Component)
    requires Ipv6Component(c)
    ensures Reads(ReadBlurred, EncodeComponent(c), Blurred(c))
    ensures EncodeComponent(Blurred(c)) == EncodeComponent(c)
  {
    if c.DestPrefix? || c.SrcPrefix? {
      assert EncodeComponent(c) == [c.TypeCode(), c.prefix.len];
      forall rest: Bytes ensures ReadBlurred(EncodeComponent(c) + rest) == Some((Blurred(c), 2)) {
        assert (EncodeComponent(c) + rest)[0] == c.TypeCode() && (EncodeComponent(c) + rest)[1] == c.prefix.len;
      }
    } else {
      ComponentReadsBack(c);
      forall rest: Bytes ensures ReadBlurred(EncodeComponent(c) + rest) == Some((c, |EncodeComponent(c)|)) {
        assert DecodeComponent(EncodeComponent(c) + rest) == Some((c, |EncodeComponent(c)|));
        assert (EncodeComponent(c) + rest)[0] == c.TypeCode();
      }
    }
  }

  lemma BlurredBody(fs: FlowSpec)
    requires forall c | c in fs :: Ipv6Component(c)
    ensures DecodeEach(Body(fs), ReadBlurred) == Some(Each(StableSort(fs), Blurred))
    ensures Body(fs) == EncodeComponents(Each(StableSort(fs), Blurred))
  {
    var cs := StableSort(fs);
    SortMembers(fs);
    forall i | 0 <= i < |cs|
      ensures Reads(ReadBlurred, EncodeComponent(cs[i]), Blurred(cs[i]))
      ensures EncodeComponent(Blurred(cs[i])) == EncodeComponent(cs[i])
    {
      BlurredReads(cs[i]);
    }
    JoinedReadsBack(Each(cs, EncodeComponent), Each(cs, Blurred), ReadBlurred);
    assert Each(Each(cs, Blurred), EncodeComponent) == Each(cs, EncodeComponent);
  }

  /** Rules over IPv6 prefixes are one key exactly when they agree up to the addresses: of such
      a prefix only the length is encoded. */
  lemma Ipv6PrefixKeys(a: FlowSpecNlri, b: FlowSpecNlri)
    requires forall c | c in a.spec + b.spec :: Ipv6Component(c)
    ensures Compare(a, b) == Equal <==>
      a.afi == b.afi && Each(StableSort(a.spec), Blurred) == Each(StableSort(b.spec), Blurred)
  {
    AppendInjective([a.afi], Encode(a.spec), [b.afi], Encode(b.spec));
    EncodingIsItsBody(a.spec, b.spec);
    assert forall c | c in a.spec || c in b.spec :: c in a.spec + b.spec;
    BlurredBody(a.spec);
    BlurredBody(b.spec);
  }
}
