/** Keys, distances and the recency-ordered lists that a Kademlia table stores. */
module Elements {
  type Bits = seq<bool>

  /** An element of the table: its routing bits, the long key that `kelem_eq` compares,
      and whatever else it carries. */
  datatype Elem = Elem(bits: Bits, key: int, content: int)

  /** `kelem_eq`: the long key is compared, and it determines the routing bits. */
  predicate Same(a: Elem, b: Elem) {
    a.bits == b.bits && a.key == b.key
  }

  /** `bitxor`; the bit vectors must have the same length. */
  function Xor(a: Bits, b: Bits): (r: Bits)
    requires |a| == |b|
    ensures |r| == |a|
    ensures forall i :: 0 <= i < |a| ==> r[i] == (a[i] != b[i])
  {
    seq(|a|, i requires 0 <= i < |a| => a[i] != b[i])
  }

  // ----- Lists of elements -----

  function Filter(s: seq<Elem>, f: Elem -> bool): (r: seq<Elem>)
    ensures |r| <= |s|
    ensures forall x :: x in r <==> x in s && f(x)
  {
    if s == [] then []
    else
      assert s == [s[0]] + s[1..];
      (if f(s[0]) then [s[0]] else []) + Filter(s[1..], f)
  }

  lemma {:induction false} FilterAppend(a: seq<Elem>, b: seq<Elem>, f: Elem -> bool)
    ensures Filter(a + b, f) == Filter(a, f) + Filter(b, f)
  {
    if a == [] {
      assert a + b == b;
    } else {
      assert (a + b)[1..] == a[1..] + b;
      FilterAppend(a[1..], b, f);
    }
  }

  lemma {:induction false} FilterFilter(s: seq<Elem>, f: Elem -> bool, g: Elem -> bool, h: Elem -> bool)
    requires forall x :: x in s ==> (h(x) <==> f(x) && g(x))
    ensures Filter(Filter(s, f), g) == Filter(s, h)
  {
    if s != [] {
      FilterFilter(s[1..], f, g, h);
      assert s[0] in s;
      FilterAppend(if f(s[0]) then [s[0]] else [], Filter(s[1..], f), g);
    }
  }

  lemma {:induction false} FilterAll(s: seq<Elem>, f: Elem -> bool)
    requires forall x :: x in s ==> f(x)
    ensures Filter(s, f) == s
  {
    if s != [] {
      assert s[0] in s;
      FilterAll(s[1..], f);
    }
  }

  lemma {:induction false} FilterNone(s: seq<Elem>, f: Elem -> bool)
    requires forall x :: x in s ==> !f(x)
    ensures Filter(s, f) == []
  {
    if s != [] {
      assert s[0] in s;
      FilterNone(s[1..], f);
    }
  }

  lemma {:induction false} FilterDistinct(s: seq<Elem>, f: Elem -> bool)
    requires Distinct(s)
    ensures Distinct(Filter(s, f))
  {
    if s != [] {
      var t := s[1..];
      FilterDistinct(t, f);
      forall j | 0 <= j < |Filter(t, f)| ensures !Same(s[0], Filter(t, f)[j]) {
        assert Filter(t, f)[j] in t;
      }
    }
  }

  /** No two entries are the same element. */
  ghost predicate Distinct(s: seq<Elem>) {
    forall i, j :: 0 <= i < j < |s| ==> !Same(s[i], s[j])
  }

  /** The list without the element `e`. */
  function Without(s: seq<Elem>, e: Elem): seq<Elem> {
    Filter(s, x => !Same(e, x))
  }

  /** The list after `e` was seen: `e` becomes the most recent entry. */
  function Touched(s: seq<Elem>, e: Elem): seq<Elem> {
    Without(s, e) + [e]
  }

  lemma TouchedDistinct(s: seq<Elem>, e: Elem)
    requires Distinct(s)
    ensures Distinct(Without(s, e)) && Distinct(Touched(s, e))
  {
    FilterDistinct(s, x => !Same(e, x));
    forall i | 0 <= i < |Without(s, e)| ensures !Same(Without(s, e)[i], e) {
      assert Without(s, e)[i] in Without(s, e);
    }
  }

  /** Dropping the one entry that is the same as `e` is `Without`. */
  lemma {:induction false} WithoutAt(s: seq<Elem>, e: Elem, i: nat)
    requires Distinct(s) && i < |s| && Same(e, s[i])
    ensures Without(s, e) == s[..i] + s[i + 1..]
  {
    var f := x => !Same(e, x);
    if i == 0 {
      FilterAll(s[1..], f);
    } else {
      assert Without(s, e) == [s[0]] + Without(s[1..], e);
      WithoutAt(s[1..], e, i - 1);
    }
  }

  lemma WithoutAbsent(s: seq<Elem>, e: Elem)
    requires forall x :: x in s ==> !Same(e, x)
    ensures Without(s, e) == s
  {
    FilterAll(s, x => !Same(e, x));
  }

  // ----- Regions of the key space -----

  /** `e` lies in the subtree reached from the root by the distance bits `p`. */
  predicate InRegion(us: Bits, p: Bits, e: Elem) {
    |e.bits| == |us| && p <= Xor(us, e.bits)
  }

  /** The elements of a region, oldest first. */
  function Region(s: seq<Elem>, us: Bits, p: Bits): seq<Elem> {
    Filter(s, e => InRegion(us, p, e))
  }

  ghost predicate Keyed(s: seq<Elem>, us: Bits) {
    forall e :: e in s ==> |e.bits| == |us|
  }

  lemma RegionAll(s: seq<Elem>, us: Bits)
    requires Keyed(s, us)
    ensures Region(s, us, []) == s
  {
    FilterAll(s, e => InRegion(us, [], e));
  }

  lemma RegionWithout(s: seq<Elem>, us: Bits, p: Bits, e: Elem)
    ensures Region(Without(s, e), us, p) == Without(Region(s, us, p), e)
    ensures !InRegion(us, p, e) ==> Region(Without(s, e), us, p) == Region(s, us, p)
  {
    var f := (x: Elem) => InRegion(us, p, x);
    var g := (x: Elem) => !Same(e, x);
    FilterFilter(s, f, g, x => f(x) && g(x));
    FilterFilter(s, g, f, x => f(x) && g(x));
    if !InRegion(us, p, e) {
      WithoutAbsent(Region(s, us, p), e);
    }
  }

  lemma RegionTouched(s: seq<Elem>, us: Bits, p: Bits, e: Elem)
    ensures InRegion(us, p, e) ==> Region(Touched(s, e), us, p) == Touched(Region(s, us, p), e)
    ensures !InRegion(us, p, e) ==> Region(Touched(s, e), us, p) == Region(s, us, p)
  {
    RegionWithout(s, us, p, e);
    FilterAppend(Without(s, e), [e], x => InRegion(us, p, x));
  }

  /** A smaller region is a sub-list of a larger one. */
  lemma RegionRegion(s: seq<Elem>, us: Bits, p: Bits, q: Bits)
    requires p <= q
    ensures Region(Region(s, us, p), us, q) == Region(s, us, q)
  {
    FilterFilter(s, e => InRegion(us, p, e), e => InRegion(us, q, e), e => InRegion(us, q, e));
  }

  /** When every element of a region lies in a sub-region, the two lists are equal and the
      sibling sub-region is empty. */
  lemma RegionNarrow(s: seq<Elem>, us: Bits, p: Bits, b: bool)
    requires |p| < |us|
    requires forall e :: e in Region(s, us, p) ==> InRegion(us, p + [b], e)
    ensures Region(s, us, p + [b]) == Region(s, us, p)
    ensures Region(s, us, p + [!b]) == []
  {
    RegionRegion(s, us, p, p + [b]);
    FilterAll(Region(s, us, p), e => InRegion(us, p + [b], e));
    forall x | x in s ensures !InRegion(us, p + [!b], x) {
      if InRegion(us, p, x) {
        assert x in Region(s, us, p);
        assert Xor(us, x.bits)[|p|] == (p + [b])[|p|] == b;
        assert (p + [!b])[|p|] == !b;
      } else {
        assert p <= p + [!b];
      }
    }
    FilterNone(s, e => InRegion(us, p + [!b], e));
  }

  /** When one half of a region is empty, the region is its other half. */
  lemma RegionHalf(s: seq<Elem>, us: Bits, p: Bits, b: bool)
    requires |p| < |us|
    requires Region(s, us, p + [!b]) == []
    ensures Region(s, us, p) == Region(s, us, p + [b])
  {
    forall e | e in Region(s, us, p) ensures InRegion(us, p + [b], e) {
      assert e !in Region(s, us, p + [!b]);
      InHalf(us, p, e);
    }
    RegionNarrow(s, us, p, b);
  }

  lemma InHalf(us: Bits, p: Bits, e: Elem)
    requires |p| < |us| && InRegion(us, p, e)
    ensures InRegion(us, p + [Xor(us, e.bits)[|p|]], e)
  {
    var d := Xor(us, e.bits);
    assert d[..|p|] == p;
    assert p + [d[|p|]] == d[..|p| + 1];
  }
}
