/** What `get_closest` returns, and which elements a table can take. */
module BucketQueries {
  import opened Sequences
  import opened Elements
  import opened KBuckets
  import opened BucketTree
  import opened BucketGrowth

  // ----- The flat vector of buckets partitions the recency list -----

  ghost predicate Holds(bk: seq<Slot>, i: nat, x: Elem) {
    i < |bk| && bk[i].Some? && x in bk[i].value
  }

  /** Within a subtree: each bucket holds distinct elements of the region, each element of the
      region is in a bucket, and in one only. */
  lemma {:induction false} BucketsPartition(t: Tree, us: Bits, p: Bits, all: seq<Elem>, bt: seq<nat>, bk: seq<Slot>)
    requires Proper(t) && Rep(t, bt, bk, {}) && Sem(t, us, p, all) && Distinct(all)
    ensures forall i, x :: i in Ix(t) && Holds(bk, i, x) ==> x in Region(all, us, p)
    ensures forall x :: x in Region(all, us, p) ==> exists i :: i in Ix(t) && Holds(bk, i, x)
    ensures forall i, j, x :: i in Ix(t) && j in Ix(t) && Holds(bk, i, x) && Holds(bk, j, x) ==> i == j
    ensures forall i :: i in Ix(t) ==> i < |bk| && (bk[i].Some? ==> Distinct(bk[i].value))
  {
    if t.Leaf? {
      FilterDistinct(all, e => InRegion(us, p, e));
      forall x | x in Region(all, us, p) ensures exists i :: i in Ix(t) && Holds(bk, i, x) {
        assert t.ix in Ix(t) && Holds(bk, t.ix, x);
      }
    } else {
      BucketsPartition(t.left, us, p + [false], all, bt, bk);
      BucketsPartition(t.right, us, p + [true], all, bt, bk);
      HalvesDisjoint(all, us, p);
      forall x | x in Region(all, us, p) ensures exists i :: i in Ix(t) && Holds(bk, i, x) {
        InHalf(us, p, x);
        assert x in Region(all, us, p + [false]) || x in Region(all, us, p + [true]);
      }
    }
  }

  lemma HalvesDisjoint(all: seq<Elem>, us: Bits, p: Bits)
    requires |p| < |us|
    ensures forall x :: x in Region(all, us, p + [false]) ==>
              x !in Region(all, us, p + [true]) && x in Region(all, us, p)
    ensures forall x :: x in Region(all, us, p + [true]) ==> x in Region(all, us, p)
  {
    assert p <= p + [false] && p <= p + [true];
    assert (p + [false])[|p|] == false && (p + [true])[|p|] == true;
  }

  // ----- get_closest -----

  /** The completion loop over the slots from `lo` to `hi`: most recent elements first come, first served. */
  function Fill(bk: seq<Slot>, lo: nat, hi: nat, nb: nat): (r: seq<Elem>)
    requires lo <= hi <= |bk|
    ensures |r| <= nb
    decreases hi - lo
  {
    if lo == hi || nb == 0 then []
    else if bk[lo].None? then Fill(bk, lo + 1, hi, nb)
    else
      var r := Latest(bk[lo].value, nb);
      r + Fill(bk, lo + 1, hi, nb - |r|)
  }

  /** The bucket `ix` first, then the later slots, then the earlier ones. */
  function Closest(bk: seq<Slot>, ix: nat, nb: nat): seq<Elem>
    requires ix < |bk| && bk[ix].Some?
  {
    var a := Latest(bk[ix].value, nb);
    var b := Fill(bk, ix + 1, |bk|, nb - |a|);
    a + b + Fill(bk, 0, ix, nb - |a| - |b|)
  }

  ghost predicate Disjoint(bk: seq<Slot>) {
    && (forall i :: 0 <= i < |bk| && bk[i].Some? ==> Distinct(bk[i].value))
    && forall i, j, x :: Holds(bk, i, x) && Holds(bk, j, x) ==> i == j
  }

  ghost predicate Apart(a: seq<Elem>, b: seq<Elem>) {
    forall x :: x in a ==> x !in b
  }

  lemma LatestNoDup(s: seq<Elem>, nb: nat)
    requires Distinct(s)
    ensures NoDup(Latest(s, nb)) && forall x :: x in Latest(s, nb) ==> x in s
  {
  }

  lemma NoDupAppend(a: seq<Elem>, b: seq<Elem>)
    requires NoDup(a) && NoDup(b) && Apart(a, b)
    ensures NoDup(a + b)
  {
    forall i, j | 0 <= i < j < |a + b| ensures (a + b)[i] != (a + b)[j] {
      if i < |a| <= j {
        assert a[i] in a && b[j - |a|] in b;
      }
    }
  }

  ghost predicate InSlots(bk: seq<Slot>, lo: nat, hi: nat, x: Elem) {
    exists i: nat :: lo <= i < hi && Holds(bk, i, x)
  }

  /** An element of one range of slots is in no disjoint range. */
  lemma OneSlot(bk: seq<Slot>, x: Elem, lo: nat, hi: nat, lo': nat, hi': nat)
    requires Disjoint(bk) && InSlots(bk, lo, hi, x) && (hi <= lo' || hi' <= lo)
    ensures !InSlots(bk, lo', hi', x)
  {
  }

  lemma SplitRange(bk: seq<Slot>, x: Elem, lo: nat, mid: nat, hi: nat)
    requires lo <= mid <= hi
    ensures InSlots(bk, lo, hi, x) <==> InSlots(bk, lo, mid, x) || InSlots(bk, mid, hi, x)
  {
  }

  lemma OneRange(bk: seq<Slot>, x: Elem, i: nat)
    ensures InSlots(bk, i, i + 1, x) <==> Holds(bk, i, x)
  {
    assert Holds(bk, i, x) ==> i <= i < i + 1 && Holds(bk, i, x);
  }

  /** `r` is part of what the slots from `lo` to `hi` hold, and all of it when it is short. */
  ghost predicate Covers(r: seq<Elem>, bk: seq<Slot>, lo: nat, hi: nat, short: bool) {
    && NoDup(r)
    && (forall x :: x in r ==> InSlots(bk, lo, hi, x))
    && (short ==> forall x :: InSlots(bk, lo, hi, x) ==> x in r)
  }

  lemma CoversAppend(a: seq<Elem>, b: seq<Elem>, bk: seq<Slot>, lo: nat, mid: nat, hi: nat, short: bool)
    requires lo <= mid <= hi && Disjoint(bk) && Covers(a, bk, lo, mid, short) && Covers(b, bk, mid, hi, short)
    ensures Covers(a + b, bk, lo, hi, short)
  {
    hide Disjoint, InSlots, NoDup;
    forall x | x in a ensures x !in b {
      OneSlot(bk, x, lo, mid, mid, hi);
    }
    NoDupAppend(a, b);
    forall x ensures InSlots(bk, lo, hi, x) <==> InSlots(bk, lo, mid, x) || InSlots(bk, mid, hi, x) {
      SplitRange(bk, x, lo, mid, hi);
    }
  }

  lemma CoversBoth(a: seq<Elem>, b: seq<Elem>, bk: seq<Slot>, lo: nat, mid: nat, hi: nat, nb: nat)
    requires lo <= mid <= hi && Disjoint(bk) && |a| <= nb
    requires Covers(a, bk, lo, mid, |a| < nb) && Covers(b, bk, mid, hi, |b| < nb - |a|)
    ensures Covers(a + b, bk, lo, hi, |a + b| < nb)
  {
    hide Disjoint, Covers;
    var short := |a| + |b| < nb;
    Weaken(a, bk, lo, mid, |a| < nb, short);
    Weaken(b, bk, mid, hi, |b| < nb - |a|, short);
    CoversAppend(a, b, bk, lo, mid, hi, short);
  }

  lemma Weaken(a: seq<Elem>, bk: seq<Slot>, lo: nat, hi: nat, short: bool, short': bool)
    requires Covers(a, bk, lo, hi, short) && (short' ==> short)
    ensures Covers(a, bk, lo, hi, short')
  {
  }

  lemma LatestCovers(bk: seq<Slot>, i: nat, nb: nat)
    requires i < |bk| && bk[i].Some? && Disjoint(bk)
    ensures Covers(Latest(bk[i].value, nb), bk, i, i + 1, |Latest(bk[i].value, nb)| < nb)
  {
    LatestNoDup(bk[i].value, nb);
    forall x ensures InSlots(bk, i, i + 1, x) <==> x in bk[i].value {
      OneRange(bk, x, i);
    }
  }

  lemma NothingCovers(bk: seq<Slot>, lo: nat, hi: nat, short: bool)
    requires lo == hi || !short
    ensures Covers([], bk, lo, hi, short)
  {
  }

  lemma SkipCovers(r: seq<Elem>, bk: seq<Slot>, lo: nat, hi: nat, short: bool)
    requires lo < hi && lo < |bk| && bk[lo].None? && Covers(r, bk, lo + 1, hi, short)
    ensures Covers(r, bk, lo, hi, short)
  {
    assert forall x :: InSlots(bk, lo, hi, x) <==> InSlots(bk, lo + 1, hi, x);
  }

  lemma FillStep(bk: seq<Slot>, lo: nat, hi: nat, nb: nat)
    requires lo <= hi <= |bk|
    ensures Fill(bk, lo, hi, nb) ==
            if lo == hi || nb == 0 then [] else if bk[lo].None? then Fill(bk, lo + 1, hi, nb)
            else Latest(bk[lo].value, nb) + Fill(bk, lo + 1, hi, nb - |Latest(bk[lo].value, nb)|)
  {
  }

  lemma {:induction false} FillCovers(bk: seq<Slot>, lo: nat, hi: nat, nb: nat)
    requires lo <= hi <= |bk| && Disjoint(bk)
    ensures Covers(Fill(bk, lo, hi, nb), bk, lo, hi, |Fill(bk, lo, hi, nb)| < nb)
    decreases hi - lo
  {
    hide Disjoint, Latest, Covers, Fill;
    FillStep(bk, lo, hi, nb);
    if lo == hi || nb == 0 {
      NothingCovers(bk, lo, hi, 0 < nb);
    } else if bk[lo].None? {
      FillCovers(bk, lo + 1, hi, nb);
      SkipCovers(Fill(bk, lo + 1, hi, nb), bk, lo, hi, |Fill(bk, lo, hi, nb)| < nb);
    } else {
      var a := Latest(bk[lo].value, nb);
      LatestCovers(bk, lo, nb);
      FillCovers(bk, lo + 1, hi, nb - |a|);
      CoversBoth(a, Fill(bk, lo + 1, hi, nb - |a|), bk, lo, lo + 1, hi, nb);
    }
  }

  /** Exactly as many elements as asked for, as long as the table has them: all different, all
      stored, the latest of the bucket `ix` first and in its order. */
  lemma ClosestExact(t: Tree, all: seq<Elem>, us: Bits, max: nat, bt: seq<nat>, bk: seq<Slot>, rem: seq<nat>,
                     ix: nat, nb: nat)
    requires TableInv(t, all, us, max, bt, bk, rem, {}) && ix < |bk| && bk[ix].Some?
    ensures var r := Closest(bk, ix, nb);
            && |r| == (if nb <= |all| then nb else |all|)
            && NoDup(r) && (forall x :: x in r ==> x in all)
            && Latest(bk[ix].value, nb) <= r
  {
    hide TableInv, Fill, Disjoint, InSlots, NoDup, Latest;
    SlotsPartition(t, all, us, max, bt, bk, rem);
    var a := Latest(bk[ix].value, nb);
    var b := Fill(bk, ix + 1, |bk|, nb - |a|);
    var c := Fill(bk, 0, ix, nb - |a| - |b|);
    var r := a + b + c;
    LatestCovers(bk, ix, nb);
    FillCovers(bk, ix + 1, |bk|, nb - |a|);
    FillCovers(bk, 0, ix, nb - |a| - |b|);
    CoversAppend(a, b, bk, ix, ix + 1, |bk|, |r| < nb);
    CoversAppend(c, a + b, bk, 0, ix, |bk|, |r| < nb);
    Rotate(c, a + b);
    assert r == Closest(bk, ix, nb);
    forall x | x in r ensures x in all {
      assert x in c + (a + b);
      AnySlot(bk, x);
    }
    SubsetLength(r, all);
    if |r| < nb {
      forall x | x in all ensures x in r {
        AnySlot(bk, x);
        assert x in c + (a + b);
      }
      SubsetLength(all, r);
    }
  }

  lemma Rotate(a: seq<Elem>, b: seq<Elem>)
    requires NoDup(a + b)
    ensures NoDup(b + a)
  {
    forall i, j | 0 <= i < j < |b + a| ensures (b + a)[i] != (b + a)[j] {
      var i' := if i < |b| then i + |a| else i - |b|;
      var j' := if j < |b| then j + |a| else j - |b|;
      assert (b + a)[i] == (a + b)[i'] && (b + a)[j] == (a + b)[j'];
    }
  }

  lemma AnySlot(bk: seq<Slot>, x: Elem)
    ensures InSlots(bk, 0, |bk|, x) <==> exists i: nat :: Holds(bk, i, x)
  {
  }

  /** The slots of a table partition its elements. */
  lemma SlotsPartition(t: Tree, all: seq<Elem>, us: Bits, max: nat, bt: seq<nat>, bk: seq<Slot>, rem: seq<nat>)
    requires TableInv(t, all, us, max, bt, bk, rem, {})
    ensures Disjoint(bk) && NoDup(all)
    ensures forall i, x :: Holds(bk, i, x) ==> x in all
    ensures forall x :: x in all ==> exists i: nat :: Holds(bk, i, x)
  {
    BucketsPartition(t, us, [], all, bt, bk);
    RegionAll(all, us);
  }

  // ----- Which elements can be added -----

  /** The stored elements with the routing bits `bits`. */
  function Collisions(s: seq<Elem>, bits: Bits): seq<Elem> {
    Filter(s, (x: Elem) => x.bits == bits)
  }

  /** The bucket that `e` resolves to, after `e` was added, can be split if it is over-full. */
  ghost predicate Splittable(t: Tree, us: Bits, max: nat, e: Elem)
    requires |e.bits| == |us| && Fits(t, |us|)
  {
    var leaf := LeafAt(t, Xor(us, e.bits), 0);
    leaf.Leaf? && var data := Touched(leaf.data, e);
    |data| > max ==> exists x, y :: x in data && y in data && x.bits != y.bits
  }

  /** An `add` ends in a bucket that cannot be split exactly when more elements than a bucket
      can hold have the bits of the new one. */
  lemma SplittableIffFewCollisions(t: Tree, all: seq<Elem>, us: Bits, max: nat,
                                   bt: seq<nat>, bk: seq<Slot>, rem: seq<nat>, e: Elem)
    requires TableInv(t, all, us, max, bt, bk, rem, {}) && |e.bits| == |us|
    ensures Fits(t, |us|)
    ensures Splittable(t, us, max, e) <==> |Collisions(Touched(all, e), e.bits)| <= max
  {
    hide Rep, Sem, Sized, Proper, Unused, Free, Walk, Depth, SubAt, HasPath;
    var d := Xor(us, e.bits);
    LeafFacts(t, all, us, max, bt, bk, rem, d);
    var m, leaf := Depth(t, d, 0), LeafAt(t, d, 0);
    var data := Touched(leaf.data, e);
    TouchLeaf(t, all, us, max, bt, bk, rem, e, leaf, data, bk[leaf.ix := None], {leaf.ix});
    var f := (x: Elem) => x.bits == e.bits;
    FilterFilter(Touched(all, e), x => InRegion(us, d[..m], x), f, f);
    assert Collisions(Touched(all, e), e.bits) == Filter(data, f);
    if forall x :: x in data ==> f(x) {
      FilterAll(data, f);
    } else {
      var x :| x in data && !f(x);
      FilterShorter(data, f, x);
      assert e in data;
    }
  }

  lemma {:induction false} FilterShorter(s: seq<Elem>, f: Elem -> bool, x: Elem)
    requires x in s && !f(x)
    ensures |Filter(s, f)| < |s|
  {
    if s[0] != x {
      assert x in s[1..];
      FilterShorter(s[1..], f, x);
    }
  }

  /** Elements that `kelem_eq` tells apart exactly by their bits. */
  ghost predicate BitsAreKeys(s: seq<Elem>) {
    forall x, y :: x in s && y in s && x.bits == y.bits ==> x.key == y.key
  }

  lemma FewCollisions(s: seq<Elem>, bits: Bits)
    requires Distinct(s) && BitsAreKeys(s)
    ensures |Collisions(s, bits)| <= 1
  {
    var c := Collisions(s, bits);
    FilterDistinct(s, (x: Elem) => x.bits == bits);
    if |c| > 1 {
      assert c[0] in c && c[1] in c;
      assert Same(c[0], c[1]);
      assert false;
    }
  }
}
