/** The Kademlia table: a binary tree of buckets kept in flat vectors with a free list. */
module KNodeTables {
  import opened Sequences
  import opened Elements
  import opened KBuckets
  import opened BucketTree
  import opened BucketGrowth
  import opened BucketPruning
  import opened BucketQueries
  import opened Nearness

  ghost function SlotOf(b: KBucket?): Slot
    reads b
  {
    if b == null then None else Some(b.data)
  }

  /** The contents of a vector of optional buckets. */
  ghost function View(bs: seq<KBucket?>): (r: seq<Slot>)
    reads bs
    ensures |r| == |bs| && forall i :: 0 <= i < |bs| ==> r[i] == SlotOf(bs[i])
  {
    seq(|bs|, i requires 0 <= i < |bs| reads bs => SlotOf(bs[i]))
  }

  /** Every bucket is in order and is owned by one slot only. */
  ghost predicate Owned(bs: seq<KBucket?>)
    reads bs
  {
    && (forall i :: 0 <= i < |bs| && bs[i] != null ==> bs[i].Valid())
    && forall i, j :: 0 <= i < j < |bs| && bs[i] != null ==> bs[i] != bs[j]
  }

  /** Both children of node `i` set to 0. */
  function Cleared(bt: seq<nat>, i: nat): (r: seq<nat>)
    requires 2 * i + 1 < |bt|
    ensures |r| == |bt| && r[2 * i] == r[2 * i + 1] == 0
    ensures forall k :: 0 <= k < |bt| && k != 2 * i && k != 2 * i + 1 ==> r[k] == bt[k]
  {
    bt[2 * i := 0][2 * i + 1 := 0]
  }

  /** Slot `gone` emptied and the bucket of slot `src` moved to slot `dst`. */
  ghost function Moved(bs: seq<KBucket?>, gone: nat, src: nat, dst: nat): seq<KBucket?>
    requires gone < |bs| && src < |bs| && dst < |bs|
  {
    bs[gone := null][src := null][dst := bs[src]]
  }

  /** The order of the three assignments does not matter. */
  lemma MovedOrder(bs: seq<KBucket?>, gone: nat, src: nat, dst: nat)
    requires gone < |bs| && src < |bs| && dst < |bs| && gone != src && gone != dst && src != dst
    ensures bs[gone := null][src := null][dst := bs[src]] == Moved(bs, gone, src, dst)
    ensures bs[src := null][dst := bs[src]][gone := null] == Moved(bs, gone, src, dst)
  {
  }

  lemma MovedStep(bs: seq<KBucket?>, gone: nat, src: nat, dst: nat, bt: seq<nat>, bt': seq<nat>, rem: seq<nat>)
    requires gone < |bs| && src < |bs| && dst < |bs| && gone != src && gone != dst && src != dst && Owned(bs)
    requires |bt| == |bt'| == 2 * |bs|
    requires forall k :: 0 <= k < |bt| && k / 2 != gone && k / 2 != src && k / 2 != dst ==> bt'[k] == bt[k]
    ensures Owned(Moved(bs, gone, src, dst))
    ensures forall b :: b in Moved(bs, gone, src, dst) ==> b == null || b in bs
    ensures MergeStep(dst, gone, src, View(bs)[src], bt, View(bs), rem,
                      bt', View(Moved(bs, gone, src, dst)), rem + [gone, src])
    ensures MergeStep(dst, src, gone, View(bs)[src], bt, View(bs), rem,
                      bt', View(Moved(bs, gone, src, dst)), rem + [src, gone])
  {
    var m := Moved(bs, gone, src, dst);
    assert forall i :: 0 <= i < |bs| && m[i] != null ==> m[i] == bs[if i == dst then src else i];
  }

  class KNodeTable {
    const us: Bits
    const bucketSize: nat
    var bintree: seq<nat>
    var buckets: seq<KBucket?>
    var remIx: seq<nat>
    ghost var tree: Tree
    ghost var recent: seq<Elem>

    ghost predicate Valid()
      reads this, buckets
    {
      && bucketSize > 1 && Owned(buckets)
      && TableInv(tree, recent, us, bucketSize, bintree, View(buckets), remIx, {})
    }

    /** The bucket that `key` resolves to. */
    ghost function LeafOf(key: Bits): (leaf: Tree)
      requires Valid() && |key| == |us|
      reads this, buckets
      ensures Fits(tree, |us|) && leaf == LeafAt(tree, Xor(us, key), 0)
      ensures leaf.Leaf? && leaf.ix < |buckets| && View(buckets)[leaf.ix] == Some(leaf.data)
    {
      LeafFacts(tree, recent, us, bucketSize, bintree, View(buckets), remIx, Xor(us, key));
      LeafAt(tree, Xor(us, key), 0)
    }

    constructor (us: Bits, bucketSize: nat)
      requires bucketSize > 1
      ensures Valid() && recent == [] && tree.Leaf? && tree.data == [] && this.us == us && this.bucketSize == bucketSize
      ensures fresh(set b | b in buckets)
    {
      this.us, this.bucketSize := us, bucketSize;
      var first := new KBucket();
      bintree, buckets, remIx := [0, 0], [first], [];
      tree, recent := Leaf(0, []), [];
    }

    /** Walk down the distance bits of `key` to a bucket. */
    method ResolveBucket(key: Bits, ghost t: Tree) returns (distix: nat, ix: nat)
      requires |key| == |us| && Fits(t, |us|) && t.ix == 0
      requires Walk(t, Xor(us, key), 0, bintree, View(buckets))
      ensures distix == Depth(t, Xor(us, key), 0) && ix == LeafAt(t, Xor(us, key), 0).ix
      ensures distix <= |us| && ix < |buckets| && buckets[ix] != null
    {
      var dist := Xor(us, key);
      distix, ix := 0, 0;
      ghost var cur := t;
      while buckets[ix] == null
        invariant distix <= |us| && ix < |buckets| && ix == cur.ix
        invariant Fits(cur, |us| - distix) && Walk(cur, dist, distix, bintree, View(buckets))
        invariant Depth(cur, dist, distix) == Depth(t, dist, 0) && LeafAt(cur, dist, distix) == LeafAt(t, dist, 0)
        decreases cur
      {
        assert cur.Node?;
        ix := if dist[distix] then bintree[ix * 2 + 1] else bintree[ix * 2];
        cur := Kid(cur, dist[distix]);
        distix := distix + 1;
      }
    }

    /** Take a slot from the free list, or append one. */
    method NewSlot(b: KBucket?, ghost s: set<nat>) returns (newix: nat)
      requires |bintree| == 2 * |buckets| && Free(s, |buckets|, remIx) && Unused(remIx, View(buckets))
      requires Owned(buckets) && (b != null ==> b.Valid() && b !in buckets)
      modifies this`bintree, this`buckets, this`remIx
      ensures |bintree| == 2 * |buckets| && Unused(remIx, View(buckets))
      ensures newix < |buckets| && newix !in s && Free(s + {newix}, |buckets|, remIx)
      ensures Reuses(|old(buckets)|, old(remIx), |buckets|, remIx)
      ensures AgreeOn(s, old(bintree), old(View(buckets)), {}, bintree, View(buckets), {})
      ensures Owned(buckets) && buckets[newix] == b
      ensures |old(buckets)| <= |buckets| && forall j :: j in s ==> buckets[j] == old(buckets)[j]
      ensures forall c :: c in buckets ==> c == null || c in old(buckets) || c == b
    {
      if remIx != [] {
        newix := remIx[|remIx| - 1];
        assert newix in remIx;
        remIx := remIx[..|remIx| - 1];
        buckets := buckets[newix := b];
        assert old(remIx) == remIx + [newix];
        assert forall x :: x in remIx ==> x in old(remIx) && x != newix;
      } else {
        newix := |buckets|;
        buckets := buckets + [b];
        bintree := bintree + [0, 0];
      }
    }

    /** The body of the splitting loop: give node `i` two new children. */
    method Branch(i: nat, left: KBucket?, right: KBucket?, ghost s: set<nat>) returns (leftix: nat, rightix: nat)
      requires |bintree| == 2 * |buckets| && i < |buckets| && buckets[i] == null
      requires i in s && Free(s, |buckets|, remIx) && Unused(remIx, View(buckets))
      requires Owned(buckets)
      requires left != null ==> left.Valid() && left !in buckets
      requires right != null ==> right.Valid() && right !in buckets && right != left
      modifies this`bintree, this`buckets, this`remIx
      ensures Grown(s, i, leftix, rightix, old(bintree), old(View(buckets)), bintree, View(buckets), remIx)
      ensures Owned(buckets) && Reuses(|old(buckets)|, old(remIx), |buckets|, remIx)
      ensures buckets[leftix] == left && buckets[rightix] == right
      ensures forall b :: b in buckets ==> b == null || b in old(buckets) || b == left || b == right
    {
      hide Grown, Free, Unused;
      ghost var bt, bk := bintree, View(buckets);
      FreeBelow(s, |buckets|, remIx);
      leftix := NewSlot(left, s);
      ghost var bt1, bk1 := bintree, View(buckets);
      bintree := bintree[i * 2 := leftix];
      rightix := NewSlot(right, s + {leftix});
      GrownBySteps(s, i, leftix, rightix, bt, bk, bt1, bk1, bintree, View(buckets), remIx);
      bintree := bintree[i * 2 + 1 := rightix];
    }

    /** The table, except that the bucket of the leaf `i` is taken out. */
    ghost predicate Open(i: nat)
      reads this, buckets
    {
      && bucketSize > 1 && Owned(buckets)
      && TableInv(tree, recent, us, bucketSize, bintree, View(buckets), remIx, {i})
    }

    ghost predicate LeafIs(d: Bits, l: nat, i: nat, data: seq<Elem>)
      reads this
    {
      HasPath(tree, d, 0, l) && SubAt(tree, d, 0, l) == Leaf(i, data)
    }

    /** One round of the splitting loop above the split bit: an empty bucket on one side, the
        place of the pending elements moves down the other. */
    method ChainRound(i: nat, l: nat, goRight: bool,
                      ghost d: Bits, ghost six: nat, ghost e: Elem, ghost data: seq<Elem>)
      returns (next: nat)
      requires Open(i) && LeafIs(d, l, i, data)
      requires |e.bits| == |us| && d == Xor(us, e.bits) && e in data && l < six < |us| && SplitsAt(data, us, six)
      requires goRight == d[l]
      modifies this
      ensures Open(next) && LeafIs(d, l + 1, next, data)
      ensures ShapeWith(tree, d, 0, l + 1, SplitShape(data, us, l + 1)) ==
              old(ShapeWith(tree, d, 0, l, SplitShape(data, us, l)))
      ensures recent == old(recent) && Reuses(|old(buckets)|, old(remIx), |buckets|, remIx)
      ensures forall b :: b in buckets ==> b == null || b in old(buckets) || fresh(b)
    {
      hide Rep, Sem, Sized, Proper, Free, Put, SubAt, HasPath, AgreeOn, SplitsAt, Unused, Region, MovedDown, ShapeWith,
           SplitShape, Distinct, Keyed;
      ghost var t, bt, bk, rem := tree, bintree, View(buckets), remIx;
      HoleFacts(t, recent, us, bucketSize, d, l, i, bt, bk, rem);
      var empty := new KBucket();
      var leftix, rightix := Branch(i, if goRight then empty else null, if goRight then null else empty, Ix(t));
      next := if goRight then bintree[i * 2 + 1] else bintree[i * 2];
      RoundStep(t, recent, us, bucketSize, d, l, six, e, i, leftix, rightix, data,
                bt, bk, rem, bintree, View(buckets), remIx);
      MovedDownShape(t, us, d, l, six, e, i, leftix, rightix, data);
      tree := MovedDown(t, d, l, i, leftix, rightix, data);
    }

    /** The last round: the two halves of the split bucket become the children. */
    method ChainEnd(i: nat, l: nat, left: KBucket, right: KBucket, ghost d: Bits, ghost data: seq<Elem>)
      requires Open(i) && LeafIs(d, l, i, data) && l < |us| == |d|
      requires left != right && left !in buckets && right !in buckets && left.Valid() && right.Valid()
      requires left.data == Side(data, us, l, false) && right.data == Side(data, us, l, true)
      requires |left.data| <= bucketSize && |right.data| <= bucketSize && SplitsAt(data, us, l)
      modifies this
      ensures Valid() && recent == old(recent) && Reuses(|old(buckets)|, old(remIx), |buckets|, remIx)
      ensures ShapeOf(tree) == old(ShapeWith(tree, d, 0, l, SplitShape(data, us, l)))
      ensures forall b :: b in buckets ==> b == null || b in old(buckets) || b == left || b == right
    {
      hide Rep, Sem, Sized, Proper, Free, Put, SubAt, HasPath, AgreeOn, SplitsAt, Unused, Region;
      ghost var t, bt, bk, rem := tree, bintree, View(buckets), remIx;
      HoleFacts(t, recent, us, bucketSize, d, l, i, bt, bk, rem);
      var leftix, rightix := Branch(i, left, right, Ix(t));
      EndStep(t, recent, us, bucketSize, d, l, i, leftix, rightix, data, left.data, right.data,
              bt, bk, rem, bintree, View(buckets), remIx);
      SplitTreeShape(t, us, d, l, i, leftix, rightix, data);
      tree := SplitTree(t, d, l, i, leftix, rightix, left.data, right.data);
    }

    method SplitLeaf(ix: nat, distix: nat, left: KBucket, right: KBucket, ixsplit: nat,
                     ghost d: Bits, ghost e: Elem, ghost data: seq<Elem>)
      requires Open(ix) && LeafIs(d, distix, ix, data)
      requires |e.bits| == |us| && d == Xor(us, e.bits) && e in data
      requires SplitsAt(data, us, ixsplit) && distix <= ixsplit < |us|
      requires left != right && left !in buckets && right !in buckets && left.Valid() && right.Valid()
      requires left.data == Side(data, us, ixsplit, false) && right.data == Side(data, us, ixsplit, true)
      requires left.data != [] && |left.data| <= bucketSize && |right.data| <= bucketSize
      modifies this
      ensures Valid() && recent == old(recent) && Reuses(|old(buckets)|, old(remIx), |buckets|, remIx)
      ensures ShapeOf(tree) == old(ShapeWith(tree, d, 0, distix, SplitShape(data, us, distix)))
      ensures forall b :: b in buckets ==> b == null || b in old(buckets) || b == left || b == right || fresh(b)
    {
      hide ShapeWith, SplitShape, ShapeOf, SplitsAt, Side, TableInv, SubAt, HasPath;
      var dist: Bits := [];
      if ixsplit > distix {
        var one := left.GetClosest(1);
        SameAboveSplit(data, us, ixsplit, one[0], e);
        dist := Xor(us, one[0].bits);
      }
      var i := ix;
      assert ixsplit > distix ==> |dist| == |us| > ixsplit && forall l :: 0 <= l < ixsplit ==> dist[l] == d[l];
      for l := distix to ixsplit
        invariant Open(i) && LeafIs(d, l, i, data) && recent == old(recent)
        invariant ShapeWith(tree, d, 0, l, SplitShape(data, us, l)) ==
                  old(ShapeWith(tree, d, 0, distix, SplitShape(data, us, distix)))
        invariant left !in buckets && right !in buckets && Reuses(|old(buckets)|, old(remIx), |buckets|, remIx)
        invariant forall b :: b in buckets ==> b == null || b in old(buckets) || fresh(b)
      {
        i := ChainRound(i, l, dist[l], d, ixsplit, e, data);
      }
      ChainEnd(i, ixsplit, left, right, d, data);
    }

    /** Put an element into the bucket it resolves to, which may become over-full. */
    method TakeIn(elem: Elem) returns (distix: nat, ix: nat, newSize: nat)
      requires Valid() && |elem.bits| == |us| && Fits(tree, |us|)
      modifies buckets
      ensures distix == Depth(tree, Xor(us, elem.bits), 0) && ix == LeafAt(tree, Xor(us, elem.bits), 0).ix
      ensures LeafAt(tree, Xor(us, elem.bits), 0).Leaf? && ix < |buckets| && buckets[ix] != null && Owned(buckets)
      ensures var data := Touched(LeafAt(tree, Xor(us, elem.bits), 0).data, elem);
              newSize == |data| && View(buckets) == old(View(buckets))[ix := Some(data)]
    {
      hide Rep, Sem, Sized, Proper, Free, Put, Depth, SubAt, HasPath, Unused, Region, Touched, Walk, Fits, Ix;
      LeafFacts(tree, recent, us, bucketSize, bintree, View(buckets), remIx, Xor(us, elem.bits));
      distix, ix := ResolveBucket(elem.bits, tree);
      newSize := buckets[ix].Add(elem);
    }

    /** Split the bucket of slot `ix` and empty the slot. */
    method TakeOut(ix: nat) returns (left: KBucket, right: KBucket, ixsplit: nat)
      requires Owned(buckets) && ix < |buckets| && buckets[ix] != null
      requires |buckets[ix].data| >= 2 && Keyed(buckets[ix].data, us)
      requires exists x, y :: x in buckets[ix].data && y in buckets[ix].data && x.bits != y.bits
      modifies this`buckets, buckets[ix]
      ensures buckets == old(buckets)[ix := null] && Owned(buckets) && View(buckets) == old(View(buckets))[ix := None]
      ensures fresh(left) && fresh(right) && left != right && left.Valid() && right.Valid()
      ensures SplitsAt(old(buckets[ix].data), us, ixsplit) && ixsplit < |us|
      ensures left.data == Side(old(buckets[ix].data), us, ixsplit, false) && left.data != []
      ensures right.data == Side(old(buckets[ix].data), us, ixsplit, true) && right.data != []
    {
      hide SplitsAt, Side, Keyed;
      left, right, ixsplit := buckets[ix].Split(us);
      buckets := buckets[ix := null];
    }

    /** Replace the over-full bucket of leaf `ix` by a chain of nodes that ends in its halves. */
    method SplitOver(distix: nat, ix: nat, ghost e: Elem, ghost data: seq<Elem>, ghost bk: seq<Slot>)
      requires bucketSize > 1 && Owned(buckets) && ix < |buckets| && |bk| == |buckets|
      requires View(buckets) == bk[ix := Some(data)]
      requires TableInv(tree, recent, us, bucketSize, bintree, bk[ix := None], remIx, {ix})
      requires |e.bits| == |us| && e in data && distix <= |us| && LeafIs(Xor(us, e.bits), distix, ix, data)
      requires data == Region(recent, us, Xor(us, e.bits)[..distix]) && Keyed(data, us)
      requires bucketSize < |data| <= bucketSize + 1
      requires exists x, y :: x in data && y in data && x.bits != y.bits
      modifies this, buckets
      ensures Valid() && recent == old(recent) && Reuses(|old(buckets)|, old(remIx), |buckets|, remIx)
      ensures ShapeOf(tree) == old(ShapeWith(tree, Xor(us, e.bits), 0, distix, SplitShape(data, us, distix)))
      ensures forall b :: b in buckets ==> b == null || b in old(buckets) || fresh(b)
    {
      hide Rep, Sem, Sized, Proper, Free, SubAt, HasPath, Unused, Region, Ix, Side, SplitsAt;
      var left, right, ixsplit := TakeOut(ix);
      assert View(buckets) == bk[ix := None];
      SplitBelow(recent, us, Xor(us, e.bits), distix, ixsplit);
      SidesPartition(data, us, ixsplit);
      SplitLeaf(ix, distix, left, right, ixsplit, Xor(us, e.bits), e, data);
    }

    /** Add an element, or refresh its position: the recency list is touched. `split` panics on an
        over-full bucket whose elements all have the same bits, which is the case exactly when
        more than a bucketful of elements share the bits of the new one. */
    method Add(elem: Elem)
      requires Valid() && |elem.bits| == |us|
      requires |Collisions(Touched(recent, elem), elem.bits)| <= bucketSize
      modifies this, buckets
      ensures Valid() && recent == Touched(old(recent), elem)
      ensures Reuses(|old(buckets)|, old(remIx), |buckets|, remIx)
      ensures ShapeOf(tree) == AddTo(ShapeOf(old(tree)), us, bucketSize, Xor(us, elem.bits), elem, 0)
      ensures forall b :: b in buckets ==> b == null || b in old(buckets) || fresh(b)
    {
      hide Rep, Sem, Sized, Proper, Free, Put, Depth, SubAt, HasPath, Unused, Region, Touched, Walk, Fits, Ix,
           ShapeWith, SplitShape, AddTo;
      ghost var d, bk := Xor(us, elem.bits), View(buckets);
      SplittableIffFewCollisions(tree, recent, us, bucketSize, bintree, bk, remIx, elem);
      AddToLeaf(tree, us, bucketSize, d, elem, 0);
      ghost var leaf := LeafAt(tree, d, 0);
      ghost var data := Touched(leaf.data, elem);
      var distix, ix, newSize := TakeIn(elem);
      ghost var t := WithLeaf(tree, d, data);
      ShapeOfPut(tree, d, 0, distix, Leaf(ix, data), SplitShape(data, us, distix));
      if newSize > bucketSize {
        TouchLeaf(tree, recent, us, bucketSize, bintree, bk, remIx, elem, leaf, data, bk[ix := None], {ix});
        recent, tree := Touched(recent, elem), t;
        SplitOver(distix, ix, elem, data, bk);
      } else {
        TouchLeaf(tree, recent, us, bucketSize, bintree, bk, remIx, elem, leaf, data, bk[ix := Some(data)], {});
        recent, tree := Touched(recent, elem), t;
      }
    }

    /** Walk down to a bucket, keeping the last inner node. */
    method ResolveBucketParent(key: Bits, ghost t: Tree) returns (parix: nat, ix: nat)
      requires |key| == |us| && Fits(t, |us|) && t.ix == 0
      requires Walk(t, Xor(us, key), 0, bintree, View(buckets))
      ensures parix == ParentIx(t, Xor(us, key), 0, 0) && ix == LeafAt(t, Xor(us, key), 0).ix
      ensures ix < |buckets| && buckets[ix] != null
    {
      var dist := Xor(us, key);
      parix, ix := 0, 0;
      var distix := 0;
      ghost var cur := t;
      while buckets[ix] == null
        invariant distix <= |us| && ix < |buckets| && ix == cur.ix
        invariant Fits(cur, |us| - distix) && Walk(cur, dist, distix, bintree, View(buckets))
        invariant ParentIx(cur, dist, distix, parix) == ParentIx(t, dist, 0, 0)
        invariant LeafAt(cur, dist, distix) == LeafAt(t, dist, 0)
        decreases cur
      {
        assert cur.Node?;
        parix := ix;
        ix := if dist[distix] then bintree[ix * 2 + 1] else bintree[ix * 2];
        cur := Kid(cur, dist[distix]);
        distix := distix + 1;
      }
    }

    method HasContent(ix: nat) returns (r: bool)
      requires Owned(buckets) && |bintree| == 2 * |buckets|
      ensures r <==> ix < |buckets| && if buckets[ix] != null then buckets[ix].data != []
                                       else bintree[2 * ix] != 0 || bintree[2 * ix + 1] != 0
    {
      if ix < |buckets| {
        if buckets[ix] != null {
          r := buckets[ix].size != 0;
        } else {
          r := bintree[ix * 2] != 0 || bintree[ix * 2 + 1] != 0;
        }
      } else {
        r := false;
      }
    }

    /** The brother without content goes, and our bucket moves to the parent. The walk to the
        brother ended in a bucket, so the branch of the source for an inner brother is dead. */
    method DropBrother(parix: nat, ixbro: nat, ix: nat)
      requires |bintree| == 2 * |buckets| && parix < |buckets| && ixbro < |buckets| && ix < |buckets|
      requires parix != ixbro && parix != ix && ixbro != ix && Owned(buckets) && buckets[ixbro] != null
      modifies this`bintree, this`buckets, this`remIx
      ensures Owned(buckets) && (forall b :: b in buckets ==> b == null || b in old(buckets))
      ensures |buckets| == |old(buckets)| && remIx == old(remIx) + [ixbro, ix]
      ensures MergeStep(parix, ixbro, ix, old(View(buckets))[ix], old(bintree), old(View(buckets)), old(remIx),
                        bintree, View(buckets), remIx)
    {
      hide MergeStep, Owned;
      ghost var bs, bt, rem := buckets, bintree, remIx;
      remIx := remIx + [ixbro];
      buckets := buckets[ixbro := null];
      remIx := remIx + [ix];
      var bro := buckets[ix];
      buckets := buckets[ix := null];
      bintree := Cleared(bintree, ix);
      buckets := buckets[parix := bro];
      bintree := Cleared(bintree, parix);
      MovedOrder(bs, ixbro, ix, parix);
      MovedStep(bs, ixbro, ix, parix, bt, bintree, rem);
      assert remIx == rem + [ixbro, ix];
    }

    /** Our empty bucket goes, and the brother's moves to the parent. */
    method KeepBrother(parix: nat, ixbro: nat, ix: nat)
      requires |bintree| == 2 * |buckets| && parix < |buckets| && ixbro < |buckets| && ix < |buckets|
      requires parix != ixbro && parix != ix && ixbro != ix && Owned(buckets)
      modifies this`bintree, this`buckets, this`remIx
      ensures Owned(buckets) && (forall b :: b in buckets ==> b == null || b in old(buckets))
      ensures |buckets| == |old(buckets)| && remIx == old(remIx) + [ixbro, ix]
      ensures MergeStep(parix, ixbro, ix, old(View(buckets))[ixbro], old(bintree), old(View(buckets)), old(remIx),
                        bintree, View(buckets), remIx)
    {
      hide MergeStep, Owned;
      ghost var bs, bt, rem := buckets, bintree, remIx;
      remIx := remIx + [ixbro];
      var bro := buckets[ixbro];
      buckets := buckets[ixbro := null];
      bintree := Cleared(bintree, ixbro);
      buckets := buckets[parix := bro];
      bintree := Cleared(bintree, parix);
      remIx := remIx + [ix];
      buckets := buckets[ix := null];
      bintree := Cleared(bintree, ix);
      MovedOrder(bs, ix, ixbro, parix);
      MovedStep(bs, ix, ixbro, parix, bt, bintree, rem);
      assert remIx == rem + [ixbro, ix];
    }

    /** Look for the brother at depth `j + 1`: flip bit `j` of the key and walk to a bucket. */
    method FindBrother(key: Bits, j: nat, ghost ix: nat, ghost t: Tree, ghost broken: bool, ghost c: nat)
      returns (parix: nat, ixbro: nat, has: bool)
      requires |key| == |us| && j < |us| && t.ix == 0 && Proper(t) && Fits(t, |us|) && Owned(buckets)
      requires LoopState(t, Xor(us, key), j + 1, broken, c, ix, bintree, View(buckets), remIx)
      ensures BrotherFound(t, Xor(us, key), j, ix, parix, ixbro, bintree, View(buckets))
      ensures var d' := Xor(us, key)[j := !Xor(us, key)[j]];
              parix == ParentIx(t, d', 0, 0) && ixbro == LeafAt(t, d', 0).ix && LeafAt(t, d', 0).Leaf?
              && View(buckets)[ixbro] == Some(LeafAt(t, d', 0).data)
      ensures buckets[ixbro] != null && has == (buckets[ixbro].data != [])
    {
      hide Rep, SubAt, CtxRep, Merged, Fits, Depth, Corrupts, Rises, Walk, Free, Unused, ParentIx, LoopState,
           Ix, Proper;
      ghost var d := Xor(us, key);
      BrotherOnWalk(t, d, j, broken, c, ix, bintree, View(buckets), remIx);
      var broBits := key[j := !key[j]];
      assert Xor(us, broBits) == d[j := !d[j]];
      parix, ixbro := ResolveBucketParent(broBits, t);
      has := HasContent(ixbro);
    }

    /** One round of the merging loop, at depth `j + 1`. It stops below a brother with content,
        unless this is the first round. */
    method PruneRound(key: Bits, j: nat, ix: nat, first: bool, ghost t: Tree, ghost broken: bool, ghost c: nat)
      returns (stop: bool, next: nat, ghost broken': bool, ghost c': nat)
      requires |key| == |us| && j < |us| && t.ix == 0 && Proper(t) && Fits(t, |us|) && Owned(buckets)
      requires LoopState(t, Xor(us, key), j + 1, broken, c, ix, bintree, View(buckets), remIx)
      requires HasPath(t, Xor(us, key), 0, j + 1) && (first <==> SubAt(t, Xor(us, key), 0, j + 1).Leaf?)
      modifies this`bintree, this`buckets, this`remIx
      ensures Owned(buckets) && (forall b :: b in buckets ==> b == null || b in old(buckets))
      ensures stop ==> LoopState(t, Xor(us, key), j + 1, broken', c', next, bintree, View(buckets), remIx)
      ensures stop && !broken' ==> !Corrupts(t, Xor(us, key), 0) && StoppedBelow(t, Xor(us, key), j)
      ensures !stop ==> LoopState(t, Xor(us, key), j, broken', c', next, bintree, View(buckets), remIx)
      ensures |buckets| == |old(buckets)| && old(remIx) <= remIx
      ensures first ==> !stop
      ensures !stop ==> Merges(t, Xor(us, key), j, ix, old(bintree), old(View(buckets)), old(remIx),
                               bintree, View(buckets), remIx)
    {
      hide Rep, SubAt, CtxRep, Merged, Fits, Depth, Corrupts, Rises, Walk, Free, Unused, MergeStep, ParentIx,
           Proper, Ix;
      ghost var d := Xor(us, key);
      var parix, ixbro, has := FindBrother(key, j, ix, t, broken, c);
      next, broken', c', stop := ix, broken, c, has && !first;
      ghost var bt, bk, rem := bintree, View(buckets), remIx;
      if stop {
        if !broken {
          StopHere(t, d, j);
        }
      } else {
        if has {
          KeepBrother(parix, ixbro, ix);
        } else {
          DropBrother(parix, ixbro, ix);
        }
        MergeRound(t, d, j, broken, c, ix, parix, ixbro, if has then bk[ixbro] else bk[ix],
                   bt, bk, rem, bintree, View(buckets), remIx);
        next := parix;
        broken' := broken || Kid(SubAt(t, d, 0, j), !d[j]).Node?;
        c' := if broken then c else j;
      }
    }

    /** The merging loop of `remove`: `ix` is the empty leaf of the element with these bits. It ends
        in a table again exactly when no examined brother was an inner node that did not stop it. */
    method Prune(key: Bits, distix: nat, ix: nat, ghost t: Tree, ghost all: seq<Elem>) returns (ghost t': Tree)
      requires |key| == |us| && Owned(buckets) && Fits(t, |us|) && t.ix == 0 && Proper(t)
      requires TableInv(t, all, us, bucketSize, bintree, View(buckets), remIx, {})
      requires HasPath(t, Xor(us, key), 0, distix) && SubAt(t, Xor(us, key), 0, distix) == Leaf(ix, [])
      modifies this`bintree, this`buckets, this`remIx
      ensures Owned(buckets) && (forall b :: b in buckets ==> b == null || b in old(buckets))
      ensures |buckets| == |old(buckets)| && old(remIx) <= remIx
      ensures !Corrupts(t, Xor(us, key), 0) ==>
                && TableInv(t', all, us, bucketSize, bintree, View(buckets), remIx, {})
                && ShapeOf(t') == PrunedShape(t, Xor(us, key), 0)
      ensures Corrupts(t, Xor(us, key), 0) ==>
                forall u, s :: !TableInv(u, s, us, bucketSize, bintree, View(buckets), remIx, {})
      ensures distix == 1 ==> Merges(t, Xor(us, key), 0, ix, old(bintree), old(View(buckets)), old(remIx),
                                     bintree, View(buckets), remIx)
    {
      hide TableInv, LoopState, Corrupts, Fits, StoppedBelow, PrunedTree, PrunedShape, ShapeOf, Merges;
      ghost var d, bt0, bk0, rem0 := Xor(us, key), bintree, View(buckets), remIx;
      StartClean(t, all, us, bucketSize, d, distix, ix, bt0, bk0, rem0);
      var ixdst: nat, first, cur, stop := distix, true, ix, false;
      ghost var broken, c := false, 0;
      while ixdst != 0 && !stop
        invariant ixdst <= distix && Owned(buckets) && (forall b :: b in buckets ==> b == null || b in old(buckets))
        invariant LoopState(t, d, ixdst, broken, c, cur, bintree, View(buckets), remIx)
        invariant first <==> ixdst == distix
        invariant |buckets| == |old(buckets)| && old(remIx) <= remIx
        invariant first ==> bintree == bt0 && View(buckets) == bk0 && remIx == rem0 && cur == ix && !stop
        invariant distix == 1 && !first ==> Merges(t, d, 0, ix, bt0, bk0, rem0, bintree, View(buckets), remIx)
        invariant stop && !broken ==> !Corrupts(t, d, 0) && ixdst > 0 && StoppedBelow(t, d, ixdst - 1)
        decreases ixdst, !stop
      {
        PathTo(t, d, ixdst, distix);
        stop, cur, broken, c := PruneRound(key, ixdst - 1, cur, first, t, broken, c);
        if !stop {
          ixdst, first := ixdst - 1, false;
        }
      }
      LoopEnd(t, all, us, bucketSize, d, ixdst, broken, c, cur, bt0, bk0, rem0, bintree, View(buckets), remIx);
      t' := if broken then t else PrunedTree(t, d, ixdst);
    }

    /** Take an element out of the bucket it resolves to. */
    method TakeAway(elem: Elem) returns (distix: nat, ix: nat, res: bool, empty: bool)
      requires Valid() && |elem.bits| == |us| && Fits(tree, |us|)
      modifies buckets
      ensures var leaf := LeafAt(tree, Xor(us, elem.bits), 0);
              && distix == Depth(tree, Xor(us, elem.bits), 0) && leaf.Leaf? && ix == leaf.ix && ix < |buckets|
              && Owned(buckets) && View(buckets) == old(View(buckets))[ix := Some(Without(leaf.data, elem))]
              && (empty <==> Without(leaf.data, elem) == []) && (distix == 0 <==> ix == 0)
              && (res <==> exists x :: x in leaf.data && Same(elem, x))
    {
      hide Rep, Sem, Sized, Proper, Free, Put, Depth, SubAt, HasPath, Unused, Region, Without, Walk, Fits, Ix;
      LeafFacts(tree, recent, us, bucketSize, bintree, View(buckets), remIx, Xor(us, elem.bits));
      distix, ix := ResolveBucket(elem.bits, tree);
      res := buckets[ix].Remove(elem);
      empty := buckets[ix].size == 0;
    }

    /** Remove an element; true if it was there. The result is the table without the element
        exactly when the merging loop does not meet an inner node where it expects a bucket;
        otherwise no tree and no list at all fit the vectors any more. */
    method Remove(elem: Elem) returns (res: bool)
      requires Valid() && |elem.bits| == |us|
      modifies this, buckets
      ensures res <==> exists x :: x in old(recent) && Same(elem, x)
      ensures var o := RemoveFrom(ShapeOf(old(tree)), Xor(us, elem.bits), elem, 0);
              if o != Wrong then Valid() && ShapeOf(tree) == ResultOf(o)
              else forall u, s :: !TableInv(u, s, us, bucketSize, bintree, View(buckets), remIx, {})
      ensures recent == Without(old(recent), elem) && |buckets| == |old(buckets)| && old(remIx) <= remIx
      ensures MergesOnce(old(tree), us, elem, old(bintree), old(View(buckets)), old(remIx),
                         bintree, View(buckets), remIx)
      ensures forall b :: b in buckets ==> b == null || b in old(buckets)
    {
      hide Rep, Sem, Sized, Proper, Free, Put, Depth, SubAt, HasPath, Unused, Without, Walk, Fits, Ix, Corrupts,
           LeafAt, TakenOut, Distinct, Keyed, RemoveFrom, ResultOf, PrunedShape, ShapeOf, Merges;
      ghost var leaf, bk := LeafOf(elem.bits), View(buckets);
      ghost var t, all := TakenOut(tree, us, elem), Without(recent, elem);
      ghost var d := Xor(us, elem.bits);
      TakenOutInv(tree, recent, us, bucketSize, bintree, bk, remIx, elem);
      StoredInLeaf(tree, recent, us, bucketSize, bintree, bk, remIx, elem);
      RemoveShape(tree, us, d, elem, Depth(tree, d, 0), leaf, t);
      var distix, ix, r, empty := TakeAway(elem);
      res := r;
      if empty && ix != 0 {
        t := Prune(elem.bits, distix, ix, t, all);
      }
      tree, recent := t, all;
    }

    /** The latest of the bucket that `id` resolves to. Whether they are the nearest of the table is
        decided within the bucket, and the whole bucket always is. */
    method GetClosestOneBucket(id: Bits, nb: nat) returns (r: seq<Elem>)
      requires Valid() && |id| == |us|
      ensures var data := LeafOf(id).data;
              && r == Latest(data, nb) == data[|data| - Min(nb, |data|)..]
              && (Nearest(r, recent, id) <==> Nearest(r, data, id))
              && (nb >= |data| ==> r == data && Nearest(r, recent, id))
              && forall x, y :: x in data && y in recent && y !in data ==> Nearer(id, x, y)
    {
      hide TableInv, LeafAt, Fits, Nearer, Nearest, Latest;
      BucketIsNearest(tree, recent, us, bucketSize, bintree, View(buckets), remIx, id);
      StoredInBucket(tree, recent, us, bucketSize, bintree, View(buckets), remIx, LeafOf(id).ix);
      LatestIsNearestIff(LeafOf(id).data, recent, id, nb);
      var ix := Resolved(id);
      r := buckets[ix].GetClosest(nb);
    }

    /** The completion loop of `get_closest` over the slots from `lo` to `hi`. */
    method Complete(lo: nat, hi: nat, nb: nat) returns (r: seq<Elem>)
      requires Owned(buckets) && lo <= hi <= |buckets|
      ensures r == Fill(View(buckets), lo, hi, nb)
    {
      hide Latest, Fill;
      ghost var bk := View(buckets);
      r := [];
      var i: nat, rest: nat := lo, nb;
      while i < hi && rest > 0
        invariant lo <= i <= hi && |r| + rest == nb
        invariant r + Fill(bk, i, hi, rest) == Fill(bk, lo, hi, nb)
      {
        FillStep(bk, i, hi, rest);
        if buckets[i] != null {
          var more := buckets[i].GetClosest(rest);
          Associative(r, more, Fill(bk, i + 1, hi, rest - |more|));
          r := r + more;
          rest := rest - |more|;
        }
        i := i + 1;
      }
      FillStep(bk, i, hi, rest);
    }

    /** As many elements as asked for, if the table has them: all different, all stored, the most
        recent ones of the bucket that `id` resolves to first. */
    method GetClosest(id: Bits, nb: nat) returns (r: seq<Elem>)
      requires Valid() && |id| == |us|
      ensures |r| == Min(nb, |recent|) && NoDup(r) && forall x :: x in r ==> x in recent
      ensures var bk, ix, data := View(buckets), LeafOf(id).ix, LeafOf(id).data;
              && r == Closest(bk, ix, nb) && ReadsOff(bk, ix, nb, r)
              && data[|data| - Min(nb, |data|)..] <= r
              && (Nearest(r, recent, id) <==> VisitsInOrder(bk, ix, nb, id))
              && (nb <= |data| ==> (Nearest(r, recent, id) <==> Nearest(r, data, id)))
              && (nb == |data| || nb >= |recent| ==> Nearest(r, recent, id))
    {
      hide TableInv, LeafAt, Fits, NoDup, Closest, Latest, Nearest, VisitsInOrder, ReadsOff;
      var ix := Resolved(id);
      r := Gather(ix, nb);
      ClosestIsNearestIff(tree, recent, us, bucketSize, bintree, View(buckets), remIx, id, nb, LeafOf(id));
      LatestIsSuffix(LeafOf(id).data, nb);
      ClosestReadsOff(View(buckets), LeafOf(id).ix, nb);
      ClosestExact(tree, recent, us, bucketSize, bintree, View(buckets), remIx, ix, nb);
    }

    /** The bucket `ix` first, then the later slots, then the earlier ones. */
    method Gather(ix: nat, nb: nat) returns (r: seq<Elem>)
      requires Owned(buckets) && ix < |buckets| && buckets[ix] != null
      ensures View(buckets)[ix].Some? && r == Closest(View(buckets), ix, nb)
    {
      hide Latest, Fill;
      var near := buckets[ix].GetClosest(nb);
      var later := Complete(ix + 1, |buckets|, nb - |near|);
      var earlier := Complete(0, ix, nb - |near| - |later|);
      r := near + later + earlier;
    }

    /** `resolve_bucket` on a valid table. */
    method Resolved(id: Bits) returns (ix: nat)
      requires Valid() && |id| == |us|
      ensures ix == LeafOf(id).ix && buckets[ix] != null && buckets[ix].data == LeafOf(id).data
    {
      hide Rep, Sem, Sized, Proper, Free, Depth, SubAt, HasPath, Unused, Region, Walk, Fits, Ix;
      LeafFacts(tree, recent, us, bucketSize, bintree, View(buckets), remIx, Xor(us, id));
      var _, i := ResolveBucket(id, tree);
      ix := i;
    }
  }

  /** The two halves of a split agree above the split bit. */
  lemma SameAboveSplit(data: seq<Elem>, us: Bits, six: nat, x: Elem, e: Elem)
    requires SplitsAt(data, us, six) && e in data && x in Side(data, us, six, false)
    ensures |x.bits| == |e.bits| == |us| > six
    ensures forall l :: 0 <= l < six ==> Xor(us, x.bits)[l] == Xor(us, e.bits)[l]
  {
    forall l | 0 <= l < six ensures Xor(us, x.bits)[l] == Xor(us, e.bits)[l] {
      assert Xor(us, x.bits)[l] == Xor(us, x.bits)[..six][l];
      assert Xor(us, e.bits)[l] == Xor(us, e.bits)[..six][l];
    }
  }
}
