/** What `add` does to the tree: refresh one leaf, then grow a chain of nodes below it. */
module BucketGrowth {
  import opened Sequences
  import opened Elements
  import opened KBuckets
  import opened BucketTree

  /** Facts about the leaf that an element resolves to. */
  lemma LeafFacts(t: Tree, all: seq<Elem>, us: Bits, max: nat, bt: seq<nat>, bk: seq<Slot>, rem: seq<nat>, d: Bits)
    requires TableInv(t, all, us, max, bt, bk, rem, {}) && |d| == |us|
    ensures Fits(t, |d|) && Walk(t, d, 0, bt, bk)
    ensures var m, leaf := Depth(t, d, 0), LeafAt(t, d, 0);
            |bt| == 2 * |bk| && leaf.Leaf? && leaf.data == Region(all, us, d[..m])
            && Distinct(leaf.data) && Keyed(leaf.data, us)
            && leaf.ix < |bk| && bk[leaf.ix] == Some(leaf.data) && leaf.ix in Ix(t) && (m == 0 <==> leaf.ix == 0)
            && |leaf.data| <= max
  {
    SemFits(t, us, [], all);
    RepWalk(t, d, 0, bt, bk);
    var m := Depth(t, d, 0);
    assert d[..0] == [];
    SemAt(t, us, d, 0, m, all);
    RepCtx(t, d, 0, m, bt, bk, {});
    SubFacts(t, d, 0, m);
    SizedAt(t, d, 0, m, max, {});
    FilterDistinct(all, e => InRegion(us, d[..m], e));
    if m > 0 {
      SubFacts(Kid(t, d[0]), d, 1, m);
    }
  }

  /** Touching the leaf that `e` resolves to touches the recency list. */
  lemma TouchLeaf(t: Tree, all: seq<Elem>, us: Bits, max: nat, bt: seq<nat>, bk: seq<Slot>, rem: seq<nat>, e: Elem,
                  leaf: Tree, data: seq<Elem>, bk': seq<Slot>, holes': set<nat>)
    requires TableInv(t, all, us, max, bt, bk, rem, {}) && |e.bits| == |us| && Fits(t, |us|)
    requires leaf == LeafAt(t, Xor(us, e.bits), 0) && leaf.Leaf? && leaf.ix < |bk| && data == Touched(leaf.data, e)
    requires || (bk' == bk[leaf.ix := Some(data)] && holes' == {} && |data| <= max)
             || (bk' == bk[leaf.ix := None] && holes' == {leaf.ix})
    ensures Keyed(data, us) && e in data && |data| <= max + 1
    ensures data == Region(Touched(all, e), us, Xor(us, e.bits)[..Depth(t, Xor(us, e.bits), 0)])
    ensures TableInv(WithLeaf(t, Xor(us, e.bits), data), Touched(all, e), us, max, bt, bk', rem, holes')
  {
    hide Rep, Walk;
    var d := Xor(us, e.bits);
    var m := Depth(t, d, 0);
    LeafFacts(t, all, us, max, bt, bk, rem, d);
    TouchedDistinct(all, e);
    RegionTouched(all, us, d[..m], e);
    ChangeOffPath(all, us, e);
    assert Ix(t) - {leaf.ix} + {leaf.ix} == Ix(t);
    LeafRep(leaf.ix, data, bt, bk', holes');
    OtherSlots(Ix(t), leaf.ix, bt, bk, bk', rem, holes');
    hide AgreeOn, Free, Unused, Put, Touched, Region;
    InvPut(t, all, Touched(all, e), us, max, d, m, Leaf(leaf.ix, data), bt, bk, rem, {}, bt, bk', rem, holes');
  }

  /** Only slot `i` changed, and it is in use. */
  lemma OtherSlots(s: set<nat>, i: nat, bt: seq<nat>, bk: seq<Slot>, bk': seq<Slot>, rem: seq<nat>, holes: set<nat>)
    requires |bt| == 2 * |bk| && |bk'| == |bk| && i in s && Free(s, |bk|, rem) && Unused(rem, bk) && holes <= {i}
    requires forall k :: 0 <= k < |bk| && k != i ==> bk'[k] == bk[k]
    ensures AgreeOn(s - {i}, bt, bk, {}, bt, bk', holes) && Unused(rem, bk')
  {
  }

  lemma LeafRep(ix: nat, data: seq<Elem>, bt: seq<nat>, bk: seq<Slot>, holes: set<nat>)
    requires |bt| == 2 * |bk| && ix < |bk| && bk[ix] == (if ix in holes then None else Some(data))
    ensures Rep(Leaf(ix, data), bt, bk, holes)
  {
  }

  /** Slots come from the end of the free list, and new ones are only appended when it is used up. */
  ghost predicate Reuses(n: nat, rem: seq<nat>, n': nat, rem': seq<nat>) {
    rem' <= rem && n <= n' && (n < n' ==> rem' == [])
  }

  /** Node `i` of a tree over the indices `s` got the new children `a` and `b`. */
  ghost predicate Grown(s: set<nat>, i: nat, a: nat, b: nat, bt: seq<nat>, bk: seq<Slot>,
                        bt': seq<nat>, bk': seq<Slot>, rem': seq<nat>)
  {
    && |bt| == 2 * |bk| && |bt'| == 2 * |bk'| && |bk| <= |bk'|
    && i in s && i < |bk| && bk'[i] == None && bt'[2 * i] == a && bt'[2 * i + 1] == b
    && a != b && a !in s && b !in s && a < |bk'| && b < |bk'|
    && AgreeOn(s - {i}, bt, bk, {}, bt', bk', {})
    && Free(s + {a, b}, |bk'|, rem') && Unused(rem', bk')
  }

  /** Growing in two steps, one new slot after the other. */
  lemma GrownBySteps(s: set<nat>, i: nat, a: nat, b: nat, bt: seq<nat>, bk: seq<Slot>,
                     bt1: seq<nat>, bk1: seq<Slot>, bt2: seq<nat>, bk2: seq<Slot>, rem2: seq<nat>)
    requires i in s && i < |bk| <= |bk1| <= |bk2| && bk[i] == None && forall j :: j in s ==> j < |bk|
    requires a < |bk1| && a !in s && b < |bk2| && b !in s + {a}
    requires AgreeOn(s, bt, bk, {}, bt1, bk1, {})
    requires AgreeOn(s + {a}, bt1[i * 2 := a], bk1, {}, bt2, bk2, {})
    requires Free(s + {a} + {b}, |bk2|, rem2) && Unused(rem2, bk2)
    ensures Grown(s, i, a, b, bt, bk, bt2[i * 2 + 1 := b], bk2, rem2)
  {
    assert s + {a} + {b} == s + {a, b};
    assert bt2[2 * i] == bt1[i * 2 := a][2 * i] == a;
    var bt' := bt2[i * 2 + 1 := b];
    forall j | j in s - {i} && j < |bk|
      ensures bk2[j] == bk[j] && bt'[2 * j] == bt[2 * j] && bt'[2 * j + 1] == bt[2 * j + 1]
    {
      assert j in s && j in s + {a};
    }
  }

  /** A slot of the vectors that holds the bucket `data`, or is a hole. */
  ghost predicate Fills(bk: seq<Slot>, i: nat, data: seq<Elem>, max: nat, holes: set<nat>) {
    i < |bk| && if i in holes then bk[i] == None else bk[i] == Some(data) && |data| <= max
  }

  /** One round of the splitting loop: the hole `i` at depth `l` becomes an inner node. */
  lemma ChainStep(t: Tree, all: seq<Elem>, us: Bits, max: nat, d: Bits, l: nat, i: nat, a: nat, b: nat,
                  bt: seq<nat>, bk: seq<Slot>, rem: seq<nat>,
                  bt': seq<nat>, bk': seq<Slot>, rem': seq<nat>, holes': set<nat>)
    requires TableInv(t, all, us, max, bt, bk, rem, {i})
    requires l < |us| == |d| && HasPath(t, d, 0, l) && SubAt(t, d, 0, l).Leaf? && SubAt(t, d, 0, l).ix == i
    requires Grown(Ix(t), i, a, b, bt, bk, bt', bk', rem')
    requires holes' <= {a, b}
    requires Fills(bk', a, Region(all, us, d[..l] + [false]), max, holes')
    requires Fills(bk', b, Region(all, us, d[..l] + [true]), max, holes')
    ensures var sub := Node(i, Leaf(a, Region(all, us, d[..l] + [false])), Leaf(b, Region(all, us, d[..l] + [true])));
            && TableInv(Put(t, d, 0, l, sub), all, us, max, bt', bk', rem', holes')
            && Ix(Put(t, d, 0, l, sub)) == Ix(t) + {a, b}
            && HasPath(Put(t, d, 0, l, sub), d, 0, l + 1)
            && SubAt(Put(t, d, 0, l, sub), d, 0, l + 1) == Kid(sub, d[l])
  {
    var sub := Node(i, Leaf(a, Region(all, us, d[..l] + [false])), Leaf(b, Region(all, us, d[..l] + [true])));
    SubFacts(t, d, 0, l);
    assert Ix(sub) == {i, a, b};
    assert Ix(t) - {i} + Ix(sub) == Ix(t) + {a, b};
    InvPut(t, all, all, us, max, d, l, sub, bt, bk, rem, {i}, bt', bk', rem', holes');
    PutIx(t, d, 0, l, sub);
    SubStep(Put(t, d, 0, l, sub), d, 0, l);
  }

  /** Above the split bit the whole bucket goes one way and the other side is empty. */
  lemma AboveSplit(all: seq<Elem>, us: Bits, d: Bits, l: nat, six: nat, e: Elem)
    requires Keyed(all, us) && |e.bits| == |us| && d == Xor(us, e.bits) && l < six < |us|
    requires SplitsAt(Region(all, us, d[..l]), us, six) && e in Region(all, us, d[..l])
    ensures Region(all, us, d[..l] + [d[l]]) == Region(all, us, d[..l])
    ensures Region(all, us, d[..l] + [!d[l]]) == []
  {
    forall x | x in Region(all, us, d[..l]) ensures InRegion(us, d[..l] + [d[l]], x) {
      assert Xor(us, x.bits)[..six] == d[..six];
      assert Xor(us, x.bits)[l] == Xor(us, x.bits)[..six][l] == d[..six][l] == d[l];
      InHalf(us, d[..l], x);
    }
    RegionNarrow(all, us, d[..l], d[l]);
  }

  /** At the split bit the two halves of the bucket are the two sub-regions. */
  lemma AtSplit(all: seq<Elem>, us: Bits, d: Bits, m: nat, b: bool)
    requires Keyed(all, us) && m < |us| == |d|
    ensures Side(Region(all, us, d[..m]), us, m, b) == Region(all, us, d[..m] + [b])
  {
    forall x | x in all ensures InRegion(us, d[..m] + [b], x) <==> InRegion(us, d[..m], x) && OnSide(us, m, b, x) {
      if InRegion(us, d[..m], x) && OnSide(us, m, b, x) {
        InHalf(us, d[..m], x);
      }
      if InRegion(us, d[..m] + [b], x) {
        assert d[..m] <= d[..m] + [b];
        assert (d[..m] + [b])[m] == b;
      }
    }
    FilterFilter(all, x => InRegion(us, d[..m], x), x => OnSide(us, m, b, x), x => InRegion(us, d[..m] + [b], x));
  }

  /** The elements of a leaf share its path, so a split bit is never above it. */
  lemma SplitBelow(all: seq<Elem>, us: Bits, d: Bits, k: nat, six: nat)
    requires k <= |d| == |us| && SplitsAt(Region(all, us, d[..k]), us, six)
    ensures k <= six
  {
    var data := Region(all, us, d[..k]);
    var x, y :| x in data && y in data && Xor(us, x.bits)[six] != Xor(us, y.bits)[six];
    assert InRegion(us, d[..k], x) && InRegion(us, d[..k], y);
  }

  /** The tree with the pending elements `data` moved from the leaf `i` at depth `l` one step
      down `d`, to one of its new children `a` and `b`, the other child being empty. */
  ghost function MovedDown(t: Tree, d: Bits, l: nat, i: nat, a: nat, b: nat, data: seq<Elem>): Tree
    requires HasPath(t, d, 0, l) && l < |d|
  {
    Put(t, d, 0, l, Node(i, Leaf(a, if d[l] then [] else data), Leaf(b, if d[l] then data else [])))
  }

  lemma HoleFacts(t: Tree, all: seq<Elem>, us: Bits, max: nat, d: Bits, l: nat, i: nat,
                  bt: seq<nat>, bk: seq<Slot>, rem: seq<nat>)
    requires TableInv(t, all, us, max, bt, bk, rem, {i})
    requires |d| == |us| && HasPath(t, d, 0, l) && SubAt(t, d, 0, l).Leaf? && SubAt(t, d, 0, l).ix == i
    ensures SubAt(t, d, 0, l).data == Region(all, us, d[..l])
    ensures i in Ix(t) && i < |bk| && bk[i] == None && |bt| == 2 * |bk| && Free(Ix(t), |bk|, rem) && Unused(rem, bk)
  {
    assert d[..0] == [];
    SemAt(t, us, d, 0, l, all);
    RepCtx(t, d, 0, l, bt, bk, {i});
    SubFacts(t, d, 0, l);
  }

  lemma RoundStep(t: Tree, all: seq<Elem>, us: Bits, max: nat, d: Bits, l: nat, six: nat, e: Elem,
                  i: nat, a: nat, b: nat, data: seq<Elem>,
                  bt: seq<nat>, bk: seq<Slot>, rem: seq<nat>, bt': seq<nat>, bk': seq<Slot>, rem': seq<nat>)
    requires TableInv(t, all, us, max, bt, bk, rem, {i})
    requires |e.bits| == |us| && d == Xor(us, e.bits) && e in data && l < six && SplitsAt(data, us, six)
    requires HasPath(t, d, 0, l) && SubAt(t, d, 0, l) == Leaf(i, data)
    requires Grown(Ix(t), i, a, b, bt, bk, bt', bk', rem')
    requires bk'[a] == (if d[l] then Some([]) else None) && bk'[b] == (if d[l] then None else Some([]))
    ensures var t' := MovedDown(t, d, l, i, a, b, data);
            && TableInv(t', all, us, max, bt', bk', rem', {if d[l] then b else a})
            && HasPath(t', d, 0, l + 1) && SubAt(t', d, 0, l + 1) == Leaf(if d[l] then b else a, data)
  {
    HoleFacts(t, all, us, max, d, l, i, bt, bk, rem);
    assert Keyed(all, us);
    hide TableInv, Rep, Sem, Sized, Proper, Free, Unused, AgreeOn, SubAt, HasPath, Put, Ix, Region, SplitsAt;
    AboveSplit(all, us, d, l, six, e);
    ChainStep(t, all, us, max, d, l, i, a, b, bt, bk, rem, bt', bk', rem', {if d[l] then b else a});
  }

  /** The tree with the leaf `i` at depth `l` split into its two halves. */
  ghost function SplitTree(t: Tree, d: Bits, l: nat, i: nat, a: nat, b: nat, left: seq<Elem>, right: seq<Elem>): Tree
    requires HasPath(t, d, 0, l)
  {
    Put(t, d, 0, l, Node(i, Leaf(a, left), Leaf(b, right)))
  }

  lemma EndStep(t: Tree, all: seq<Elem>, us: Bits, max: nat, d: Bits, l: nat,
                i: nat, a: nat, b: nat, data: seq<Elem>, left: seq<Elem>, right: seq<Elem>,
                bt: seq<nat>, bk: seq<Slot>, rem: seq<nat>, bt': seq<nat>, bk': seq<Slot>, rem': seq<nat>)
    requires TableInv(t, all, us, max, bt, bk, rem, {i})
    requires l < |us| == |d| && HasPath(t, d, 0, l) && SubAt(t, d, 0, l) == Leaf(i, data)
    requires left == Side(data, us, l, false) && right == Side(data, us, l, true) && |left| <= max && |right| <= max
    requires Grown(Ix(t), i, a, b, bt, bk, bt', bk', rem')
    requires bk'[a] == Some(left) && bk'[b] == Some(right)
    ensures TableInv(SplitTree(t, d, l, i, a, b, left, right), all, us, max, bt', bk', rem', {})
  {
    HoleFacts(t, all, us, max, d, l, i, bt, bk, rem);
    AtSplit(all, us, d, l, false);
    AtSplit(all, us, d, l, true);
    ChainStep(t, all, us, max, d, l, i, a, b, bt, bk, rem, bt', bk', rem', {});
  }

  // ----- The shape that add gives the tree -----

  /** A tree without the indices. */
  datatype Shape = Bucket(data: seq<Elem>) | Fork(left: Shape, right: Shape)

  ghost function ShapeOf(t: Tree): Shape {
    match t
    case Leaf(_, data) => Bucket(data)
    case Node(_, l, r) => Fork(ShapeOf(l), ShapeOf(r))
  }

  /** The smallest tree below depth `k` that parts the elements. */
  ghost function SplitShape(data: seq<Elem>, us: Bits, k: nat): Shape
    decreases |us| - k
  {
    var left, right := Side(data, us, k, false), Side(data, us, k, true);
    if k >= |us| then Bucket(data)
    else if left == [] then Fork(Bucket([]), SplitShape(data, us, k + 1))
    else if right == [] then Fork(SplitShape(data, us, k + 1), Bucket([]))
    else Fork(Bucket(left), Bucket(right))
  }

  /** The shape of the tree with the subtree at depth `m` along `d` replaced. */
  ghost function ShapeWith(t: Tree, d: Bits, k: nat, m: nat, sub: Shape): Shape
    requires HasPath(t, d, k, m)
  {
    if k == m then sub
    else if d[k] then Fork(ShapeOf(t.left), ShapeWith(t.right, d, k + 1, m, sub))
    else Fork(ShapeWith(t.left, d, k + 1, m, sub), ShapeOf(t.right))
  }

  /** What `add` makes of a shape, below depth `k`: the bucket on the path `d` is touched, and
      split if over-full. */
  ghost function AddTo(s: Shape, us: Bits, max: nat, d: Bits, e: Elem, k: nat): Shape {
    match s
    case Bucket(data) =>
      var all := Touched(data, e);
      if |all| <= max then Bucket(all) else SplitShape(all, us, k)
    case Fork(l, r) =>
      if k < |d| && d[k] then Fork(l, AddTo(r, us, max, d, e, k + 1)) else Fork(AddTo(l, us, max, d, e, k + 1), r)
  }

  /** It replaces the bucket that the walk along `d` ends in. */
  lemma {:induction false} AddToLeaf(t: Tree, us: Bits, max: nat, d: Bits, e: Elem, k: nat)
    requires k <= |d| && Fits(t, |d| - k)
    ensures var m := Depth(t, d, k);
            var all := Touched(SubAt(t, d, k, m).data, e);
            AddTo(ShapeOf(t), us, max, d, e, k) ==
            ShapeWith(t, d, k, m, if |all| <= max then Bucket(all) else SplitShape(all, us, m))
  {
    if t.Node? {
      AddToLeaf(Kid(t, d[k]), us, max, d, e, k + 1);
    }
  }

  lemma {:induction false} ShapeOfPut(t: Tree, d: Bits, k: nat, m: nat, sub: Tree, s: Shape)
    requires HasPath(t, d, k, m)
    ensures ShapeOf(Put(t, d, k, m, sub)) == ShapeWith(t, d, k, m, ShapeOf(sub))
    ensures ShapeWith(Put(t, d, k, m, sub), d, k, m, s) == ShapeWith(t, d, k, m, s)
  {
    if k < m {
      ShapeOfPut(Kid(t, d[k]), d, k + 1, m, sub, s);
    }
  }

  lemma {:induction false} ShapeWithStep(t: Tree, d: Bits, k: nat, m: nat, s: Shape)
    requires k <= m && HasPath(t, d, k, m + 1)
    ensures HasPath(t, d, k, m) && SubAt(t, d, k, m).Node?
    ensures ShapeWith(t, d, k, m + 1, s) ==
            ShapeWith(t, d, k, m, if d[m] then Fork(ShapeOf(SubAt(t, d, k, m).left), s)
                                  else Fork(s, ShapeOf(SubAt(t, d, k, m).right)))
  {
    if k < m {
      ShapeWithStep(Kid(t, d[k]), d, k + 1, m, s);
    }
  }

  /** A round of the splitting loop leaves less to be split of the same shape. */
  lemma MovedDownShape(t: Tree, us: Bits, d: Bits, l: nat, six: nat, e: Elem, i: nat, a: nat, b: nat, data: seq<Elem>)
    requires |e.bits| == |us| && d == Xor(us, e.bits) && e in data && l < six && SplitsAt(data, us, six)
    requires HasPath(t, d, 0, l) && HasPath(MovedDown(t, d, l, i, a, b, data), d, 0, l + 1)
    ensures ShapeWith(MovedDown(t, d, l, i, a, b, data), d, 0, l + 1, SplitShape(data, us, l + 1)) ==
            ShapeWith(t, d, 0, l, SplitShape(data, us, l))
  {
    var t' := MovedDown(t, d, l, i, a, b, data);
    ShapeWithStep(t', d, 0, l, SplitShape(data, us, l + 1));
    SidesAbove(data, us, d, l, six, e);
    ShapeOfPut(t, d, 0, l, SubAt(t', d, 0, l), SplitShape(data, us, l));
  }

  lemma SidesAbove(data: seq<Elem>, us: Bits, d: Bits, l: nat, six: nat, e: Elem)
    requires |e.bits| == |us| && d == Xor(us, e.bits) && e in data && l < six && SplitsAt(data, us, six)
    ensures Side(data, us, l, !d[l]) == [] && Side(data, us, l, d[l]) == data && data != []
  {
    forall x | x in data ensures OnSide(us, l, d[l], x) && !OnSide(us, l, !d[l], x) {
      assert Xor(us, x.bits)[..six] == d[..six];
      assert Xor(us, x.bits)[l] == Xor(us, x.bits)[..six][l] == d[..six][l] == d[l];
    }
    FilterAll(data, x => OnSide(us, l, d[l], x));
    FilterNone(data, x => OnSide(us, l, !d[l], x));
  }

  /** The last round completes the shape. */
  lemma SplitTreeShape(t: Tree, us: Bits, d: Bits, l: nat, i: nat, a: nat, b: nat, data: seq<Elem>)
    requires HasPath(t, d, 0, l) && SplitsAt(data, us, l)
    ensures ShapeOf(SplitTree(t, d, l, i, a, b, Side(data, us, l, false), Side(data, us, l, true))) ==
            ShapeWith(t, d, 0, l, SplitShape(data, us, l))
  {
    SidesPartition(data, us, l);
    var left, right := Side(data, us, l, false), Side(data, us, l, true);
    ShapeOfPut(t, d, 0, l, Node(i, Leaf(a, left), Leaf(b, right)), SplitShape(data, us, l));
  }

  /** The buckets with elements, from left to right. */
  ghost function NonEmpty(s: Shape): seq<seq<Elem>> {
    match s
    case Bucket(data) => if data == [] then [] else [data]
    case Fork(l, r) => NonEmpty(l) + NonEmpty(r)
  }

  ghost function CountBuckets(s: Shape): nat {
    match s
    case Bucket(_) => 1
    case Fork(l, r) => CountBuckets(l) + CountBuckets(r)
  }

  /** Splitting makes exactly two buckets with elements, the halves by the first bit where any two differ, and
      one empty bucket for every bit above it. */
  lemma {:induction false} SplitShapeMeaning(data: seq<Elem>, us: Bits, k: nat, m: nat)
    requires SplitsAt(data, us, m) && k <= m
    ensures NonEmpty(SplitShape(data, us, k)) == [Side(data, us, m, false), Side(data, us, m, true)]
    ensures CountBuckets(SplitShape(data, us, k)) == m - k + 2
    decreases m - k
  {
    hide Side, SplitsAt;
    if k == m {
      SplitsBelow(data, us, m);
      SidesPartition(data, us, m);
    } else {
      SplitsBelow(data, us, m);
      var e := data[0];
      SidesAbove(data, us, Xor(us, e.bits), k, m, e);
      SplitShapeMeaning(data, us, k + 1, m);
    }
  }

  lemma SplitsBelow(data: seq<Elem>, us: Bits, m: nat)
    requires SplitsAt(data, us, m)
    ensures m < |us| && data != [] && |data[0].bits| == |us|
  {
    assert data != [] ==> data[0] in data;
  }

  /** The bucket that the walk along `d` ends in. */
  ghost function EndOf(s: Shape, d: Bits, k: nat): seq<Elem> {
    match s
    case Bucket(data) => data
    case Fork(l, r) => if k < |d| && d[k] then EndOf(r, d, k + 1) else EndOf(l, d, k + 1)
  }

  /** How far down the walk along `d` goes. */
  ghost function PathDepth(s: Shape, d: Bits, k: nat): nat {
    match s
    case Bucket(_) => 0
    case Fork(l, r) => 1 + if k < |d| && d[k] then PathDepth(r, d, k + 1) else PathDepth(l, d, k + 1)
  }

  /** A bucket that still fits stays where it is, with the element at its end, and no bucket is made; one that
      is over-full is split, and only the buckets of the split are made. */
  lemma {:induction false} AddToMeaning(s: Shape, us: Bits, max: nat, d: Bits, e: Elem, k: nat)
    ensures var data, r := Touched(EndOf(s, d, k), e), AddTo(s, us, max, d, e, k);
            && (|data| <= max ==> PathDepth(r, d, k) == PathDepth(s, d, k) && EndOf(r, d, k) == data)
            && (|data| <= max ==> CountBuckets(r) == CountBuckets(s))
            && (|data| > max ==>
                  CountBuckets(r) == CountBuckets(s) - 1 + CountBuckets(SplitShape(data, us, k + PathDepth(s, d, k))))
  {
    hide SplitShape;
    if s.Fork? {
      AddToMeaning(if k < |d| && d[k] then s.right else s.left, us, max, d, e, k + 1);
    }
  }
}
