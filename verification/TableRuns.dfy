/** Whole runs of a Kademlia table. */
module TableRuns {
  import opened Sequences
  import opened Elements
  import opened KBuckets
  import opened BucketTree
  import opened BucketGrowth
  import opened BucketPruning
  import opened BucketQueries
  import opened Nearness
  import opened KNodeTables

  // ----- Runs of add and remove -----

  datatype Op = Add(elem: Elem) | Remove(elem: Elem)

  ghost predicate KeyedOps(ops: seq<Op>, us: Bits) {
    forall i :: 0 <= i < |ops| ==> |ops[i].elem.bits| == |us|
  }

  function NextRecent(all: seq<Elem>, op: Op): seq<Elem> {
    if op.Add? then Touched(all, op.elem) else Without(all, op.elem)
  }

  /** The stored elements, oldest first. */
  function RecentAfter(ops: seq<Op>): seq<Elem> {
    if ops == [] then [] else NextRecent(RecentAfter(ops[..|ops| - 1]), ops[|ops| - 1])
  }

  ghost function NextShape(s: Shape, us: Bits, max: nat, op: Op): Option<Shape>
    requires |op.elem.bits| == |us|
  {
    var d := Xor(us, op.elem.bits);
    if op.Add? then Some(AddTo(s, us, max, d, op.elem, 0))
    else if RemoveFrom(s, d, op.elem, 0) == Wrong then None
    else Some(ResultOf(RemoveFrom(s, d, op.elem, 0)))
  }

  /** The shape of the table, as long as no removal went wrong. */
  ghost function ShapeAfter(us: Bits, max: nat, ops: seq<Op>): Option<Shape>
    requires KeyedOps(ops, us)
  {
    if ops == [] then Some(Bucket([]))
    else
      var before := ShapeAfter(us, max, ops[..|ops| - 1]);
      if before.None? then None else NextShape(before.value, us, max, ops[|ops| - 1])
  }

  /** No addition ends in an over-full bucket that cannot be split. */
  ghost predicate AddsFit(ops: seq<Op>, max: nat) {
    forall i :: 0 <= i < |ops| && ops[i].Add? ==> |Collisions(RecentAfter(ops[..i + 1]), ops[i].elem.bits)| <= max
  }

  /** `x` was added, and no later operation was about it. */
  ghost predicate AddedLast(ops: seq<Op>, i: nat, x: Elem) {
    i < |ops| && ops[i] == Add(x) && forall j :: i < j < |ops| ==> !Same(ops[j].elem, x)
  }

  /** What is stored is exactly what was added and not added again or removed since. */
  lemma {:induction false} StoredIffAddedLast(ops: seq<Op>)
    ensures Distinct(RecentAfter(ops))
    ensures forall x :: x in RecentAfter(ops) <==> exists i: nat :: AddedLast(ops, i, x)
  {
    if ops != [] {
      var n := |ops| - 1;
      StoredIffAddedLast(ops[..n]);
      var before, e := RecentAfter(ops[..n]), ops[n].elem;
      TouchedDistinct(before, e);
      forall x ensures x in RecentAfter(ops) <==> exists i: nat :: AddedLast(ops, i, x) {
        AddedLastStep(ops, x);
        assert x in RecentAfter(ops) <==> (x in before && !Same(e, x)) || ops[n] == Add(x);
      }
    }
  }

  lemma AddedLastStep(ops: seq<Op>, x: Elem)
    requires ops != []
    ensures var n := |ops| - 1;
            (exists i: nat :: AddedLast(ops, i, x)) <==>
            ((exists i: nat :: AddedLast(ops[..n], i, x)) && !Same(ops[n].elem, x)) || ops[n] == Add(x)
  {
    var n := |ops| - 1;
    if ops[n] == Add(x) {
      assert AddedLast(ops, n, x);
    } else {
      forall i: nat ensures AddedLast(ops, i, x) <==> AddedLast(ops[..n], i, x) && !Same(ops[n].elem, x) {
        if AddedLast(ops[..n], i, x) {
          assert forall j :: 0 <= j < n ==> ops[..n][j] == ops[j];
        }
      }
    }
  }

  lemma {:induction false} PrefixHasShape(us: Bits, max: nat, ops: seq<Op>, i: nat)
    requires KeyedOps(ops, us) && ShapeAfter(us, max, ops).Some? && i <= |ops|
    ensures ShapeAfter(us, max, ops[..i]).Some?
  {
    if i == |ops| {
      assert ops[..i] == ops;
    } else {
      PrefixHasShape(us, max, ops[..|ops| - 1], i);
      assert ops[..|ops| - 1][..i] == ops[..i];
    }
  }

  lemma NothingYet(us: Bits, max: nat)
    ensures KeyedOps([], us) && RecentAfter([]) == [] && ShapeAfter(us, max, []) == Some(Bucket([]))
  {
  }

  /** What operation `i` of a run starts from, and what it should lead to. */
  lemma StepOf(us: Bits, max: nat, ops: seq<Op>, i: nat)
    requires i < |ops| && KeyedOps(ops, us) && AddsFit(ops, max) && ShapeAfter(us, max, ops[..|ops| - 1]).Some?
    ensures var before := ops[..i];
            && |ops[i].elem.bits| == |us| && KeyedOps(before, us) && KeyedOps(ops[..i + 1], us)
            && RecentAfter(ops[..i + 1]) == NextRecent(RecentAfter(before), ops[i])
            && ShapeAfter(us, max, before).Some?
            && ShapeAfter(us, max, ops[..i + 1]) == NextShape(ShapeAfter(us, max, before).value, us, max, ops[i])
            && (ops[i].Add? ==> |Collisions(NextRecent(RecentAfter(before), ops[i]), ops[i].elem.bits)| <= max)
  {
    hide NextShape, NextRecent, Collisions;
    var n := |ops| - 1;
    PrefixHasShape(us, max, ops[..n], i);
    assert ops[..n][..i] == ops[..i] && ops[..i + 1][..i] == ops[..i];
  }

  /** The table is valid, with this list and this shape; or, without a shape, no tree and no list
      fit its vectors. */
  ghost predicate IsAfter(table: KNodeTable, all: seq<Elem>, shape: Option<Shape>)
    reads table, table.buckets
  {
    match shape
    case Some(s) => table.Valid() && table.recent == all && ShapeOf(table.tree) == s
    case None =>
      forall u, l :: !TableInv(u, l, table.us, table.bucketSize, table.bintree, View(table.buckets), table.remIx, {})
  }

  /** One operation. */
  method Apply(table: KNodeTable, op: Op)
    requires table.Valid() && |op.elem.bits| == |table.us|
    requires op.Add? ==> |Collisions(NextRecent(table.recent, op), op.elem.bits)| <= table.bucketSize
    modifies table, table.buckets
    ensures IsAfter(table, NextRecent(old(table.recent), op),
                    NextShape(ShapeOf(old(table.tree)), table.us, table.bucketSize, op))
    ensures forall b :: b in table.buckets ==> b == null || b in old(table.buckets) || fresh(b)
  {
    hide TableInv, AddTo, RemoveFrom, ResultOf, Collisions, ShapeOf, Touched, Without;
    match op {
      case Add(e) =>
        table.Add(e);
      case Remove(e) =>
        var _ := table.Remove(e);
    }
  }

  /** Over every run from an empty table: as long as no removal goes wrong, the table is valid, it
      holds the reference list and it has the reference shape. The first removal that goes wrong
      leaves vectors that no tree and no list fit. */
  method Run(us: Bits, bucketSize: nat, ops: seq<Op>) returns (table: KNodeTable)
    requires bucketSize > 1 && KeyedOps(ops, us) && AddsFit(ops, bucketSize)
    requires ops != [] ==> ShapeAfter(us, bucketSize, ops[..|ops| - 1]).Some?
    ensures fresh(table) && table.us == us && table.bucketSize == bucketSize
    ensures IsAfter(table, RecentAfter(ops), ShapeAfter(us, bucketSize, ops))
  {
    hide TableInv, NextShape, NextRecent, Collisions, RecentAfter, ShapeAfter, AddsFit, KeyedOps;
    NothingYet(us, bucketSize);
    table := new KNodeTable(us, bucketSize);
    for i := 0 to |ops|
      invariant fresh(table) && table.us == us && table.bucketSize == bucketSize
      invariant forall b :: b in table.buckets && b != null ==> fresh(b)
      invariant KeyedOps(ops[..i], us) && IsAfter(table, RecentAfter(ops[..i]), ShapeAfter(us, bucketSize, ops[..i]))
    {
      StepOf(us, bucketSize, ops, i);
      OwnBuckets(table);
      Apply(table, ops[i]);
    }
    assert ops[..|ops|] == ops;
  }

  // ----- Runs of add -----

  /** The recency list after the elements were seen in this order. */
  function Recency(es: seq<Elem>): seq<Elem> {
    if es == [] then [] else Touched(Recency(es[..|es| - 1]), es[|es| - 1])
  }

  predicate Again(e: Elem, s: seq<Elem>) {
    exists x :: x in s && Same(e, x)
  }

  /** The last occurrence of every element, in order. */
  function LastOccurrences(es: seq<Elem>): seq<Elem> {
    if es == [] then []
    else (if Again(es[0], es[1..]) then [] else [es[0]]) + LastOccurrences(es[1..])
  }

  lemma {:induction false} RecencyKeeps(es: seq<Elem>)
    ensures forall x :: x in Recency(es) ==> x in es
    ensures Distinct(Recency(es))
  {
    if es != [] {
      RecencyKeeps(es[..|es| - 1]);
      TouchedDistinct(Recency(es[..|es| - 1]), es[|es| - 1]);
    }
  }

  /** Re-adding moves to the end: the recency list is the list of last occurrences. */
  lemma {:induction false} RecencyIsLastOccurrences(es: seq<Elem>)
    ensures Recency(es) == LastOccurrences(es)
  {
    if es != [] {
      var n := |es| - 1;
      RecencyIsLastOccurrences(es[..n]);
      assert es == es[..n] + [es[n]];
      LastOccurrencesSnoc(es[..n], es[n]);
    }
  }

  lemma {:induction false} LastOccurrencesSnoc(es: seq<Elem>, e: Elem)
    ensures LastOccurrences(es + [e]) == Touched(LastOccurrences(es), e)
  {
    if es == [] {
      assert es + [e] == [e];
    } else {
      hide Again;
      LastOccurrencesSnoc(es[1..], e);
      assert (es + [e])[1..] == es[1..] + [e];
      AgainSnoc(es[0], es[1..], e);
      var head := if Again(es[0], es[1..]) then [] else [es[0]];
      FilterAppend(head, LastOccurrences(es[1..]), x => !Same(e, x));
    }
  }

  lemma AgainSnoc(a: Elem, s: seq<Elem>, e: Elem)
    ensures Again(a, s + [e]) <==> Again(a, s) || Same(a, e)
  {
    assert forall x :: x in s + [e] <==> x in s || x == e;
  }

  /** Every run of `add` from an empty table, for elements that are told apart by their bits,
      ends in a valid table that holds the last occurrence of every element, in order. */
  method AddAll(us: Bits, bucketSize: nat, es: seq<Elem>) returns (table: KNodeTable)
    requires bucketSize > 1 && Keyed(es, us) && BitsAreKeys(es)
    ensures fresh(table) && table.us == us && table.bucketSize == bucketSize
    ensures table.Valid() && table.recent == LastOccurrences(es)
  {
    hide TableInv;
    table := new KNodeTable(us, bucketSize);
    for i := 0 to |es|
      invariant table.us == us && table.bucketSize == bucketSize
      invariant fresh(table) && (forall b :: b in table.buckets && b != null ==> fresh(b))
      invariant table.Valid() && table.recent == Recency(es[..i])
    {
      assert es[..i + 1][..i] == es[..i] && es[i] in es;
      RecencyKeeps(es[..i + 1]);
      assert BitsAreKeys(Recency(es[..i + 1]));
      FewCollisions(Recency(es[..i + 1]), es[i].bits);
      OwnBuckets(table);
      table.Add(es[i]);
    }
    assert es[..|es|] == es;
    RecencyIsLastOccurrences(es);
  }

  /** Three additions to an empty table, and then the removal of an element that was never added: after
      that no tree and no list fit the table any more, and looking up `lost`, which was added and never
      removed, ends, along the nodes of `path`, in the bucket of slot `ix`, which does not hold it. */
  method RemoveBreaksTable() returns (table: KNodeTable, res: bool, lost: Elem, ix: nat, ghost path: Tree)
    ensures !res
    ensures forall u, s ::
              !TableInv(u, s, table.us, table.bucketSize, table.bintree, View(table.buckets), table.remIx, {})
    ensures lost in table.recent && |lost.bits| == |table.us| && path.ix == 0 && Fits(path, |table.us|)
    ensures Walk(path, Xor(table.us, lost.bits), 0, table.bintree, View(table.buckets))
    ensures ix == LeafAt(path, Xor(table.us, lost.bits), 0).ix
    ensures ix < |table.buckets| && table.buckets[ix] != null && lost !in table.buckets[ix].data
  {
    hide TableInv, MergesOnce, ShapeOf, SplitShape, RemoveFrom;
    var us := [false, false, false];
    var a := Elem([true, false, false], 1, 0);
    var b := Elem([true, true, false], 2, 0);
    var c := Elem([true, true, true], 3, 0);
    assert a.bits[1] != b.bits[1] && a.bits[1] != c.bits[1] && b.bits[2] != c.bits[2];
    table := FewAdded(us, [a, b, c]);
    ExampleSplit(us, a, b, c);
    ghost var t, bt, bk, rem := table.tree, table.bintree, View(table.buckets), table.remIx;
    var e := Elem(us, 4, 0);
    ExampleGoesWrong(us, e, Fork(Bucket([a]), Bucket([b, c])));
    OwnBuckets(table);
    ghost var all := table.recent;
    WithoutAbsent(all, e);
    res := table.Remove(e);
    ghost var bt', bk' := table.bintree, View(table.buckets);
    ExampleDamage(t, us, all, e, a, [b, c], bt, bk, rem, bt', bk', table.remIx);
    path := Node(0, Leaf(0, []), Leaf(bt'[1], [a]));
    ExampleWalk(path, us, b, bt', bk');
    lost := b;
    var _, i := table.ResolveBucket(lost.bits, path);
    ix := i;
  }

  lemma ExampleGoesWrong(us: Bits, e: Elem, right: Shape)
    requires us == e.bits == [false, false, false] && right.Fork?
    ensures RemoveFrom(Fork(Bucket([]), right), Xor(us, e.bits), e, 0) == Wrong
  {
    assert !Xor(us, e.bits)[0];
    assert RemoveFrom(Bucket([]), Xor(us, e.bits), e, 1) == Rising([]);
  }

  /** What the removal leaves of the example: where an inner node was, there is now the bucket of `a`. */
  lemma ExampleDamage(t: Tree, us: Bits, all: seq<Elem>, e: Elem, a: Elem, others: seq<Elem>,
                      bt: seq<nat>, bk: seq<Slot>, rem: seq<nat>, bt': seq<nat>, bk': seq<Slot>, rem': seq<nat>)
    requires us == e.bits == [false, false, false] && TableInv(t, all, us, 2, bt, bk, rem, {})
    requires ShapeOf(t) == Fork(Bucket([]), Fork(Bucket([a]), Bucket(others)))
    requires MergesOnce(t, us, e, bt, bk, rem, bt', bk', rem')
    ensures |bt'| == 2 * |bk'| && |bk'| > 0 && bk'[0] == None && bt'[1] < |bk'| && bk'[bt'[1]] == Some([a])
  {
    hide Sem, Sized, Free, Unused;
    var d, d' := Xor(us, e.bits), [true, false, false];
    assert d == us && d[0 := !d[0]] == d';
    assert t.Node? && ShapeOf(t.left) == Bucket([]) && ShapeOf(t.right) == Fork(Bucket([a]), Bucket(others));
    assert t.left == Leaf(t.left.ix, []) && t.right.Node? && t.right.left == Leaf(t.right.left.ix, [a]) by {
      assert ShapeOf(t.right.left) == Bucket([a]);
    }
    assert Depth(t.left, d, 1) == 1 && Depth(t, d, 0) == 1;
    assert Put(t.left, d, 1, 1, Leaf(t.left.ix, [])) == t.left;
    assert TakenOut(t, us, e) == t;
    assert Depth(t.right.left, d', 2) == 2 && Depth(t.right, d', 1) == 2 && Depth(t, d', 0) == 2;
    assert LeafAt(t, d', 0) == t.right.left;
    assert ParentIx(t.right, d', 1, 0) == t.right.ix && ParentIx(t, d', 0, 0) == t.right.ix;
    assert Rep(t.right, bt, bk, {}) && Rep(t.right.left, bt, bk, {}) && bk[t.right.left.ix] == Some([a]);
    assert t.right.left.ix in Ix(t.right.left) && t.right.left.ix in Ix(t.right);
    assert bt'[1] == bt[2 * t.ix + 1] == t.right.ix;
  }

  lemma ExampleWalk(t: Tree, us: Bits, b: Elem, bt: seq<nat>, bk: seq<Slot>)
    requires us == [false, false, false] && b.bits == [true, true, false]
    requires |bt| == 2 * |bk| && |bk| > 0 && bk[0] == None
    requires t.Node? && t.ix == 0 && t.left.Leaf? && t.right.Leaf? && t.right.ix == bt[1] < |bk|
    requires bk[bt[1]] == Some(t.right.data)
    ensures Fits(t, |us|) && Walk(t, Xor(us, b.bits), 0, bt, bk) && LeafAt(t, Xor(us, b.bits), 0) == t.right
  {
    var d := Xor(us, b.bits);
    assert d[0];
    assert Depth(t.right, d, 1) == 1 && Depth(t, d, 0) == 1;
  }

  /** The table after up to three additions, with buckets for two: one bucket, and then the first split. */
  method FewAdded(us: Bits, es: seq<Elem>) returns (table: KNodeTable)
    requires |es| <= 3 && Keyed(es, us) && forall i, j :: 0 <= i < j < |es| ==> es[i].bits != es[j].bits
    ensures fresh(table) && (forall x :: x in table.buckets && x != null ==> fresh(x)) && table.Valid()
    ensures table.us == us && table.bucketSize == 2 && table.recent == es
    ensures if |es| < 3 then table.tree.Leaf? && table.tree.data == es else ShapeOf(table.tree) == SplitShape(es, us, 0)
  {
    hide TableInv, Touched, Collisions, SplitShape, AddTo, Fits;
    table := new KNodeTable(us, 2);
    for i := 0 to |es|
      invariant table.us == us && table.bucketSize == 2 && fresh(table)
      invariant forall x :: x in table.buckets && x != null ==> fresh(x)
      invariant table.Valid() && table.recent == es[..i]
      invariant if i < 3 then table.tree.Leaf? && table.tree.data == es[..i]
                else ShapeOf(table.tree) == SplitShape(es, us, 0)
    {
      assert es[i] in es;
      ExampleAdd(table.tree, us, es[..i], es[i]);
      assert es[..i] + [es[i]] == es[..i + 1] && (i == 2 ==> es[..3] == es);
      OwnBuckets(table);
      table.Add(es[i]);
    }
    assert es[..|es|] == es;
  }

  /** `get_closest` returns the latest of a bucket, not the nearest: after adding two elements, the nearer
      one first, asking for one gives the farther one. */
  method LatestIsNotNearest() returns (table: KNodeTable, r: seq<Elem>, near: Elem, far: Elem)
    ensures table.Valid() && table.recent == [near, far]
    ensures r == [far] && Nearer(table.us, near, far) && !Nearest(r, table.recent, table.us)
  {
    hide TableInv;
    var us := [false, false];
    near, far := Elem([false, true], 1, 0), Elem([true, false], 2, 0);
    assert near.bits[0] != far.bits[0];
    table := FewAdded(us, [near, far]);
    hide Nearer, Nearest, Closest, VisitsInOrder, Fits, Latest, NoDup;
    r := table.GetClosest(us, 1);
    RootBucket(table.tree, Xor(us, us));
    LatestOfTwo(near, far);
    NearBeforeFar(us, near, far);
    FartherIsNotNearest(us, near, far);
  }

  lemma RootBucket(t: Tree, d: Bits)
    requires t.Leaf? && Fits(t, |d|)
    ensures LeafAt(t, d, 0) == t
  {
  }

  lemma LatestOfTwo(a: Elem, b: Elem)
    ensures forall r :: Latest([a, b], 1) <= r && |r| == 1 ==> r == [b]
  {
    assert [a, b][1..] == [b];
  }

  lemma NearBeforeFar(us: Bits, near: Elem, far: Elem)
    requires us == [false, false] && near.bits == [false, true] && far.bits == [true, false]
    ensures Nearer(us, near, far)
  {
    assert Xor(us, near.bits) == near.bits && Xor(us, far.bits) == far.bits;
  }

  lemma FartherIsNotNearest(id: Bits, near: Elem, far: Elem)
    requires Nearer(id, near, far)
    ensures !Nearest([far], [near, far], id)
  {
    NearerIsAsymmetric(id, near, far);
    assert far in [far] && near in [near, far] && near !in [far];
  }

  /** Three elements with the same bits do not fit into buckets of two: after two of them, adding the
      third ends in a bucket that cannot be split. */
  method ThirdCollisionPanics() returns (table: KNodeTable, e: Elem)
    ensures table.Valid() && |e.bits| == |table.us| && Fits(table.tree, |table.us|)
    ensures !Splittable(table.tree, table.us, table.bucketSize, e)
  {
    hide TableInv, Fits, Splittable;
    var us := [false];
    var a, b := Elem(us, 1, 0), Elem(us, 2, 0);
    e := Elem(us, 3, 0);
    table := new KNodeTable(us, 2);
    Colliding(a, b, e);
    OwnBuckets(table);
    table.Add(a);
    OwnBuckets(table);
    table.Add(b);
    SplittableIffFewCollisions(table.tree, table.recent, us, 2, table.bintree, View(table.buckets), table.remIx, e);
  }

  lemma Colliding(a: Elem, b: Elem, c: Elem)
    requires a.bits == b.bits == c.bits && a.key != b.key && a.key != c.key && b.key != c.key
    ensures Touched([], a) == [a] && Touched([a], b) == [a, b] && Touched([a, b], c) == [a, b, c]
    ensures |Collisions([a], a.bits)| == 1 && |Collisions([a, b], a.bits)| == 2 && |Collisions([a, b, c], a.bits)| == 3
  {
    WithoutAbsent([], a);
    WithoutAbsent([a], b);
    WithoutAbsent([a, b], c);
    FilterAll([a], (x: Elem) => x.bits == a.bits);
    FilterAll([a, b], (x: Elem) => x.bits == a.bits);
    FilterAll([a, b, c], (x: Elem) => x.bits == a.bits);
  }

  lemma OwnBuckets(table: KNodeTable)
    ensures forall k :: 0 <= k < |table.buckets| ==> table.buckets[k] in table.buckets
  {
  }

  /** Adding a new element to a table that is a single bucket. */
  lemma ExampleAdd(t: Tree, us: Bits, data: seq<Elem>, e: Elem)
    requires t.Leaf? && t.data == data && |data| <= 2 && |e.bits| == |us|
    requires forall i, j :: 0 <= i < j < |data| ==> data[i].bits != data[j].bits
    requires forall i :: 0 <= i < |data| ==> data[i].bits != e.bits
    ensures Touched(data, e) == data + [e] && |Collisions(Touched(data, e), e.bits)| <= 2
    ensures AddTo(ShapeOf(t), us, 2, Xor(us, e.bits), e, 0) ==
            if |data| < 2 then Bucket(data + [e]) else SplitShape(data + [e], us, 0)
  {
    WithoutAbsent(data, e);
    FewCollisions(data + [e], e.bits);
  }

  lemma ExampleSplit(us: Bits, a: Elem, b: Elem, c: Elem)
    requires us == [false, false, false]
    requires a.bits == [true, false, false] && b.bits == [true, true, false] && c.bits == [true, true, true]
    ensures SplitShape([a, b, c], us, 0) == Fork(Bucket([]), Fork(Bucket([a]), Bucket([b, c])))
  {
    hide Side;
    var data := [a, b, c];
    ExampleSides(us, a, b, c);
    assert SplitShape(data, us, 1) == Fork(Bucket([a]), Bucket([b, c]));
  }

  lemma ExampleSides(us: Bits, a: Elem, b: Elem, c: Elem)
    requires us == [false, false, false]
    requires a.bits == [true, false, false] && b.bits == [true, true, false] && c.bits == [true, true, true]
    ensures Side([a, b, c], us, 0, false) == []
    ensures Side([a, b, c], us, 1, false) == [a] && Side([a, b, c], us, 1, true) == [b, c]
  {
    hide Side;
    SideOfThree(us, a, b, c, 0, false);
    SideOfThree(us, a, b, c, 1, false);
    SideOfThree(us, a, b, c, 1, true);
  }

  lemma SideOfThree(us: Bits, a: Elem, b: Elem, c: Elem, m: nat, side: bool)
    requires |us| == |a.bits| == |b.bits| == |c.bits| > m && !us[m]
    ensures Side([a, b, c], us, m, side) ==
            (if a.bits[m] == side then [a] else []) + (if b.bits[m] == side then [b] else [])
            + (if c.bits[m] == side then [c] else [])
  {
    hide Filter;
    FilterThree(a, b, c, x => OnSide(us, m, side, x));
  }

  lemma FilterThree(a: Elem, b: Elem, c: Elem, f: Elem -> bool)
    ensures Filter([a, b, c], f) == (if f(a) then [a] else []) + (if f(b) then [b] else []) + (if f(c) then [c] else [])
  {
    assert [a, b, c][1..] == [b, c] && [b, c][1..] == [c] && [c][1..] == [];
    assert Filter([c], f) == if f(c) then [c] else [];
    assert Filter([b, c], f) == (if f(b) then [b] else []) + Filter([c], f);
    assert Filter([a, b, c], f) == (if f(a) then [a] else []) + Filter([b, c], f);
  }
}
