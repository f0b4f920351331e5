/** Which elements of a table are nearest to an identifier. */
module Nearness {
  import opened Sequences
  import opened Elements
  import opened KBuckets
  import opened BucketTree
  import opened BucketGrowth
  import opened BucketQueries

  /** `a` is strictly nearer to `id` than `b`, by XOR distance. */
  predicate Nearer(id: Bits, a: Elem, b: Elem) {
    |a.bits| == |b.bits| == |id| && Less(Xor(id, a.bits), Xor(id, b.bits))
  }

  /** No element that was left out is nearer than one that was chosen. */
  ghost predicate Nearest(r: seq<Elem>, all: seq<Elem>, id: Bits) {
    forall x, y :: x in r && y in all && y !in r ==> !Nearer(id, y, x)
  }

  // ----- The order of distances -----

  /** The first bit where two distances differ decides. */
  lemma {:induction false} FirstDifference(a: Bits, b: Bits, m: nat)
    requires m < |a| == |b| && a[..m] == b[..m] && !a[m] && b[m]
    ensures Less(a, b)
  {
    if m > 0 {
      assert a[0] == a[..m][0] == b[..m][0] == b[0];
      assert a[1..][..m - 1] == a[..m][1..] && b[1..][..m - 1] == b[..m][1..];
      FirstDifference(a[1..], b[1..], m - 1);
    }
  }

  lemma {:induction false} LessIsAsymmetric(a: Bits, b: Bits)
    requires Less(a, b)
    ensures !Less(b, a)
  {
    if a != [] && a[0] == b[0] {
      LessIsAsymmetric(a[1..], b[1..]);
    }
  }

  lemma NearerIsAsymmetric(id: Bits, x: Elem, y: Elem)
    requires Nearer(id, x, y)
    ensures !Nearer(id, y, x)
  {
    LessIsAsymmetric(Xor(id, x.bits), Xor(id, y.bits));
  }

  /** Of two elements that part below the path `p`, the one that goes the way of `id` is nearer. */
  lemma PartingWays(us: Bits, id: Bits, p: Bits, x: Elem, y: Elem)
    requires |id| == |us| && |p| < |us|
    requires InRegion(us, p + [Xor(us, id)[|p|]], x) && InRegion(us, p + [!Xor(us, id)[|p|]], y)
    ensures Nearer(id, x, y)
  {
    var m, a, b := |p|, Xor(id, x.bits), Xor(id, y.bits);
    var px, py := p + [Xor(us, id)[m]], p + [!Xor(us, id)[m]];
    forall k | 0 <= k < m ensures a[k] == b[k] {
      assert px[k] == py[k] && Xor(us, x.bits)[k] == px[k] && Xor(us, y.bits)[k] == py[k];
    }
    assert Xor(us, x.bits)[m] == px[m] && Xor(us, y.bits)[m] == py[m];
    FirstDifference(a, b, m);
  }

  /** Elements that share the path `p` with `id` are nearer than all others. */
  lemma InsideIsNearer(us: Bits, id: Bits, p: Bits, x: Elem, y: Elem)
    requires |id| == |us| == |y.bits| && p <= Xor(us, id) && InRegion(us, p, x) && !InRegion(us, p, y)
    ensures Nearer(id, x, y)
  {
    var d, dy := Xor(us, id), Xor(us, y.bits);
    var j := FirstOff(p, dy);
    assert p[..j] + [d[j]] <= Xor(us, x.bits);
    assert p[..j] + [!d[j]] == dy[..j + 1];
    PartingWays(us, id, p[..j], x, y);
  }

  /** Where a path first leaves `d`. */
  lemma {:induction false} FirstOff(p: Bits, d: Bits) returns (j: nat)
    requires |p| <= |d| && !(p <= d)
    ensures j < |p| && p[..j] == d[..j] && p[j] != d[j]
  {
    var n := |p| - 1;
    if p[..n] <= d {
      j := n;
      assert p == p[..n] + [p[n]];
    } else {
      j := FirstOff(p[..n], d);
      assert p[..n][..j] == p[..j];
    }
  }

  // ----- The bucket of an identifier -----

  /** Every element of the bucket that `id` resolves to is strictly nearer to `id` than every stored
      element outside it. */
  lemma BucketIsNearest(t: Tree, all: seq<Elem>, us: Bits, max: nat, bt: seq<nat>, bk: seq<Slot>,
                        rem: seq<nat>, id: Bits)
    requires TableInv(t, all, us, max, bt, bk, rem, {}) && |id| == |us|
    ensures Fits(t, |us|) && LeafAt(t, Xor(us, id), 0).Leaf?
    ensures var data := LeafAt(t, Xor(us, id), 0).data;
            forall x, y :: x in data && y in all && y !in data ==> Nearer(id, x, y)
  {
    var d := Xor(us, id);
    LeafFacts(t, all, us, max, bt, bk, rem, d);
    hide Rep, Sem, Sized, Proper, Unused, Free, Walk, Depth, SubAt, HasPath;
    var m, data := Depth(t, d, 0), LeafAt(t, d, 0).data;
    forall x, y | x in data && y in all && y !in data ensures Nearer(id, x, y) {
      InsideIsNearer(us, id, d[..m], x, y);
    }
  }

  /** Whether a choice within the bucket is nearest in the whole table is decided within the bucket. */
  lemma NearestInBucket(r: seq<Elem>, data: seq<Elem>, all: seq<Elem>, id: Bits)
    requires forall x :: x in r ==> x in data
    requires forall x :: x in data ==> x in all
    requires forall x, y :: x in data && y in all && y !in data ==> Nearer(id, x, y)
    ensures Nearest(r, all, id) <==> Nearest(r, data, id)
  {
    forall x, y | x in data && y in all && y !in data ensures !Nearer(id, y, x) {
      NearerIsAsymmetric(id, x, y);
    }
  }

  // ----- All buckets are ordered by nearness -----

  /** Every element of slot `i` is nearer than every element of slot `j`. */
  ghost predicate SlotNearer(bk: seq<Slot>, id: Bits, i: nat, j: nat) {
    forall x, y :: Holds(bk, i, x) && Holds(bk, j, y) ==> Nearer(id, x, y)
  }

  /** Of any two buckets of a subtree, one is nearer to `id` as a whole. */
  lemma {:induction false} SlotsAreOrdered(t: Tree, us: Bits, p: Bits, all: seq<Elem>, bt: seq<nat>,
                                           bk: seq<Slot>, id: Bits)
    requires Proper(t) && Rep(t, bt, bk, {}) && Sem(t, us, p, all) && Distinct(all) && |id| == |us|
    ensures forall i, j :: i in Ix(t) && j in Ix(t) && i != j ==> SlotNearer(bk, id, i, j) || SlotNearer(bk, id, j, i)
  {
    if t.Node? {
      var b := Xor(us, id)[|p|];
      SlotsAreOrdered(t.left, us, p + [false], all, bt, bk, id);
      SlotsAreOrdered(t.right, us, p + [true], all, bt, bk, id);
      BucketsPartition(t.left, us, p + [false], all, bt, bk);
      BucketsPartition(t.right, us, p + [true], all, bt, bk);
      forall i, j | i in Ix(Kid(t, b)) && j in Ix(Kid(t, !b)) ensures SlotNearer(bk, id, i, j) {
        SidesAreOrdered(t, us, p, all, bk, id, i, j);
      }
      assert forall x :: !Holds(bk, t.ix, x);
    }
  }

  lemma SidesAreOrdered(t: Tree, us: Bits, p: Bits, all: seq<Elem>, bk: seq<Slot>, id: Bits, i: nat, j: nat)
    requires t.Node? && |id| == |us| && |p| < |us|
    requires var b := Xor(us, id)[|p|];
             && (forall x :: Holds(bk, i, x) ==> x in Region(all, us, p + [b]))
             && (forall x :: Holds(bk, j, x) ==> x in Region(all, us, p + [!b]))
    ensures SlotNearer(bk, id, i, j)
  {
    forall x, y | Holds(bk, i, x) && Holds(bk, j, y) ensures Nearer(id, x, y) {
      PartingWays(us, id, p, x, y);
    }
  }

  /** Something was taken from slot `i`. */
  ghost predicate TakenFrom(bk: seq<Slot>, r: seq<Elem>, i: nat) {
    exists x :: Holds(bk, i, x) && x in r
  }

  /** Something was left in slot `j`. */
  ghost predicate LeftIn(bk: seq<Slot>, r: seq<Elem>, j: nat) {
    exists y :: Holds(bk, j, y) && y !in r
  }

  /** Every bucket that something was taken from is nearer than every other bucket that something was
      left in, and a bucket that was taken in part was taken nearest first. */
  ghost predicate TakenInOrder(bk: seq<Slot>, r: seq<Elem>, id: Bits) {
    && (forall i: nat, j: nat :: i != j && TakenFrom(bk, r, i) && LeftIn(bk, r, j) ==> SlotNearer(bk, id, i, j))
    && forall i: nat :: i < |bk| && bk[i].Some? ==> NearestHere(bk[i].value, r, id)
  }

  ghost predicate NearestHere(data: seq<Elem>, r: seq<Elem>, id: Bits) {
    forall x, y :: x in data && y in data && x in r && y !in r ==> !Nearer(id, y, x)
  }

  /** A choice of stored elements is nearest exactly when it takes whole buckets in the order of their
      nearness. */
  lemma NearestIffInOrder(t: Tree, all: seq<Elem>, us: Bits, max: nat, bt: seq<nat>, bk: seq<Slot>, rem: seq<nat>,
                          id: Bits, r: seq<Elem>)
    requires TableInv(t, all, us, max, bt, bk, rem, {}) && |id| == |us| && forall x :: x in r ==> x in all
    ensures Nearest(r, all, id) <==> TakenInOrder(bk, r, id)
  {
    SlotsAreOrdered(t, us, [], all, bt, bk, id);
    SlotsPartition(t, all, us, max, bt, bk, rem);
    SlotsInTree(t, all, us, max, bt, bk, rem);
    hide TableInv, SlotNearer, Disjoint, TakenInOrder, Nearer, NearestHere, Nearest, Ix;
    if Nearest(r, all, id) {
      NearestIsInOrder(bk, all, id, r);
    } else if TakenInOrder(bk, r, id) {
      InOrderIsNearest(bk, all, id, r);
    }
  }

  lemma NearestIsInOrder(bk: seq<Slot>, all: seq<Elem>, id: Bits, r: seq<Elem>)
    requires Nearest(r, all, id) && forall i, x :: Holds(bk, i, x) ==> x in all
    requires forall i, j, x, y :: i != j && Holds(bk, i, x) && Holds(bk, j, y) ==>
               SlotNearer(bk, id, i, j) || SlotNearer(bk, id, j, i)
    ensures TakenInOrder(bk, r, id)
  {
    hide Nearer, SlotNearer;
    forall i, j | i != j && TakenFrom(bk, r, i) && LeftIn(bk, r, j) ensures SlotNearer(bk, id, i, j) {
      var x :| Holds(bk, i, x) && x in r;
      var y :| Holds(bk, j, y) && y !in r;
      if SlotNearer(bk, id, j, i) {
        SlotNearerAt(bk, id, j, i, y, x);
      }
    }
    forall i: nat | i < |bk| && bk[i].Some? ensures NearestHere(bk[i].value, r, id) {
      assert forall x :: x in bk[i].value ==> Holds(bk, i, x);
    }
  }

  lemma InOrderIsNearest(bk: seq<Slot>, all: seq<Elem>, id: Bits, r: seq<Elem>)
    requires TakenInOrder(bk, r, id) && (forall x :: x in r ==> x in all)
    requires forall x :: x in all ==> exists i: nat :: Holds(bk, i, x)
    ensures Nearest(r, all, id)
  {
    hide Nearer, SlotNearer;
    forall x, y | x in r && y in all && y !in r ensures !Nearer(id, y, x) {
      var i: nat :| Holds(bk, i, x);
      var j: nat :| Holds(bk, j, y);
      if i != j {
        assert TakenFrom(bk, r, i) && LeftIn(bk, r, j);
        SlotNearerAt(bk, id, i, j, x, y);
        NearerIsAsymmetric(id, x, y);
      } else {
        assert NearestHere(bk[i].value, r, id);
      }
    }
  }

  lemma SlotNearerAt(bk: seq<Slot>, id: Bits, i: nat, j: nat, x: Elem, y: Elem)
    requires SlotNearer(bk, id, i, j) && Holds(bk, i, x) && Holds(bk, j, y)
    ensures Nearer(id, x, y)
  {
  }

  /** Slots that hold something are in the tree. */
  lemma SlotsInTree(t: Tree, all: seq<Elem>, us: Bits, max: nat, bt: seq<nat>, bk: seq<Slot>, rem: seq<nat>)
    requires TableInv(t, all, us, max, bt, bk, rem, {})
    ensures forall i, x :: Holds(bk, i, x) ==> i in Ix(t)
  {
  }

  lemma StoredInBucket(t: Tree, all: seq<Elem>, us: Bits, max: nat, bt: seq<nat>, bk: seq<Slot>, rem: seq<nat>, ix: nat)
    requires TableInv(t, all, us, max, bt, bk, rem, {}) && ix < |bk| && bk[ix].Some?
    ensures forall x :: x in bk[ix].value ==> x in all
  {
    SlotsPartition(t, all, us, max, bt, bk, rem);
    assert forall x :: x in bk[ix].value ==> Holds(bk, ix, x);
  }

  lemma LatestStored(data: seq<Elem>, nb: nat)
    ensures forall x :: x in Latest(data, nb) ==> x in data
    ensures nb >= |data| ==> Latest(data, nb) == data
  {
  }

  /** The latest of a bucket that is nearer than everything else: nearest in the table exactly when nearest in
      the bucket. */
  lemma LatestIsNearestIff(data: seq<Elem>, all: seq<Elem>, id: Bits, nb: nat)
    requires forall x :: x in data ==> x in all
    requires forall x, y :: x in data && y in all && y !in data ==> Nearer(id, x, y)
    ensures var r := Latest(data, nb); Nearest(r, all, id) <==> Nearest(r, data, id)
    ensures nb >= |data| ==> Latest(data, nb) == data && Nearest(data, all, id)
  {
    hide Nearer;
    LatestStored(data, nb);
    NearestInBucket(Latest(data, nb), data, all, id);
  }

  // ----- get_closest -----

  function SizeAt(bk: seq<Slot>, i: nat): nat {
    if i < |bk| && bk[i].Some? then |bk[i].value| else 0
  }

  /** How many elements the slots from `lo` to `hi` hold. */
  function Total(bk: seq<Slot>, lo: nat, hi: nat): nat
    decreases hi - lo
  {
    if lo >= hi then 0 else SizeAt(bk, lo) + Total(bk, lo + 1, hi)
  }

  /** How many elements are visited before slot `i`, when slot `ix` comes first, then the later slots
      and then the earlier ones. */
  function Ahead(bk: seq<Slot>, ix: nat, i: nat): nat {
    if i >= ix then Total(bk, ix, i) else Total(bk, ix, |bk|) + Total(bk, 0, i)
  }

  /** What is left of `nb` after `n`. */
  function Rest(nb: nat, n: nat): nat {
    if n < nb then nb - n else 0
  }

  lemma {:induction false} FillLength(bk: seq<Slot>, lo: nat, hi: nat, nb: nat)
    requires lo <= hi <= |bk|
    ensures |Fill(bk, lo, hi, nb)| == Min(nb, Total(bk, lo, hi))
    decreases hi - lo
  {
    if lo < hi && nb > 0 {
      FillLength(bk, lo + 1, hi, if bk[lo].None? then nb else nb - |Latest(bk[lo].value, nb)|);
    }
  }

  /** The completion loop takes from slot `i` the latest, as far as the slots before left something. */
  lemma {:induction false} FillTakes(bk: seq<Slot>, lo: nat, hi: nat, nb: nat, i: nat, x: Elem)
    requires lo <= i < hi <= |bk| && Disjoint(bk) && Holds(bk, i, x)
    ensures x in Fill(bk, lo, hi, nb) <==> x in Latest(bk[i].value, Rest(nb, Total(bk, lo, i)))
    decreases hi - lo
  {
    hide Disjoint, Latest, Fill;
    FillStep(bk, lo, hi, nb);
    LatestIsPart(bk[i].value, nb);
    if nb == 0 {
      LatestIsPart(bk[i].value, 0);
    } else if i == lo {
      if x in Fill(bk, lo + 1, hi, nb - |Latest(bk[lo].value, nb)|) {
        NotInFill(bk, lo + 1, hi, nb - |Latest(bk[lo].value, nb)|, i, x);
      }
    } else if bk[lo].None? {
      FillTakes(bk, lo + 1, hi, nb, i, x);
    } else {
      var a := Latest(bk[lo].value, nb);
      FillTakes(bk, lo + 1, hi, nb - |a|, i, x);
      NotInSlot(bk, lo, nb, i, x);
    }
  }

  lemma LatestIsPart(s: seq<Elem>, nb: nat)
    ensures nb == 0 ==> Latest(s, nb) == []
    ensures forall x :: x in Latest(s, nb) ==> x in s
  {
  }

  lemma NotInSlot(bk: seq<Slot>, lo: nat, nb: nat, i: nat, x: Elem)
    requires lo < |bk| && bk[lo].Some? && lo != i && Disjoint(bk) && Holds(bk, i, x)
    ensures x !in Latest(bk[lo].value, nb)
  {
    LatestIsPart(bk[lo].value, nb);
    assert x in bk[lo].value ==> Holds(bk, lo, x);
  }

  /** Nothing of a slot outside the range is taken. */
  lemma NotInFill(bk: seq<Slot>, lo: nat, hi: nat, nb: nat, i: nat, x: Elem)
    requires lo <= hi <= |bk| && !(lo <= i < hi) && Disjoint(bk) && Holds(bk, i, x)
    ensures x !in Fill(bk, lo, hi, nb)
  {
    FillCovers(bk, lo, hi, nb);
    OneRange(bk, x, i);
    OneSlot(bk, x, i, i + 1, lo, hi);
  }

  /** `get_closest` is the completion loop from slot `ix` to the end and then from the beginning. */
  lemma ClosestIsFill(bk: seq<Slot>, ix: nat, nb: nat)
    requires ix < |bk| && bk[ix].Some?
    ensures var first := Fill(bk, ix, |bk|, nb);
            Closest(bk, ix, nb) == first + Fill(bk, 0, ix, nb - |first|)
  {
    FillStep(bk, ix, |bk|, nb);
    FillStep(bk, ix + 1, |bk|, 0);
    FillStep(bk, 0, ix, 0);
    LatestIsPart(bk[ix].value, 0);
  }

  /** Of every bucket `get_closest` takes the latest, as many as the buckets visited before left. */
  lemma ClosestTakes(bk: seq<Slot>, ix: nat, nb: nat, i: nat, x: Elem)
    requires ix < |bk| && bk[ix].Some? && Disjoint(bk) && Holds(bk, i, x)
    ensures x in Closest(bk, ix, nb) <==> x in Latest(bk[i].value, Rest(nb, Ahead(bk, ix, i)))
  {
    hide Disjoint, Latest, Fill, Closest;
    ClosestIsFill(bk, ix, nb);
    FillLength(bk, ix, |bk|, nb);
    var rest := nb - |Fill(bk, ix, |bk|, nb)|;
    if i >= ix {
      FillTakes(bk, ix, |bk|, nb, i, x);
      NotInFill(bk, 0, ix, rest, i, x);
    } else {
      NotInFill(bk, ix, |bk|, nb, i, x);
      FillTakes(bk, 0, ix, rest, i, x);
    }
  }

  /** How many are taken from slot `i`. */
  function Part(bk: seq<Slot>, ix: nat, nb: nat, i: nat): nat {
    Min(Rest(nb, Ahead(bk, ix, i)), SizeAt(bk, i))
  }

  /** Position by position: from every bucket that the visit reaches, the end of its list, in its order, right
      after what came before. */
  ghost predicate ReadsOff(bk: seq<Slot>, ix: nat, nb: nat, r: seq<Elem>) {
    forall i: nat :: Reaches(bk, ix, nb, i) ==>
      var at, n, data := Ahead(bk, ix, i), Part(bk, ix, nb, i), bk[i].value;
      at + n <= |r| && r[at..at + n] == data[|data| - n..]
  }

  lemma {:induction false} FillReadsOff(bk: seq<Slot>, lo: nat, hi: nat, nb: nat, i: nat)
    requires lo <= i < hi <= |bk| && bk[i].Some? && Total(bk, lo, i) < nb
    ensures var at, n, data := Total(bk, lo, i), Min(nb - Total(bk, lo, i), |bk[i].value|), bk[i].value;
            at + n <= |Fill(bk, lo, hi, nb)| && Fill(bk, lo, hi, nb)[at..at + n] == data[|data| - n..]
    decreases hi - lo
  {
    hide Latest, Fill;
    FillStep(bk, lo, hi, nb);
    var r := Fill(bk, lo, hi, nb);
    if i == lo {
      var head := Latest(bk[i].value, nb);
      LatestIsSuffix(bk[i].value, nb);
      assert r[0..|head|] == head;
    } else if bk[lo].None? {
      FillReadsOff(bk, lo + 1, hi, nb, i);
    } else {
      var head := Latest(bk[lo].value, nb);
      var rest := Fill(bk, lo + 1, hi, nb - |head|);
      FillReadsOff(bk, lo + 1, hi, nb - |head|, i);
      ShiftedSlice(head, rest, Total(bk, lo + 1, i), Min(nb - Total(bk, lo, i), |bk[i].value|));
    }
  }

  lemma ShiftedSlice(head: seq<Elem>, rest: seq<Elem>, at: nat, n: nat)
    requires at + n <= |rest|
    ensures (head + rest)[|head| + at..|head| + at + n] == rest[at..at + n]
  {
  }

  lemma LaterSlotReadsOff(bk: seq<Slot>, ix: nat, nb: nat, i: nat, first: seq<Elem>, second: seq<Elem>)
    requires ix <= i < |bk| && first == Fill(bk, ix, |bk|, nb) && Reaches(bk, ix, nb, i)
    ensures var at, n, data := Ahead(bk, ix, i), Part(bk, ix, nb, i), bk[i].value;
            at + n <= |first + second| && (first + second)[at..at + n] == data[|data| - n..]
  {
    hide Fill, Total;
    FillReadsOff(bk, ix, |bk|, nb, i);
    var at, n := Ahead(bk, ix, i), Part(bk, ix, nb, i);
    assert (first + second)[at..at + n] == first[at..at + n];
  }

  lemma EarlierSlotReadsOff(bk: seq<Slot>, ix: nat, nb: nat, i: nat, first: seq<Elem>, second: seq<Elem>)
    requires i < ix < |bk| && |first| == Min(nb, Total(bk, ix, |bk|)) && Reaches(bk, ix, nb, i)
    requires second == Fill(bk, 0, ix, nb - |first|)
    ensures var at, n, data := Ahead(bk, ix, i), Part(bk, ix, nb, i), bk[i].value;
            at + n <= |first + second| && (first + second)[at..at + n] == data[|data| - n..]
  {
    hide Fill, Total;
    FillReadsOff(bk, 0, ix, nb - |first|, i);
    ShiftedSlice(first, second, Total(bk, 0, i), Part(bk, ix, nb, i));
  }

  lemma ClosestReadsOff(bk: seq<Slot>, ix: nat, nb: nat)
    requires ix < |bk| && bk[ix].Some?
    ensures ReadsOff(bk, ix, nb, Closest(bk, ix, nb))
  {
    hide Fill, Closest, Total, Ahead;
    ClosestIsFill(bk, ix, nb);
    FillLength(bk, ix, |bk|, nb);
    var first := Fill(bk, ix, |bk|, nb);
    var second := Fill(bk, 0, ix, nb - |first|);
    forall i: nat | Reaches(bk, ix, nb, i)
      ensures var at, n, data := Ahead(bk, ix, i), Part(bk, ix, nb, i), bk[i].value;
              at + n <= |first + second| && (first + second)[at..at + n] == data[|data| - n..]
    {
      if i >= ix {
        LaterSlotReadsOff(bk, ix, nb, i, first, second);
      } else {
        EarlierSlotReadsOff(bk, ix, nb, i, first, second);
      }
    }
  }

  /** Something is taken from a bucket that is visited before `nb` elements are collected. */
  lemma TakenFromIff(bk: seq<Slot>, ix: nat, nb: nat, i: nat)
    requires ix < |bk| && bk[ix].Some? && Disjoint(bk)
    ensures TakenFrom(bk, Closest(bk, ix, nb), i) <==> SizeAt(bk, i) > 0 && Ahead(bk, ix, i) < nb
  {
    hide Closest, Disjoint, Ahead;
    forall x | Holds(bk, i, x) ensures x in Closest(bk, ix, nb) ==> Ahead(bk, ix, i) < nb {
      ClosestTakes(bk, ix, nb, i, x);
    }
    if SizeAt(bk, i) > 0 && Ahead(bk, ix, i) < nb {
      var data := bk[i].value;
      var x := data[|data| - 1];
      assert Holds(bk, i, x);
      ClosestTakes(bk, ix, nb, i, x);
      assert x == Latest(data, Rest(nb, Ahead(bk, ix, i)))[|Latest(data, Rest(nb, Ahead(bk, ix, i)))| - 1];
    }
  }

  /** Something is left in a bucket that is not through when `nb` elements are collected. */
  lemma LeftInIff(bk: seq<Slot>, ix: nat, nb: nat, j: nat)
    requires ix < |bk| && bk[ix].Some? && Disjoint(bk)
    ensures LeftIn(bk, Closest(bk, ix, nb), j) <==> SizeAt(bk, j) > 0 && nb < Ahead(bk, ix, j) + SizeAt(bk, j)
  {
    hide Closest, Ahead;
    forall x | Holds(bk, j, x) ensures x !in Closest(bk, ix, nb) ==> nb < Ahead(bk, ix, j) + SizeAt(bk, j) {
      ClosestTakes(bk, ix, nb, j, x);
    }
    if SizeAt(bk, j) > 0 && nb < Ahead(bk, ix, j) + SizeAt(bk, j) {
      var data := bk[j].value;
      assert Holds(bk, j, data[0]) && Distinct(data);
      ClosestTakes(bk, ix, nb, j, data[0]);
    }
  }

  /** `get_closest` visits buckets in the order of their nearness: every bucket that it comes to before it
      has collected `nb` elements is nearer than every other one that it is not through with by then, and
      where it stops inside a bucket, the latest are the nearest of that bucket. */
  ghost predicate VisitsInOrder(bk: seq<Slot>, ix: nat, nb: nat, id: Bits) {
    && (forall i: nat, j: nat :: i != j && Reaches(bk, ix, nb, i) && Leaves(bk, ix, nb, j) ==> SlotNearer(bk, id, i, j))
    && forall i: nat :: Reaches(bk, ix, nb, i) && Leaves(bk, ix, nb, i) ==>
         Nearest(Latest(bk[i].value, nb - Ahead(bk, ix, i)), bk[i].value, id)
  }

  /** The bucket is not empty, and visited before `nb` elements are collected. */
  predicate Reaches(bk: seq<Slot>, ix: nat, nb: nat, i: nat) {
    SizeAt(bk, i) > 0 && Ahead(bk, ix, i) < nb
  }

  /** The bucket is not empty, and not through when `nb` elements are collected. */
  predicate Leaves(bk: seq<Slot>, ix: nat, nb: nat, j: nat) {
    SizeAt(bk, j) > 0 && nb < Ahead(bk, ix, j) + SizeAt(bk, j)
  }

  /** Within one bucket. */
  lemma NearestHereIff(bk: seq<Slot>, ix: nat, nb: nat, id: Bits, i: nat)
    requires ix < |bk| && bk[ix].Some? && Disjoint(bk) && i < |bk| && bk[i].Some?
    ensures NearestHere(bk[i].value, Closest(bk, ix, nb), id) <==>
            Nearest(Latest(bk[i].value, Rest(nb, Ahead(bk, ix, i))), bk[i].value, id)
  {
    hide Closest, Ahead, Latest, Disjoint, Nearer;
    LatestIsPart(bk[i].value, Rest(nb, Ahead(bk, ix, i)));
    forall x | x in bk[i].value
      ensures x in Closest(bk, ix, nb) <==> x in Latest(bk[i].value, Rest(nb, Ahead(bk, ix, i)))
    {
      assert Holds(bk, i, x);
      ClosestTakes(bk, ix, nb, i, x);
    }
  }

  /** A bucket that is taken whole, or not at all, needs no order. */
  lemma NearestTrivially(data: seq<Elem>, k: nat, id: Bits)
    requires k == 0 || k >= |data|
    ensures Nearest(Latest(data, k), data, id)
  {
  }

  /** The order of the result is the order of the visit. */
  lemma TakenInOrderIff(bk: seq<Slot>, ix: nat, nb: nat, id: Bits)
    requires ix < |bk| && bk[ix].Some? && Disjoint(bk)
    ensures TakenInOrder(bk, Closest(bk, ix, nb), id) <==> VisitsInOrder(bk, ix, nb, id)
  {
    hide Closest, Ahead, Latest, Disjoint, Nearest, NearestHere, SlotNearer, TakenFrom, LeftIn;
    var r := Closest(bk, ix, nb);
    forall i: nat
      ensures TakenFrom(bk, r, i) <==> Reaches(bk, ix, nb, i)
      ensures LeftIn(bk, r, i) <==> Leaves(bk, ix, nb, i)
    {
      TakenFromIff(bk, ix, nb, i);
      LeftInIff(bk, ix, nb, i);
    }
    forall i: nat | i < |bk| && bk[i].Some?
      ensures NearestHere(bk[i].value, r, id) <==>
              (Reaches(bk, ix, nb, i) && Leaves(bk, ix, nb, i) ==>
                 Nearest(Latest(bk[i].value, nb - Ahead(bk, ix, i)), bk[i].value, id))
    {
      NearestHereIff(bk, ix, nb, id, i);
      if !Reaches(bk, ix, nb, i) || !Leaves(bk, ix, nb, i) {
        NearestTrivially(bk[i].value, Rest(nb, Ahead(bk, ix, i)), id);
      }
    }
  }

  /** What `get_closest` returns is nearest exactly when it visits buckets in the order of their nearness.
      Up to the size of the bucket that `id` resolves to, this is decided within that bucket. It is the
      case for exactly that size, and when everything is asked for. */
  lemma ClosestIsNearestIff(t: Tree, all: seq<Elem>, us: Bits, max: nat, bt: seq<nat>, bk: seq<Slot>, rem: seq<nat>,
                            id: Bits, nb: nat, leaf: Tree)
    requires TableInv(t, all, us, max, bt, bk, rem, {}) && |id| == |us| && Fits(t, |us|)
    requires leaf == LeafAt(t, Xor(us, id), 0) && leaf.Leaf? && leaf.ix < |bk| && bk[leaf.ix] == Some(leaf.data)
    ensures var r := Closest(bk, leaf.ix, nb);
            && (Nearest(r, all, id) <==> VisitsInOrder(bk, leaf.ix, nb, id))
            && (nb <= |leaf.data| ==>
                  r == Latest(leaf.data, nb) && (Nearest(r, all, id) <==> Nearest(r, leaf.data, id)))
            && (nb == |leaf.data| || nb >= |all| ==> Nearest(r, all, id))
  {
    hide TableInv, Nearer, Walk, Depth, SubAt, HasPath, Region, LeafAt, Fits, TakenInOrder, VisitsInOrder;
    BucketIsNearest(t, all, us, max, bt, bk, rem, id);
    var r := Closest(bk, leaf.ix, nb);
    ClosestExact(t, all, us, max, bt, bk, rem, leaf.ix, nb);
    NearestIffInOrder(t, all, us, max, bt, bk, rem, id, r);
    SlotsPartition(t, all, us, max, bt, bk, rem);
    TakenInOrderIff(bk, leaf.ix, nb, id);
    assert forall x :: x in leaf.data ==> Holds(bk, leaf.ix, x);
    if nb <= |leaf.data| {
      NearestInBucket(r, leaf.data, all, id);
    }
    if nb >= |all| {
      AllOfThem(r, all);
    }
  }

  lemma AllOfThem(r: seq<Elem>, all: seq<Elem>)
    requires NoDup(r) && NoDup(all) && |r| == |all| && forall x :: x in r ==> x in all
    ensures forall x :: x in all ==> x in r
  {
    forall x | x in all ensures x in r {
      if x !in r {
        forall i, j | 0 <= i < j < |r + [x]| ensures (r + [x])[i] != (r + [x])[j] {
          assert r[i] in r;
        }
        SubsetLength(r + [x], all);
      }
    }
  }
}
