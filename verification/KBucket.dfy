/** One bucket of a Kademlia table: a list of distinct elements, most recently seen last. */
module KBuckets {
  import opened Sequences
  import opened Elements

  /** The order of `BitVec`: lexicographic, a proper prefix being smaller. */
  predicate Less(a: Bits, b: Bits) {
    b != [] && (a == [] || (!a[0] && b[0]) || (a[0] == b[0] && Less(a[1..], b[1..])))
  }

  /** Position of the first set bit, or the length when there is none. */
  function FirstSet(a: Bits): (m: nat)
    ensures m <= |a|
    ensures forall i :: 0 <= i < m ==> !a[i]
    ensures m < |a| ==> a[m]
  {
    if a == [] || a[0] then 0 else 1 + FirstSet(a[1..])
  }

  lemma {:induction false} LargerHasEarlierBit(a: Bits, b: Bits)
    requires |a| == |b|
    ensures Less(a, b) ==> FirstSet(b) <= FirstSet(a)
    ensures !Less(a, b) ==> FirstSet(a) <= FirstSet(b)
  {
    if a != [] {
      LargerHasEarlierBit(a[1..], b[1..]);
    }
  }

  ghost predicate SameLength(ds: seq<Bits>, n: nat) {
    forall i :: 0 <= i < |ds| ==> |ds[i]| == n
  }

  /** All the bit strings start with the same `m` bits. */
  ghost predicate AgreeUpTo(ds: seq<Bits>, m: nat) {
    forall i, j :: 0 <= i < |ds| && 0 <= j < |ds| && m <= |ds[i]| && m <= |ds[j]| ==> ds[i][..m] == ds[j][..m]
  }

  ghost predicate DifferAt(ds: seq<Bits>, m: nat) {
    exists i, j :: 0 <= i < |ds| && 0 <= j < |ds| && m < |ds[i]| && m < |ds[j]| && ds[i][m] != ds[j][m]
  }

  /** The loop of `split` that looks for the split bit. Its reference element `v` changes
      with the running maximum, yet the result is the length of the longest common prefix
      of all distances, and it is the full length exactly when all distances are equal. */
  method SplitIndex(ds: seq<Bits>, ghost n: nat) returns (six: nat)
    requires |ds| >= 2 && SameLength(ds, n)
    ensures six <= n && AgreeUpTo(ds, six)
    ensures six < n ==> DifferAt(ds, six)
    ensures six == n <==> forall i, j :: 0 <= i < |ds| && 0 <= j < |ds| ==> ds[i] == ds[j]
  {
    hide FirstSet, Less;
    var v := ds[0];
    var maxXor: Bits := [];
    ghost var m := n;
    for i := 1 to |ds|
      invariant |v| == n && m <= n
      invariant maxXor == [] ==> m == n && (i == 1 || n == 0)
      invariant maxXor != [] ==> |maxXor| == n && m == FirstSet(maxXor)
      invariant forall k :: 0 <= k < i ==> ds[k][..m] == v[..m]
      invariant m < n ==> DifferAt(ds, m)
      invariant exists k :: 0 <= k < i && v == ds[k]
    {
      var d := ds[i];
      var xor := Xor(v, d);
      ghost var f := FirstSet(xor);
      XorParts(v, d);
      if maxXor == [] {
        NothingIsLess(xor);
      } else {
        LargerHasEarlierBit(maxXor, xor);
      }
      assert f < n ==> DifferAt(ds, f);
      if Less(maxXor, xor) {
        Shorter(ds, v, i, m, f);
        m := f;
        v := d;
        maxXor := xor;
      } else {
        Shorter([d], v, 1, f, m);
        assert [d][0][..m] == v[..m];
      }
    }
    var p := FirstSet(maxXor);
    six := if p < |maxXor| then p else |v|;
    assert six == m;
    if six == n {
      forall i | 0 <= i < |ds| ensures ds[i] == v {
        assert ds[i][..n] == ds[i] && v[..n] == v;
      }
    }
  }

  lemma NothingIsLess(b: Bits)
    ensures Less([], b) <==> b != []
  {
  }

  /** Two bit strings agree up to the first set bit of their xor, and differ there. */
  lemma XorParts(v: Bits, d: Bits)
    requires |v| == |d|
    ensures var f := FirstSet(Xor(v, d)); v[..f] == d[..f] && (f < |v| ==> v[f] != d[f])
  {
  }

  lemma Shorter(ds: seq<Bits>, v: Bits, i: nat, m: nat, f: nat)
    requires i <= |ds| && f <= m <= |v| && SameLength(ds, |v|)
    requires forall k :: 0 <= k < i ==> ds[k][..m] == v[..m]
    ensures forall k :: 0 <= k < i ==> ds[k][..f] == v[..f]
  {
    forall k | 0 <= k < i ensures ds[k][..f] == v[..f] {
      assert ds[k][..f] == ds[k][..m][..f];
      assert v[..f] == v[..m][..f];
    }
  }

  /** Position of the element that is the same as `e`. */
  method Position(data: seq<Elem>, e: Elem) returns (r: Option<nat>)
    ensures r.Some? ==> r.value < |data| && Same(e, data[r.value])
    ensures r.None? <==> forall x :: x in data ==> !Same(e, x)
  {
    for i := 0 to |data|
      invariant forall k :: 0 <= k < i ==> !Same(e, data[k])
    {
      if Same(e, data[i]) {
        return Some(i);
      }
    }
    return None;
  }

  /** The distances of the elements to `us`. */
  function Distances(us: Bits, data: seq<Elem>): (r: seq<Bits>)
    requires Keyed(data, us)
    ensures |r| == |data|
    ensures forall i :: 0 <= i < |data| ==> |data[i].bits| == |us| && r[i] == Xor(us, data[i].bits)
  {
    seq(|data|, i requires 0 <= i < |data| => assert data[i] in data; Xor(us, data[i].bits))
  }

  predicate OnSide(us: Bits, m: nat, b: bool, e: Elem) {
    |e.bits| == |us| && m < |us| && Xor(us, e.bits)[m] == b
  }

  /** The elements whose distance has the value `b` at bit `m`, in their original order. */
  function Side(data: seq<Elem>, us: Bits, m: nat, b: bool): seq<Elem> {
    Filter(data, e => OnSide(us, m, b, e))
  }

  /** All distances agree before bit `m` and some two differ there. */
  ghost predicate SplitsAt(data: seq<Elem>, us: Bits, m: nat) {
    && m < |us| && Keyed(data, us)
    && (forall x, y :: x in data && y in data ==> Xor(us, x.bits)[..m] == Xor(us, y.bits)[..m])
    && exists x, y :: x in data && y in data && Xor(us, x.bits)[m] != Xor(us, y.bits)[m]
  }

  lemma LcpSplits(data: seq<Elem>, us: Bits, m: nat)
    requires Keyed(data, us) && m < |us|
    requires AgreeUpTo(Distances(us, data), m) && DifferAt(Distances(us, data), m)
    ensures SplitsAt(data, us, m)
  {
    var ds := Distances(us, data);
    forall x, y | x in data && y in data ensures Xor(us, x.bits)[..m] == Xor(us, y.bits)[..m] {
      var i :| 0 <= i < |data| && data[i] == x;
      var j :| 0 <= j < |data| && data[j] == y;
      assert ds[i][..m] == ds[j][..m];
    }
    var i, j :| 0 <= i < |ds| && 0 <= j < |ds| && m < |ds[i]| && m < |ds[j]| && ds[i][m] != ds[j][m];
    assert data[i] in data && data[j] in data;
  }

  /** Both halves of a bucket that splits at `m` are non-empty, and together they are the bucket. */
  lemma SidesPartition(data: seq<Elem>, us: Bits, m: nat)
    requires SplitsAt(data, us, m)
    ensures Side(data, us, m, false) != [] && Side(data, us, m, true) != []
    ensures |Side(data, us, m, false)| + |Side(data, us, m, true)| == |data|
    ensures multiset(Side(data, us, m, false)) + multiset(Side(data, us, m, true)) == multiset(data)
  {
    var x, y :| x in data && y in data && Xor(us, x.bits)[m] != Xor(us, y.bits)[m];
    assert x in Side(data, us, m, Xor(us, x.bits)[m]);
    assert y in Side(data, us, m, Xor(us, y.bits)[m]);
    SidesAddUp(data, us, m);
  }

  lemma {:induction false} SidesAddUp(data: seq<Elem>, us: Bits, m: nat)
    requires Keyed(data, us) && m < |us|
    ensures |Side(data, us, m, false)| + |Side(data, us, m, true)| == |data|
    ensures multiset(Side(data, us, m, false)) + multiset(Side(data, us, m, true)) == multiset(data)
  {
    hide Side;
    if data == [] {
      SideEmpty(us, m);
    } else {
      var rest := data[1..];
      assert data[0] in data;
      SidesAddUp(rest, us, m);
      SideCons(data, us, m);
      assert multiset(data) == multiset{data[0]} + multiset(rest) by {
        assert data == [data[0]] + rest;
      }
    }
  }

  /** The first element goes to one side. */
  lemma SideCons(data: seq<Elem>, us: Bits, m: nat)
    requires data != [] && |data[0].bits| == |us| && m < |us|
    ensures var b, rest := Xor(us, data[0].bits)[m], data[1..];
            && Side(data, us, m, b) == [data[0]] + Side(rest, us, m, b)
            && Side(data, us, m, !b) == Side(rest, us, m, !b)
  {
  }

  function Backwards(s: seq<Elem>): (r: seq<Elem>)
    ensures |r| == |s|
    ensures forall i :: 0 <= i < |s| ==> r[i] == s[|s| - 1 - i]
  {
    seq(|s|, i requires 0 <= i < |s| => s[|s| - 1 - i])
  }

  /** The `nb` most recent entries, or all of them. */
  function Latest(s: seq<Elem>, nb: nat): (r: seq<Elem>)
    ensures |r| == (if nb > |s| then |s| else nb)
  {
    if nb > |s| then s else s[|s| - nb..]
  }

  /** They are the end of the list, in its order: everything before them is older. */
  lemma LatestIsSuffix(s: seq<Elem>, nb: nat)
    ensures exists older :: older + Latest(s, nb) == s
    ensures Latest(s, nb) == s[|s| - Min(nb, |s|)..]
  {
    assert s[..|s| - Min(nb, |s|)] + Latest(s, nb) == s;
  }

  class KBucket {
    var data: seq<Elem>
    var size: nat

    ghost predicate Valid()
      reads this
    {
      size == |data| && Distinct(data)
    }

    constructor ()
      ensures Valid() && data == []
    {
      data, size := [], 0;
    }

    constructor Of(d: seq<Elem>)
      ensures data == d && size == |d|
    {
      data, size := d, |d|;
    }

    /** Insert `e`, or refresh its position when it is already there. */
    method Add(e: Elem) returns (newSize: nat)
      requires Valid()
      modifies this
      ensures Valid() && data == Touched(old(data), e) && newSize == |data|
    {
      TouchedDistinct(data, e);
      var p := Position(data, e);
      match p {
        case Some(ix) =>
          WithoutAt(data, e, ix);
          data := data[..ix] + data[ix + 1..];
        case None =>
          WithoutAbsent(data, e);
          size := size + 1;
      }
      data := data + [e];
      newSize := size;
    }

    method Remove(e: Elem) returns (res: bool)
      requires Valid()
      modifies this
      ensures Valid() && data == Without(old(data), e)
      ensures res <==> exists x :: x in old(data) && Same(e, x)
    {
      TouchedDistinct(data, e);
      res := false;
      var p := Position(data, e);
      match p {
        case Some(ix) =>
          WithoutAt(data, e, ix);
          assert data[ix] in data;
          data := data[..ix] + data[ix + 1..];
          size := size - 1;
          res := true;
        case None =>
          WithoutAbsent(data, e);
      }
    }

    method GetClosest(nb: nat) returns (r: seq<Elem>)
      requires Valid()
      ensures r == Latest(data, nb)
      ensures r == data[|data| - Min(nb, |data|)..]
    {
      r := if nb > size then data else data[size - nb..];
    }

    /** Empty this bucket into two new ones, by the first distance bit where its elements
        differ. Indexing a distance at the split bit panics when all distances are equal.
        The emptied bucket keeps its old size: the table drops it. */
    method Split(us: Bits) returns (left: KBucket, right: KBucket, six: nat)
      requires Valid() && |data| >= 2 && Keyed(data, us)
      requires exists x, y :: x in data && y in data && x.bits != y.bits
      modifies this
      ensures data == []
      ensures fresh(left) && fresh(right) && left != right
      ensures left.Valid() && right.Valid()
      ensures SplitsAt(old(data), us, six) && six < |us|
      ensures left.data == Side(old(data), us, six, false) && left.data != []
      ensures right.data == Side(old(data), us, six, true) && right.data != []
    {
      var dists := Distances(us, data);
      six := SplitIndex(dists, |us|);
      DistinctDistances(data, us);
      LcpSplits(data, us, six);
      SidesPartition(data, us, six);
      FilterDistinct(data, e => OnSide(us, six, false, e));
      FilterDistinct(data, e => OnSide(us, six, true, e));
      var l, r := Deal(us, six);
      left := new KBucket.Of(l);
      right := new KBucket.Of(r);
    }

    /** The emptying loop of `split`: reverse, then pop each element to its side. */
    method Deal(us: Bits, six: nat) returns (l: seq<Elem>, r: seq<Elem>)
      requires Keyed(data, us) && six < |us|
      modifies this`data
      ensures data == []
      ensures l == Side(old(data), us, six, false) && r == Side(old(data), us, six, true)
    {
      hide Side;
      ghost var all := data;
      SideEmpty(us, six);
      l, r := [], [];
      data := Backwards(data);
      while data != []
        invariant |data| <= |all| && data == Backwards(all)[..|data|]
        invariant l == Side(all[..|all| - |data|], us, six, false)
        invariant r == Side(all[..|all| - |data|], us, six, true)
        decreases |data|
      {
        var elem := data[|data| - 1];
        ghost var k := |all| - |data|;
        data := data[..|data| - 1];
        assert elem == all[k] && elem in all;
        SideSnoc(all, k, us, six, false);
        SideSnoc(all, k, us, six, true);
        if Xor(us, elem.bits)[six] {
          r := r + [elem];
        } else {
          l := l + [elem];
        }
      }
      assert all[..|all|] == all;
    }
  }

  lemma SideEmpty(us: Bits, m: nat)
    ensures Side([], us, m, false) == [] && Side([], us, m, true) == []
  {
  }

  lemma SideSnoc(all: seq<Elem>, k: nat, us: Bits, m: nat, b: bool)
    requires k < |all| && m < |us| && |all[k].bits| == |us|
    ensures Side(all[..k + 1], us, m, b) ==
            Side(all[..k], us, m, b) + (if Xor(us, all[k].bits)[m] == b then [all[k]] else [])
  {
    assert all[..k + 1] == all[..k] + [all[k]];
    FilterAppend(all[..k], [all[k]], e => OnSide(us, m, b, e));
  }

  lemma DistinctDistances(data: seq<Elem>, us: Bits)
    requires Keyed(data, us)
    requires exists x, y :: x in data && y in data && x.bits != y.bits
    ensures exists i, j :: 0 <= i < |data| && 0 <= j < |data| && Distances(us, data)[i] != Distances(us, data)[j]
  {
    var x, y :| x in data && y in data && x.bits != y.bits;
    var i :| 0 <= i < |data| && data[i] == x;
    var j :| 0 <= j < |data| && data[j] == y;
    var k :| 0 <= k < |us| && x.bits[k] != y.bits[k];
    assert Distances(us, data)[i][k] != Distances(us, data)[j][k];
  }
}
