/** The binary tree that the two flat vectors of a Kademlia table stand for, and the
    recency list that the tree in turn stands for. */
module BucketTree {
  import opened Sequences
  import opened Elements

  type Slot = Option<seq<Elem>>

  /** A tree whose nodes carry their index in the flat vectors; the leaves are buckets. */
  datatype Tree = Leaf(ix: nat, data: seq<Elem>) | Node(ix: nat, left: Tree, right: Tree)

  function Kid(t: Tree, b: bool): Tree
    requires t.Node?
  {
    if b then t.right else t.left
  }

  ghost function Ix(t: Tree): (s: set<nat>)
    ensures t.ix in s
  {
    match t
    case Leaf(ix, _) => {ix}
    case Node(ix, l, r) => {ix} + Ix(l) + Ix(r)
  }

  /** No index is used twice. */
  ghost predicate Proper(t: Tree) {
    t.Node? ==>
      && t.ix !in Ix(t.left) && t.ix !in Ix(t.right) && Ix(t.left) !! Ix(t.right)
      && Proper(t.left) && Proper(t.right)
  }

  /** Every leaf is at most `n` steps down. */
  ghost predicate Fits(t: Tree, n: nat) {
    t.Node? ==> n > 0 && Fits(t.left, n - 1) && Fits(t.right, n - 1)
  }

  /** Every bucket outside `holes` respects the capacity. */
  ghost predicate Sized(t: Tree, max: nat, holes: set<nat>) {
    match t
    case Leaf(ix, data) => ix in holes || |data| <= max
    case Node(_, l, r) => Sized(l, max, holes) && Sized(r, max, holes)
  }

  // ----- The flat vectors represent the tree -----

  /** `bt` holds two child indices per node and `bk` one optional bucket: inner nodes have no
      bucket, leaves have one, except the leaves in `holes`, whose bucket is being replaced. */
  ghost predicate Rep(t: Tree, bt: seq<nat>, bk: seq<Slot>, holes: set<nat>) {
    && |bt| == 2 * |bk| && t.ix < |bk|
    && match t
       case Leaf(ix, data) => bk[ix] == if ix in holes then None else Some(data)
       case Node(ix, l, r) =>
         && bk[ix] == None && bt[2 * ix] == l.ix && bt[2 * ix + 1] == r.ix
         && Rep(l, bt, bk, holes) && Rep(r, bt, bk, holes)
  }

  /** The two states of the vectors agree on the indices of `s`. */
  ghost predicate AgreeOn(s: set<nat>, bt: seq<nat>, bk: seq<Slot>, holes: set<nat>,
                          bt': seq<nat>, bk': seq<Slot>, holes': set<nat>)
  {
    && |bt| == 2 * |bk| && |bt'| == 2 * |bk'|
    && forall i :: i in s && i < |bk| ==>
         i < |bk'| && bk'[i] == bk[i] && bt'[2 * i] == bt[2 * i] && bt'[2 * i + 1] == bt[2 * i + 1]
         && (i in holes <==> i in holes')
  }

  lemma AgreeOnSubset(s: set<nat>, s': set<nat>, bt: seq<nat>, bk: seq<Slot>, holes: set<nat>,
                      bt': seq<nat>, bk': seq<Slot>, holes': set<nat>)
    requires s' <= s && AgreeOn(s, bt, bk, holes, bt', bk', holes')
    ensures AgreeOn(s', bt, bk, holes, bt', bk', holes')
  {
  }

  lemma {:induction false} RepFrame(t: Tree, bt: seq<nat>, bk: seq<Slot>, holes: set<nat>,
                                    bt': seq<nat>, bk': seq<Slot>, holes': set<nat>)
    requires Rep(t, bt, bk, holes) && AgreeOn(Ix(t), bt, bk, holes, bt', bk', holes')
    ensures Rep(t, bt', bk', holes')
  {
    if t.Node? {
      RepFrame(t.left, bt, bk, holes, bt', bk', holes');
      RepFrame(t.right, bt, bk, holes, bt', bk', holes');
    }
  }

  /** An index of the tree without a bucket is an inner node, so its children are in the tree. */
  lemma {:induction false} InnerNode(t: Tree, bt: seq<nat>, bk: seq<Slot>, i: nat)
    requires Rep(t, bt, bk, {}) && i in Ix(t)
    ensures i < |bk| && (bk[i] == None ==> bt[2 * i] in Ix(t) && bt[2 * i + 1] in Ix(t))
  {
    if t.Node? && i != t.ix {
      if i in Ix(t.left) {
        InnerNode(t.left, bt, bk, i);
      } else {
        InnerNode(t.right, bt, bk, i);
      }
    }
  }

  /** `rem` lists, once each, exactly the indices below `n` that are not in `s`. */
  ghost predicate Free(s: set<nat>, n: nat, rem: seq<nat>) {
    && (forall i, j :: 0 <= i < j < |rem| ==> rem[i] != rem[j])
    && (forall i :: i in s ==> i < n)
    && (forall x :: x in rem ==> x < n && x !in s)
    && forall x: nat :: x < n ==> x in s || x in rem
  }

  lemma FreeBelow(s: set<nat>, n: nat, rem: seq<nat>)
    requires Free(s, n, rem)
    ensures forall i :: i in s ==> i < n
  {
  }

  // ----- Walking and replacing along a distance -----

  /** From `t`, at depth `k`, the bits `d[k..m]` lead through inner nodes. */
  ghost predicate HasPath(t: Tree, d: Bits, k: nat, m: nat) {
    k <= m <= |d| && (k < m ==> t.Node? && HasPath(Kid(t, d[k]), d, k + 1, m))
  }

  ghost function SubAt(t: Tree, d: Bits, k: nat, m: nat): Tree
    requires HasPath(t, d, k, m)
  {
    if k == m then t else SubAt(Kid(t, d[k]), d, k + 1, m)
  }

  /** The tree with the subtree at depth `m` along `d` replaced. */
  ghost function Put(t: Tree, d: Bits, k: nat, m: nat, sub: Tree): (r: Tree)
    requires HasPath(t, d, k, m)
    ensures HasPath(r, d, k, m) && SubAt(r, d, k, m) == sub
  {
    if k == m then sub
    else if d[k] then Node(t.ix, t.left, Put(t.right, d, k + 1, m, sub))
    else Node(t.ix, Put(t.left, d, k + 1, m, sub), t.right)
  }

  /** Depth of the leaf that the walk along `d` ends in. */
  ghost function Depth(t: Tree, d: Bits, k: nat): (m: nat)
    requires k <= |d| && Fits(t, |d| - k)
    ensures k <= m <= |d| && HasPath(t, d, k, m) && SubAt(t, d, k, m).Leaf?
  {
    if t.Leaf? then k else Depth(Kid(t, d[k]), d, k + 1)
  }

  /** The tree with new elements in the leaf that the walk along `d` ends in. */
  ghost function WithLeaf(t: Tree, d: Bits, data: seq<Elem>): Tree
    requires Fits(t, |d|)
  {
    var m := Depth(t, d, 0);
    Put(t, d, 0, m, Leaf(SubAt(t, d, 0, m).ix, data))
  }

  ghost function LeafAt(t: Tree, d: Bits, k: nat): Tree
    requires k <= |d| && Fits(t, |d| - k)
  {
    SubAt(t, d, k, Depth(t, d, k))
  }

  lemma {:induction false} SubFacts(t: Tree, d: Bits, k: nat, m: nat)
    requires HasPath(t, d, k, m)
    ensures Ix(SubAt(t, d, k, m)) <= Ix(t)
    ensures Proper(t) ==> Proper(SubAt(t, d, k, m))
    ensures Fits(t, |d| - k) ==> Fits(SubAt(t, d, k, m), |d| - m)
  {
    if k < m {
      SubFacts(Kid(t, d[k]), d, k + 1, m);
    }
  }

  lemma {:induction false} SubStep(t: Tree, d: Bits, k: nat, m: nat)
    requires HasPath(t, d, k, m) && m < |d| && SubAt(t, d, k, m).Node?
    ensures HasPath(t, d, k, m + 1) && SubAt(t, d, k, m + 1) == Kid(SubAt(t, d, k, m), d[m])
  {
    if k < m {
      SubStep(Kid(t, d[k]), d, k + 1, m);
    }
  }

  lemma {:induction false} SubBack(t: Tree, d: Bits, k: nat, m: nat)
    requires k <= m && HasPath(t, d, k, m + 1)
    ensures HasPath(t, d, k, m) && SubAt(t, d, k, m).Node?
    ensures SubAt(t, d, k, m + 1) == Kid(SubAt(t, d, k, m), d[m])
  {
    if k < m {
      SubBack(Kid(t, d[k]), d, k + 1, m);
    }
  }

  /** Index sets after a replacement. */
  lemma {:induction false} PutIx(t: Tree, d: Bits, k: nat, m: nat, sub: Tree)
    requires HasPath(t, d, k, m) && Proper(t) && Proper(sub)
    requires Ix(sub) * (Ix(t) - Ix(SubAt(t, d, k, m))) == {}
    ensures Proper(Put(t, d, k, m, sub))
    ensures Ix(Put(t, d, k, m, sub)) == Ix(t) - Ix(SubAt(t, d, k, m)) + Ix(sub)
  {
    if k < m {
      var kid, sib := Kid(t, d[k]), Kid(t, !d[k]);
      SubFacts(kid, d, k + 1, m);
      PutIx(kid, d, k + 1, m, sub);
    }
  }

  lemma {:induction false} SizedFrame(t: Tree, max: nat, holes: set<nat>, holes': set<nat>)
    requires Sized(t, max, holes) && (forall i :: i in Ix(t) ==> (i in holes <==> i in holes'))
    ensures Sized(t, max, holes')
  {
    if t.Node? {
      SizedFrame(t.left, max, holes, holes');
      SizedFrame(t.right, max, holes, holes');
    }
  }

  lemma {:induction false} PutSized(t: Tree, d: Bits, k: nat, m: nat, sub: Tree, max: nat, holes: set<nat>,
                                    holes': set<nat>)
    requires HasPath(t, d, k, m) && Proper(t) && Sized(t, max, holes) && Sized(sub, max, holes')
    requires forall i :: i in Ix(t) - Ix(SubAt(t, d, k, m)) ==> (i in holes <==> i in holes')
    ensures Sized(Put(t, d, k, m, sub), max, holes')
  {
    if k < m {
      var kid, sib := Kid(t, d[k]), Kid(t, !d[k]);
      SubFacts(kid, d, k + 1, m);
      SizedFrame(sib, max, holes, holes');
      PutSized(kid, d, k + 1, m, sub, max, holes, holes');
    }
  }

  lemma {:induction false} SizedAt(t: Tree, d: Bits, k: nat, m: nat, max: nat, holes: set<nat>)
    requires HasPath(t, d, k, m) && Sized(t, max, holes)
    ensures Sized(SubAt(t, d, k, m), max, holes)
  {
    if k < m {
      SizedAt(Kid(t, d[k]), d, k + 1, m, max, holes);
    }
  }

  /** The vectors hold the nodes above depth `m` along `d` and everything hanging off them. */
  ghost predicate CtxRep(t: Tree, d: Bits, k: nat, m: nat, bt: seq<nat>, bk: seq<Slot>, holes: set<nat>)
    requires HasPath(t, d, k, m)
  {
    k < m ==>
      && |bt| == 2 * |bk| && t.ix < |bk| && bk[t.ix] == None
      && bt[2 * t.ix] == t.left.ix && bt[2 * t.ix + 1] == t.right.ix
      && Rep(Kid(t, !d[k]), bt, bk, holes)
      && CtxRep(Kid(t, d[k]), d, k + 1, m, bt, bk, holes)
  }

  lemma {:induction false} RepCtx(t: Tree, d: Bits, k: nat, m: nat, bt: seq<nat>, bk: seq<Slot>, holes: set<nat>)
    requires HasPath(t, d, k, m) && Rep(t, bt, bk, holes)
    ensures CtxRep(t, d, k, m, bt, bk, holes) && Rep(SubAt(t, d, k, m), bt, bk, holes)
  {
    if k < m {
      RepCtx(Kid(t, d[k]), d, k + 1, m, bt, bk, holes);
    }
  }

  lemma {:induction false} CtxShrink(t: Tree, d: Bits, k: nat, m: nat, bt: seq<nat>, bk: seq<Slot>, holes: set<nat>)
    requires k <= m && HasPath(t, d, k, m + 1) && CtxRep(t, d, k, m + 1, bt, bk, holes)
    ensures HasPath(t, d, k, m) && CtxRep(t, d, k, m, bt, bk, holes)
    ensures var p := SubAt(t, d, k, m);
            p.Node? && p.ix < |bk| && |bt| == 2 * |bk| && bk[p.ix] == None && bt[2 * p.ix] == p.left.ix
            && bt[2 * p.ix + 1] == p.right.ix && Rep(Kid(p, !d[m]), bt, bk, holes)
  {
    if k < m {
      CtxShrink(Kid(t, d[k]), d, k + 1, m, bt, bk, holes);
    }
  }

  lemma {:induction false} CtxFrame(t: Tree, d: Bits, k: nat, m: nat, bt: seq<nat>, bk: seq<Slot>, holes: set<nat>,
                                    bt': seq<nat>, bk': seq<Slot>, holes': set<nat>)
    requires HasPath(t, d, k, m) && Proper(t) && CtxRep(t, d, k, m, bt, bk, holes)
    requires AgreeOn(Ix(t) - Ix(SubAt(t, d, k, m)), bt, bk, holes, bt', bk', holes')
    ensures CtxRep(t, d, k, m, bt', bk', holes')
  {
    if k < m {
      var kid, sib := Kid(t, d[k]), Kid(t, !d[k]);
      SubFacts(kid, d, k + 1, m);
      var s := Ix(t) - Ix(SubAt(t, d, k, m));
      assert t.ix in s;
      AgreeOnSubset(s, Ix(sib), bt, bk, holes, bt', bk', holes');
      AgreeOnSubset(s, Ix(kid) - Ix(SubAt(kid, d, k + 1, m)), bt, bk, holes, bt', bk', holes');
      RepFrame(sib, bt, bk, holes, bt', bk', holes');
      CtxFrame(kid, d, k + 1, m, bt, bk, holes, bt', bk', holes');
    }
  }

  lemma {:induction false} CtxPut(t: Tree, d: Bits, k: nat, m: nat, sub: Tree, bt: seq<nat>, bk: seq<Slot>,
                                  holes: set<nat>)
    requires HasPath(t, d, k, m) && CtxRep(t, d, k, m, bt, bk, holes)
    requires Rep(sub, bt, bk, holes) && sub.ix == SubAt(t, d, k, m).ix
    ensures Rep(Put(t, d, k, m, sub), bt, bk, holes) && Put(t, d, k, m, sub).ix == t.ix
  {
    if k < m {
      CtxPut(Kid(t, d[k]), d, k + 1, m, sub, bt, bk, holes);
    }
  }

  /** Replacing a subtree both in the tree and in the vectors. */
  lemma RepPut(t: Tree, d: Bits, m: nat, sub: Tree, bt: seq<nat>, bk: seq<Slot>, holes: set<nat>,
               bt': seq<nat>, bk': seq<Slot>, holes': set<nat>)
    requires HasPath(t, d, 0, m) && Proper(t) && Rep(t, bt, bk, holes)
    requires AgreeOn(Ix(t) - Ix(SubAt(t, d, 0, m)), bt, bk, holes, bt', bk', holes')
    requires Rep(sub, bt', bk', holes') && sub.ix == SubAt(t, d, 0, m).ix
    ensures Rep(Put(t, d, 0, m, sub), bt', bk', holes') && Put(t, d, 0, m, sub).ix == t.ix
  {
    RepCtx(t, d, 0, m, bt, bk, holes);
    CtxFrame(t, d, 0, m, bt, bk, holes, bt', bk', holes');
    CtxPut(t, d, 0, m, sub, bt', bk', holes');
  }

  // ----- Lookup walks -----

  /** The vectors hold the nodes that the walk along `d` visits. */
  ghost predicate Walk(t: Tree, d: Bits, k: nat, bt: seq<nat>, bk: seq<Slot>)
    requires k <= |d| && Fits(t, |d| - k)
  {
    && |bt| == 2 * |bk| && t.ix < |bk|
    && match t
       case Leaf(ix, data) => bk[ix] == Some(data)
       case Node(ix, l, r) =>
         bk[ix] == None && bt[2 * ix + if d[k] then 1 else 0] == Kid(t, d[k]).ix && Walk(Kid(t, d[k]), d, k + 1, bt, bk)
  }

  lemma {:induction false} RepWalk(t: Tree, d: Bits, k: nat, bt: seq<nat>, bk: seq<Slot>)
    requires k <= |d| && Fits(t, |d| - k) && Rep(t, bt, bk, {})
    ensures Walk(t, d, k, bt, bk)
  {
    if t.Node? {
      RepWalk(Kid(t, d[k]), d, k + 1, bt, bk);
    }
  }

  /** The last inner node of the walk, or `par` when there is none. */
  ghost function ParentIx(t: Tree, d: Bits, k: nat, par: nat): nat
    requires k <= |d| && Fits(t, |d| - k)
  {
    if t.Leaf? then par else ParentIx(Kid(t, d[k]), d, k + 1, t.ix)
  }

  lemma {:induction false} ParentInTree(t: Tree, d: Bits, k: nat, par: nat)
    requires k <= |d| && Fits(t, |d| - k)
    ensures LeafAt(t, d, k).ix in Ix(t)
    ensures t.Node? && Proper(t) ==> ParentIx(t, d, k, par) in Ix(t) && ParentIx(t, d, k, par) != LeafAt(t, d, k).ix
  {
    if t.Node? {
      ParentInTree(Kid(t, d[k]), d, k + 1, t.ix);
    }
  }

  /** The walk only looks at the bits that are still to come. */
  lemma {:induction false} SameSuffix(t: Tree, d: Bits, d': Bits, k: nat, par: nat)
    requires k <= |d| == |d'| && Fits(t, |d| - k)
    requires forall i :: k <= i < |d| ==> d[i] == d'[i]
    ensures LeafAt(t, d, k) == LeafAt(t, d', k) && ParentIx(t, d, k, par) == ParentIx(t, d', k, par)
  {
    if t.Node? {
      SameSuffix(Kid(t, d[k]), d, d', k + 1, t.ix);
    }
  }

  /** The walk towards the brother at depth `j + 1`: along `d` to depth `j`, then the other way. */
  lemma {:induction false} BrotherWalk(t: Tree, d: Bits, k: nat, j: nat, par: nat, bt: seq<nat>, bk: seq<Slot>)
    requires k <= j < |d| && Fits(t, |d| - k) && HasPath(t, d, k, j + 1)
    requires CtxRep(t, d, k, j + 1, bt, bk, {})
    ensures var d' := d[j := !d[j]];
            HasPath(t, d, k, j) && SubAt(t, d, k, j).Node? && Fits(Kid(SubAt(t, d, k, j), !d[j]), |d| - j - 1)
            && Walk(t, d', k, bt, bk)
            && LeafAt(t, d', k) == LeafAt(Kid(SubAt(t, d, k, j), !d[j]), d, j + 1)
            && ParentIx(t, d', k, par) == ParentIx(Kid(SubAt(t, d, k, j), !d[j]), d, j + 1, SubAt(t, d, k, j).ix)
  {
    var d' := d[j := !d[j]];
    SubBack(t, d, k, j);
    if k == j {
      RepWalk(Kid(t, !d[j]), d', j + 1, bt, bk);
      SameSuffix(Kid(t, !d[j]), d', d, j + 1, t.ix);
    } else {
      BrotherWalk(Kid(t, d[k]), d, k + 1, j, t.ix, bt, bk);
    }
  }

  // ----- The tree represents the recency list -----

  /** Every leaf holds the elements of its region, in recency order; no leaf lies below the last bit. */
  ghost predicate Sem(t: Tree, us: Bits, p: Bits, all: seq<Elem>) {
    match t
    case Leaf(_, data) => data == Region(all, us, p)
    case Node(_, l, r) => |p| < |us| && Sem(l, us, p + [false], all) && Sem(r, us, p + [true], all)
  }

  lemma {:induction false} SemFits(t: Tree, us: Bits, p: Bits, all: seq<Elem>)
    requires Sem(t, us, p, all) && |p| <= |us|
    ensures Fits(t, |us| - |p|)
  {
    if t.Node? {
      SemFits(t.left, us, p + [false], all);
      SemFits(t.right, us, p + [true], all);
    }
  }

  lemma {:induction false} SemAt(t: Tree, us: Bits, d: Bits, k: nat, m: nat, all: seq<Elem>)
    requires |d| == |us| && HasPath(t, d, k, m) && Sem(t, us, d[..k], all)
    ensures Sem(SubAt(t, d, k, m), us, d[..m], all)
  {
    if k < m {
      assert d[..k + 1] == d[..k] + [d[k]];
      SemAt(Kid(t, d[k]), us, d, k + 1, m, all);
    }
  }

  /** The two lists have the same regions off the path `d`. */
  ghost predicate SameOffPath(all: seq<Elem>, all': seq<Elem>, us: Bits, d: Bits) {
    forall q :: !(q <= d) ==> Region(all', us, q) == Region(all, us, q)
  }

  lemma {:induction false} SemOffPath(t: Tree, us: Bits, p: Bits, d: Bits, all: seq<Elem>, all': seq<Elem>)
    requires SameOffPath(all, all', us, d) && !(p <= d) && Sem(t, us, p, all)
    ensures Sem(t, us, p, all')
  {
    if t.Node? {
      assert p <= p + [false] && p <= p + [true];
      SemOffPath(t.left, us, p + [false], d, all, all');
      SemOffPath(t.right, us, p + [true], d, all, all');
    }
  }

  lemma {:induction false} SemPut(t: Tree, us: Bits, d: Bits, k: nat, m: nat, sub: Tree, all: seq<Elem>,
                                  all': seq<Elem>)
    requires |d| == |us| && HasPath(t, d, k, m)
    requires Sem(t, us, d[..k], all) && Sem(sub, us, d[..m], all')
    requires SameOffPath(all, all', us, d)
    ensures Sem(Put(t, d, k, m, sub), us, d[..k], all')
  {
    if k < m {
      assert d[..k + 1] == d[..k] + [d[k]];
      SemPut(Kid(t, d[k]), us, d, k + 1, m, sub, all, all');
      var q := d[..k] + [!d[k]];
      assert q[k] != d[k];
      SemOffPath(Kid(t, !d[k]), us, q, d, all, all');
    }
  }

  lemma ChangeOffPath(all: seq<Elem>, us: Bits, e: Elem)
    requires |e.bits| == |us|
    ensures SameOffPath(all, Touched(all, e), us, Xor(us, e.bits))
    ensures SameOffPath(all, Without(all, e), us, Xor(us, e.bits))
  {
    forall q | !(q <= Xor(us, e.bits))
      ensures Region(Touched(all, e), us, q) == Region(all, us, q)
      ensures Region(Without(all, e), us, q) == Region(all, us, q)
    {
      RegionTouched(all, us, q, e);
      RegionWithout(all, us, q, e);
    }
  }

  // ----- The whole invariant -----

  /** The flat vectors are a proper binary tree rooted at 0, the free list holds exactly the
      unused indices, buckets respect their capacity, and the buckets are the regions of the
      recency list `all` of distinct elements. Between operations there are no holes. */
  ghost predicate TableInv(t: Tree, all: seq<Elem>, us: Bits, max: nat,
                           bt: seq<nat>, bk: seq<Slot>, rem: seq<nat>, holes: set<nat>)
  {
    && t.ix == 0 && Proper(t) && Rep(t, bt, bk, holes)
    && Free(Ix(t), |bk|, rem) && Unused(rem, bk)
    && Sized(t, max, holes) && Sem(t, us, [], all)
    && Distinct(all) && Keyed(all, us)
  }

  ghost predicate Unused(rem: seq<nat>, bk: seq<Slot>) {
    forall x :: x in rem ==> x < |bk| && bk[x] == None
  }

  /** Replacing one subtree, in the tree and in the vectors, keeps the invariant. */
  lemma InvPut(t: Tree, all: seq<Elem>, all': seq<Elem>, us: Bits, max: nat, d: Bits, m: nat, sub: Tree,
               bt: seq<nat>, bk: seq<Slot>, rem: seq<nat>, holes: set<nat>,
               bt': seq<nat>, bk': seq<Slot>, rem': seq<nat>, holes': set<nat>)
    requires TableInv(t, all, us, max, bt, bk, rem, holes)
    requires |d| == |us| && HasPath(t, d, 0, m)
    requires AgreeOn(Ix(t) - Ix(SubAt(t, d, 0, m)), bt, bk, holes, bt', bk', holes')
    requires Proper(sub) && Rep(sub, bt', bk', holes') && sub.ix == SubAt(t, d, 0, m).ix
    requires Ix(sub) * (Ix(t) - Ix(SubAt(t, d, 0, m))) == {}
    requires Free(Ix(t) - Ix(SubAt(t, d, 0, m)) + Ix(sub), |bk'|, rem') && Unused(rem', bk')
    requires Sized(sub, max, holes') && Sem(sub, us, d[..m], all')
    requires SameOffPath(all, all', us, d) && Distinct(all') && Keyed(all', us)
    ensures TableInv(Put(t, d, 0, m, sub), all', us, max, bt', bk', rem', holes')
  {
    assert |bk'| > 0;
    InRange(t, bt, bk, holes);
    RepPut(t, d, m, sub, bt, bk, holes, bt', bk', holes');
    PutIx(t, d, 0, m, sub);
    PutSized(t, d, 0, m, sub, max, holes, holes');
    assert d[..0] == [];
    SemPut(t, us, d, 0, m, sub, all, all');
  }

  lemma {:induction false} InRange(t: Tree, bt: seq<nat>, bk: seq<Slot>, holes: set<nat>)
    requires Rep(t, bt, bk, holes)
    ensures forall i :: i in Ix(t) ==> i < |bk|
  {
    if t.Node? {
      InRange(t.left, bt, bk, holes);
      InRange(t.right, bt, bk, holes);
    }
  }
}
