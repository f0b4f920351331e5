/** What `remove` does to the tree when a bucket becomes empty: merge upwards. */
module BucketPruning {
  import opened Sequences
  import opened Elements
  import opened BucketTree
  import opened BucketGrowth

  /** The merging loop, coming up along `d`, turns this subtree into a single bucket: the
      leaf on the path is empty, and every brother on the way is an empty bucket, except that
      the first one, the brother of the leaf itself, may hold elements. */
  ghost predicate Rises(t: Tree, d: Bits, k: nat)
    requires k <= |d| && Fits(t, |d| - k)
  {
    match t
    case Leaf(_, data) => data == []
    case Node(_, _, _) =>
      var kid, bro := Kid(t, d[k]), Kid(t, !d[k]);
      Rises(kid, d, k + 1) && bro.Leaf? && (bro.data == [] || kid.Leaf?)
  }

  /** The elements of that bucket: those of the first brother. */
  ghost function Merged(t: Tree, d: Bits, k: nat): seq<Elem>
    requires k <= |d| && Fits(t, |d| - k)
  {
    if t.Leaf? then []
    else
      var kid, bro := Kid(t, d[k]), Kid(t, !d[k]);
      if kid.Node? then Merged(kid, d, k + 1) else if bro.Leaf? then bro.data else []
  }

  /** Some brother that the loop examines is not a bucket but an inner node, and the loop does
      not stop there: it is the first brother, or the bucket that the walk ends in is empty. */
  ghost predicate Corrupts(t: Tree, d: Bits, k: nat)
    requires k <= |d| && Fits(t, |d| - k)
  {
    t.Node? &&
    var kid, bro := Kid(t, d[k]), Kid(t, !d[k]);
    || Corrupts(kid, d, k + 1)
    || (Rises(kid, d, k + 1) && bro.Node? && (kid.Leaf? || (var w := LeafAt(bro, d, k + 1); w.Leaf? && w.data == [])))
  }

  lemma {:induction false} RisesClean(t: Tree, d: Bits, k: nat)
    requires k <= |d| && Fits(t, |d| - k) && Rises(t, d, k)
    ensures !Corrupts(t, d, k)
  {
    if t.Node? {
      RisesClean(Kid(t, d[k]), d, k + 1);
    }
  }

  /** Whether the loop goes wrong is decided at the level where it stops. */
  lemma {:induction false} CorruptsUp(t: Tree, d: Bits, k: nat, m: nat)
    requires k <= |d| && Fits(t, |d| - k) && HasPath(t, d, k, m) && Fits(SubAt(t, d, k, m), |d| - m)
    requires !Rises(SubAt(t, d, k, m), d, m)
    ensures Corrupts(t, d, k) <==> Corrupts(SubAt(t, d, k, m), d, m)
    ensures !Rises(t, d, k)
  {
    if k < m {
      CorruptsUp(Kid(t, d[k]), d, k + 1, m);
    }
  }

  lemma {:induction false} CorruptsAbove(t: Tree, d: Bits, k: nat, m: nat)
    requires k <= |d| && Fits(t, |d| - k) && HasPath(t, d, k, m) && Fits(SubAt(t, d, k, m), |d| - m)
    requires Corrupts(SubAt(t, d, k, m), d, m)
    ensures Corrupts(t, d, k)
  {
    if k < m {
      CorruptsAbove(Kid(t, d[k]), d, k + 1, m);
    }
  }

  /** A subtree that rises holds, in recency order, the elements it merges into one bucket. */
  lemma {:induction false} MergedRegion(t: Tree, us: Bits, d: Bits, k: nat, all: seq<Elem>)
    requires k <= |d| == |us| && Fits(t, |d| - k) && Rises(t, d, k) && Sem(t, us, d[..k], all)
    ensures Merged(t, d, k) == Region(all, us, d[..k])
  {
    if t.Node? {
      var kid, bro := Kid(t, d[k]), Kid(t, !d[k]);
      assert d[..k] + [d[k]] == d[..k + 1];
      MergedRegion(kid, us, d, k + 1, all);
      if bro.data == [] {
        RegionHalf(all, us, d[..k], d[k]);
      } else {
        assert !!d[k] == d[k];
        RegionHalf(all, us, d[..k], !d[k]);
      }
    }
  }

  lemma {:induction false} MergedSized(t: Tree, d: Bits, k: nat, max: nat)
    requires k <= |d| && Fits(t, |d| - k) && Sized(t, max, {})
    ensures |Merged(t, d, k)| <= max
  {
    if t.Node? {
      MergedSized(Kid(t, d[k]), d, k + 1, max);
    }
  }

  // ----- The state of the merging loop -----

  /** So far so good: the loop has reached depth `j`, the subtree there is now the bucket `ix`,
      and its other indices are free. */
  ghost predicate Clean(t: Tree, d: Bits, j: nat, ix: nat, bt: seq<nat>, bk: seq<Slot>, rem: seq<nat>)
    requires Fits(t, |d|)
  {
    && HasPath(t, d, 0, j) && CtxRep(t, d, 0, j, bt, bk, {})
    && var sub := SubAt(t, d, 0, j);
    && |bt| == 2 * |bk| && ix < |bk| && ix == sub.ix && Fits(sub, |d| - j) && Rises(sub, d, j)
    && bk[ix] == Some(Merged(sub, d, j))
    && Free(Ix(t) - Ix(sub) + {ix}, |bk|, rem) && Unused(rem, bk)
  }

  /** Beyond repair: an inner node `SubAt(c)` is not free, but its child on the path is. */
  ghost predicate Stuck(t: Tree, d: Bits, c: nat, bt: seq<nat>, bk: seq<Slot>, rem: seq<nat>) {
    && HasPath(t, d, 0, c) && c < |d| && SubAt(t, d, 0, c).Node?
    && var p := SubAt(t, d, 0, c);
    && |bt| == 2 * |bk| && p.ix < |bk| && bk[p.ix] == None
    && bt[2 * p.ix + if d[c] then 1 else 0] == Kid(p, d[c]).ix
    && Kid(p, d[c]).ix in rem && p.ix !in rem
  }

  /** The loop went wrong at depth `c`, and is now at depth `j` with some other node `ix`. */
  ghost predicate Broken(t: Tree, d: Bits, j: nat, c: nat, ix: nat, bt: seq<nat>, bk: seq<Slot>, rem: seq<nat>)
    requires Fits(t, |d|)
  {
    && Corrupts(t, d, 0) && j <= c && Stuck(t, d, c, bt, bk, rem)
    && HasPath(t, d, 0, j) && CtxRep(t, d, 0, j, bt, bk, {})
    && ix in Ix(SubAt(t, d, 0, j)) && ix != SubAt(t, d, 0, c).ix && ix < |bk|
  }

  /** A stuck state is no table at all: whatever tree and list one tries, the invariant fails. */
  lemma StuckForever(t: Tree, d: Bits, c: nat, t': Tree, all: seq<Elem>, us: Bits, max: nat,
                     bt: seq<nat>, bk: seq<Slot>, rem: seq<nat>)
    requires Stuck(t, d, c, bt, bk, rem)
    ensures !TableInv(t', all, us, max, bt, bk, rem, {})
  {
    if TableInv(t', all, us, max, bt, bk, rem, {}) {
      var p := SubAt(t, d, 0, c);
      assert p.ix in Ix(t');
      InnerNode(t', bt, bk, p.ix);
      assert false;
    }
  }

  /** The vectors after one merge: `bro` and `ix` are freed and `par` has their bucket. */
  ghost predicate MergeStep(par: nat, bro: nat, ix: nat, kept: Slot, bt: seq<nat>, bk: seq<Slot>, rem: seq<nat>,
                            bt': seq<nat>, bk': seq<Slot>, rem': seq<nat>)
  {
    && |bt| == 2 * |bk| && |bt'| == 2 * |bk'| && |bk'| == |bk|
    && par < |bk| && bro < |bk| && ix < |bk|
    && rem' == rem + [bro, ix]
    && bk'[par] == kept && bk'[bro] == None && bk'[ix] == None
    && forall i: nat :: i < |bk| && i != par && i != bro && i != ix ==>
         bk'[i] == bk[i] && bt'[2 * i] == bt[2 * i] && bt'[2 * i + 1] == bt[2 * i + 1]
  }

  /** What the loop knows about the brother it examines at depth `j`. */
  lemma ExamineBrother(t: Tree, d: Bits, j: nat, bt: seq<nat>, bk: seq<Slot>)
    requires Proper(t) && Fits(t, |d|) && HasPath(t, d, 0, j + 1) && CtxRep(t, d, 0, j + 1, bt, bk, {})
    ensures HasPath(t, d, 0, j) && CtxRep(t, d, 0, j, bt, bk, {})
    ensures var p := SubAt(t, d, 0, j);
            p.Node? && SubAt(t, d, 0, j + 1) == Kid(p, d[j]) && Proper(p) && Fits(p, |d| - j)
            && Fits(Kid(p, !d[j]), |d| - j - 1) && Fits(Kid(p, d[j]), |d| - j - 1)
            && |bt| == 2 * |bk| && p.ix < |bk| && bk[p.ix] == None
            && bt[2 * p.ix] == p.left.ix && bt[2 * p.ix + 1] == p.right.ix
            && Rep(Kid(p, !d[j]), bt, bk, {}) && Ix(p) <= Ix(t)
    ensures var d' := d[j := !d[j]];
            var bro := Kid(SubAt(t, d, 0, j), !d[j]);
            && Walk(t, d', 0, bt, bk) && LeafAt(t, d', 0) == LeafAt(bro, d, j + 1)
            && LeafAt(bro, d, j + 1).Leaf? && LeafAt(bro, d, j + 1).ix in Ix(bro) && LeafAt(bro, d, j + 1).ix < |bk|
            && bk[LeafAt(bro, d, j + 1).ix] == Some(LeafAt(bro, d, j + 1).data)
            && (bro.Leaf? ==> LeafAt(bro, d, j + 1) == bro && ParentIx(t, d', 0, 0) == SubAt(t, d, 0, j).ix)
            && (bro.Node? ==> ParentIx(t, d', 0, 0) in Ix(bro) && ParentIx(t, d', 0, 0) != LeafAt(bro, d, j + 1).ix)
            && ParentIx(t, d', 0, 0) < |bk|
  {
    hide CtxRep, Walk;
    SubBack(t, d, 0, j);
    CtxShrink(t, d, 0, j, bt, bk, {});
    SubFacts(t, d, 0, j);
    BrotherWalk(t, d, 0, j, 0, bt, bk);
    var p := SubAt(t, d, 0, j);
    var bro := Kid(p, !d[j]);
    ParentInTree(bro, d, j + 1, p.ix);
    RepCtx(bro, d, j + 1, Depth(bro, d, j + 1), bt, bk, {});
    InRange(bro, bt, bk, {});
  }

  /** A merge with a brother that is a bucket. */
  lemma CleanMerge(t: Tree, d: Bits, j: nat, ix: nat, kept: Slot, bt: seq<nat>, bk: seq<Slot>, rem: seq<nat>,
                   bt': seq<nat>, bk': seq<Slot>, rem': seq<nat>)
    requires j < |d| && Proper(t) && Fits(t, |d|) && Clean(t, d, j + 1, ix, bt, bk, rem)
    requires HasPath(t, d, 0, j) && SubAt(t, d, 0, j).Node? && SubAt(t, d, 0, j + 1) == Kid(SubAt(t, d, 0, j), d[j])
    requires var p := SubAt(t, d, 0, j);
             var bro := Kid(p, !d[j]);
             bro.Leaf? && (bro.data == [] || Kid(p, d[j]).Leaf?)
             && kept == (if bro.data == [] then bk[ix] else Some(bro.data))
             && MergeStep(p.ix, bro.ix, ix, kept, bt, bk, rem, bt', bk', rem')
    ensures Clean(t, d, j, SubAt(t, d, 0, j).ix, bt', bk', rem')
  {
    hide Rep, CtxRep, HasPath, SubAt;
    var p := SubAt(t, d, 0, j);
    var kid, bro := Kid(p, d[j]), Kid(p, !d[j]);
    SubFacts(t, d, 0, j);
    CtxShrink(t, d, 0, j, bt, bk, {});
    FrameBelow(t, d, j, ix, p.ix, bro.ix, kept, bt, bk, rem, bt', bk', rem');
    MergedIx(Ix(t), p, kid, bro, ix);
    hide Ix, Free, Proper;
    Freed(Ix(t) - Ix(kid) + {ix}, Ix(t) - Ix(p) + {p.ix}, |bk|, rem, bro.ix, ix);
  }

  lemma MergedIx(all: set<nat>, p: Tree, kid: Tree, bro: Tree, ix: nat)
    requires p.Node? && Proper(p) && Ix(p) <= all && bro.Leaf? && ix in Ix(kid)
    requires (kid == p.left && bro == p.right) || (kid == p.right && bro == p.left)
    ensures var after := all - Ix(p) + {p.ix};
            all - Ix(kid) + {ix} == after + {bro.ix, ix} && bro.ix != ix && bro.ix !in after && ix !in after
  {
    assert Ix(p) == {p.ix} + Ix(kid) + {bro.ix};
  }

  lemma Freed(before: set<nat>, after: set<nat>, n: nat, rem: seq<nat>, a: nat, b: nat)
    requires Free(before, n, rem) && before == after + {a, b} && a != b && a !in after && b !in after
    ensures Free(after, n, rem + [a, b])
  {
    assert a in before && b in before;
  }

  /** A merge with a bucket deep inside a brother that is an inner node. */
  lemma BecomeBroken(t: Tree, d: Bits, j: nat, ix: nat, par: nat, deep: nat, kept: Slot,
                     bt: seq<nat>, bk: seq<Slot>, rem: seq<nat>, bt': seq<nat>, bk': seq<Slot>, rem': seq<nat>)
    requires Proper(t) && Fits(t, |d|) && Clean(t, d, j + 1, ix, bt, bk, rem)
    requires HasPath(t, d, 0, j) && SubAt(t, d, 0, j).Node? && SubAt(t, d, 0, j + 1) == Kid(SubAt(t, d, 0, j), d[j])
    requires Fits(SubAt(t, d, 0, j), |d| - j)
    requires var p := SubAt(t, d, 0, j);
             var bro := Kid(p, !d[j]);
             bro.Node? && par in Ix(bro) && deep in Ix(bro)
             && (Kid(p, d[j]).Leaf? || (var w := LeafAt(bro, d, j + 1); w.Leaf? && w.data == []))
             && MergeStep(par, deep, ix, kept, bt, bk, rem, bt', bk', rem')
    ensures Broken(t, d, j, j, par, bt', bk', rem')
  {
    hide Rep, SubAt, HasPath, CtxRep, Merged, Fits, LeafAt, MergeStep;
    SubFacts(t, d, 0, j);
    CtxShrink(t, d, 0, j, bt, bk, {});
    var p := SubAt(t, d, 0, j);
    FrameBelow(t, d, j, ix, par, deep, kept, bt, bk, rem, bt', bk', rem');
    CorruptsAbove(t, d, 0, j);
    assert p.ix in Ix(t) - Ix(Kid(p, d[j])) + {ix} && p.ix !in rem;
    assert p.ix != par && p.ix != deep && p.ix != ix;
    StuckAfter(t, d, j, ix, par, deep, kept, bt, bk, rem, bt', bk', rem');
  }

  /** A merge elsewhere leaves an inner node as it is, even when it frees one of its children. */
  lemma StuckAfter(t: Tree, d: Bits, c: nat, ix: nat, par: nat, deep: nat, kept: Slot,
                   bt: seq<nat>, bk: seq<Slot>, rem: seq<nat>, bt': seq<nat>, bk': seq<Slot>, rem': seq<nat>)
    requires HasPath(t, d, 0, c) && c < |d| && SubAt(t, d, 0, c).Node?
    requires MergeStep(par, deep, ix, kept, bt, bk, rem, bt', bk', rem')
    requires var p := SubAt(t, d, 0, c);
             && p.ix < |bk| && bk[p.ix] == None && p.ix !in rem && p.ix != par && p.ix != deep && p.ix != ix
             && bt[2 * p.ix + if d[c] then 1 else 0] == Kid(p, d[c]).ix
             && (Kid(p, d[c]).ix in rem || Kid(p, d[c]).ix == ix)
    ensures Stuck(t, d, c, bt', bk', rem') && par < |bk'|
  {
    hide SubAt, HasPath;
    assert rem' == rem + [deep, ix];
  }

  /** A merge inside the subtree at depth `j` does not touch what lies above. */
  lemma FrameBelow(t: Tree, d: Bits, j: nat, ix: nat, par: nat, deep: nat, kept: Slot,
                   bt: seq<nat>, bk: seq<Slot>, rem: seq<nat>, bt': seq<nat>, bk': seq<Slot>, rem': seq<nat>)
    requires Proper(t) && HasPath(t, d, 0, j) && CtxRep(t, d, 0, j, bt, bk, {})
    requires ix in Ix(SubAt(t, d, 0, j)) && par in Ix(SubAt(t, d, 0, j)) && deep in Ix(SubAt(t, d, 0, j))
    requires MergeStep(par, deep, ix, kept, bt, bk, rem, bt', bk', rem')
    ensures CtxRep(t, d, 0, j, bt', bk', {})
  {
    CtxFrame(t, d, 0, j, bt, bk, {}, bt', bk', {});
  }

  lemma StayBroken(t: Tree, d: Bits, j: nat, c: nat, ix: nat, par: nat, deep: nat, kept: Slot,
                   bt: seq<nat>, bk: seq<Slot>, rem: seq<nat>, bt': seq<nat>, bk': seq<Slot>, rem': seq<nat>)
    requires Proper(t) && Fits(t, |d|) && Broken(t, d, j + 1, c, ix, bt, bk, rem)
    requires HasPath(t, d, 0, j) && SubAt(t, d, 0, j).Node? && SubAt(t, d, 0, j + 1) == Kid(SubAt(t, d, 0, j), d[j])
    requires var p := SubAt(t, d, 0, j);
             (par == p.ix || par in Ix(Kid(p, !d[j]))) && deep in Ix(Kid(p, !d[j]))
             && MergeStep(par, deep, ix, kept, bt, bk, rem, bt', bk', rem')
    ensures Broken(t, d, j, c, par, bt', bk', rem')
  {
    hide Rep, SubAt, HasPath, CtxRep, Merged, Fits, LeafAt, Corrupts, MergeStep;
    var p := SubAt(t, d, 0, j);
    var tp := SubAt(t, d, 0, c);
    SubFacts(t, d, 0, j);
    SubSub(t, d, 0, j + 1, c);
    CtxShrink(t, d, 0, j, bt, bk, {});
    FrameBelow(t, d, j, ix, par, deep, kept, bt, bk, rem, bt', bk', rem');
    assert tp.ix in Ix(Kid(p, d[j]));
    assert tp.ix != par && tp.ix != deep && tp.ix != ix;
    StuckAfter(t, d, c, ix, par, deep, kept, bt, bk, rem, bt', bk', rem');
  }

  lemma {:induction false} SubSub(t: Tree, d: Bits, k: nat, m: nat, c: nat)
    requires m <= c && HasPath(t, d, k, m) && HasPath(t, d, k, c)
    ensures Ix(SubAt(t, d, k, c)) <= Ix(SubAt(t, d, k, m))
  {
    if k < m {
      SubSub(Kid(t, d[k]), d, k + 1, m, c);
    } else {
      SubFacts(t, d, k, c);
    }
  }

  /** The subtree at depth `j` is not turned into a bucket. */
  ghost predicate StoppedBelow(t: Tree, d: Bits, j: nat) {
    HasPath(t, d, 0, j) && Fits(SubAt(t, d, 0, j), |d| - j) && !Rises(SubAt(t, d, 0, j), d, j)
  }

  /** The loop stops below a brother with content: nothing went wrong. */
  lemma StopHere(t: Tree, d: Bits, j: nat)
    requires Fits(t, |d|) && HasPath(t, d, 0, j + 1) && HasPath(t, d, 0, j) && SubAt(t, d, 0, j).Node?
    requires SubAt(t, d, 0, j + 1) == Kid(SubAt(t, d, 0, j), d[j])
    requires Fits(SubAt(t, d, 0, j), |d| - j) && Fits(SubAt(t, d, 0, j + 1), |d| - j - 1)
    requires Rises(SubAt(t, d, 0, j + 1), d, j + 1) && SubAt(t, d, 0, j + 1).Node?
    requires var bro := Kid(SubAt(t, d, 0, j), !d[j]);
             var w := LeafAt(bro, d, j + 1);
             w.Leaf? && w.data != [] && (bro.Leaf? ==> w == bro)
    ensures !Corrupts(t, d, 0) && StoppedBelow(t, d, j)
  {
    RisesClean(SubAt(t, d, 0, j + 1), d, j + 1);
    CorruptsUp(t, d, 0, j);
  }

  /** The tree when the loop ended well at depth `j`. */
  ghost function PrunedTree(t: Tree, d: Bits, j: nat): Tree
    requires HasPath(t, d, 0, j) && Fits(SubAt(t, d, 0, j), |d| - j)
  {
    Put(t, d, 0, j, Leaf(SubAt(t, d, 0, j).ix, Merged(SubAt(t, d, 0, j), d, j)))
  }

  lemma EndClean(t: Tree, all: seq<Elem>, us: Bits, max: nat, d: Bits, j: nat, ix: nat,
                 bt0: seq<nat>, bk0: seq<Slot>, rem0: seq<nat>, bt: seq<nat>, bk: seq<Slot>, rem: seq<nat>)
    requires TableInv(t, all, us, max, bt0, bk0, rem0, {}) && |d| == |us|
    requires Fits(t, |d|) && Clean(t, d, j, ix, bt, bk, rem)
    ensures HasPath(t, d, 0, j) && Fits(SubAt(t, d, 0, j), |d| - j)
    ensures TableInv(PrunedTree(t, d, j), all, us, max, bt, bk, rem, {})
  {
    var sub := SubAt(t, d, 0, j);
    var leaf := Leaf(ix, Merged(sub, d, j));
    assert d[..0] == [];
    SemAt(t, us, d, 0, j, all);
    MergedRegion(sub, us, d, j, all);
    SizedAt(t, d, 0, j, max, {});
    MergedSized(sub, d, j, max);
    PutIx(t, d, 0, j, leaf);
    PutSized(t, d, 0, j, leaf, max, {}, {});
    CtxPut(t, d, 0, j, leaf, bt, bk, {});
    SemPut(t, us, d, 0, j, leaf, all, all);
  }

  /** The walk to the brother at depth `j + 1` ended at `deep` with the last inner node `par`. */
  ghost predicate BrotherFound(t: Tree, d: Bits, j: nat, ix: nat, par: nat, deep: nat, bt: seq<nat>, bk: seq<Slot>) {
    && HasPath(t, d, 0, j + 1) && HasPath(t, d, 0, j) && |bt| == 2 * |bk|
    && var p := SubAt(t, d, 0, j);
    && p.Node? && SubAt(t, d, 0, j + 1) == Kid(p, d[j]) && Fits(p, |d| - j) && Fits(Kid(p, d[j]), |d| - j - 1)
    && var bro := Kid(p, !d[j]);
    && Fits(bro, |d| - j - 1)
    && var w := LeafAt(bro, d, j + 1);
    && w.Leaf? && deep == w.ix && (bro.Leaf? ==> w == bro)
    && (if bro.Leaf? then par == p.ix && deep == bro.ix else par in Ix(bro) && deep in Ix(bro))
    && par < |bk| && deep < |bk| && ix < |bk| && par != deep && par != ix && deep != ix
    && bk[deep] == Some(w.data)
  }

  /** A round of the loop below depth `j` that merges: the walk with bit `j` flipped decides which two
      slots become one, and where. */
  ghost predicate Merges(t: Tree, d: Bits, j: nat, ix: nat, bt: seq<nat>, bk: seq<Slot>, rem: seq<nat>,
                         bt': seq<nat>, bk': seq<Slot>, rem': seq<nat>)
    requires j < |d| && Fits(t, |d|)
  {
    var d' := d[j := !d[j]];
    var par, w := ParentIx(t, d', 0, 0), LeafAt(t, d', 0);
    && w.Leaf? && w.ix < |bk| && ix < |bk|
    && MergeStep(par, w.ix, ix, if w.data == [] then bk[ix] else bk[w.ix], bt, bk, rem, bt', bk', rem')
  }

  /** The state of the merging loop at depth `j`: clean, or broken since depth `c`. */
  ghost predicate LoopState(t: Tree, d: Bits, j: nat, broken: bool, c: nat, ix: nat,
                            bt: seq<nat>, bk: seq<Slot>, rem: seq<nat>)
    requires Fits(t, |d|)
  {
    if broken then Broken(t, d, j, c, ix, bt, bk, rem) else Clean(t, d, j, ix, bt, bk, rem)
  }

  lemma BrotherOnWalk(t: Tree, d: Bits, j: nat, broken: bool, c: nat, ix: nat, bt: seq<nat>, bk: seq<Slot>,
                      rem: seq<nat>)
    requires j < |d| && Proper(t) && Fits(t, |d|) && LoopState(t, d, j + 1, broken, c, ix, bt, bk, rem)
    ensures var d' := d[j := !d[j]];
            Walk(t, d', 0, bt, bk) && BrotherFound(t, d, j, ix, ParentIx(t, d', 0, 0), LeafAt(t, d', 0).ix, bt, bk)
            && LeafAt(t, d', 0).Leaf? && bk[LeafAt(t, d', 0).ix] == Some(LeafAt(t, d', 0).data)
  {
    hide Rep, SubAt, CtxRep, Merged, Fits, Depth, Corrupts, Rises, Walk, Free, Unused, ParentIx, Stuck;
    ExamineBrother(t, d, j, bt, bk);
    assert ix in Ix(SubAt(t, d, 0, j + 1));
  }

  /** A round of the loop that merges: it keeps the state clean exactly when the brother is a bucket. */
  lemma MergeRound(t: Tree, d: Bits, j: nat, broken: bool, c: nat, ix: nat, par: nat, deep: nat, kept: Slot,
                   bt: seq<nat>, bk: seq<Slot>, rem: seq<nat>, bt': seq<nat>, bk': seq<Slot>, rem': seq<nat>)
    requires j < |d| && Proper(t) && Fits(t, |d|) && LoopState(t, d, j + 1, broken, c, ix, bt, bk, rem)
    requires HasPath(t, d, 0, j) && SubAt(t, d, 0, j).Node? && SubAt(t, d, 0, j + 1) == Kid(SubAt(t, d, 0, j), d[j])
    requires Fits(SubAt(t, d, 0, j), |d| - j) && Fits(Kid(SubAt(t, d, 0, j), !d[j]), |d| - j - 1)
    requires var p := SubAt(t, d, 0, j);
             var kid, bro := Kid(p, d[j]), Kid(p, !d[j]);
             var w := LeafAt(bro, d, j + 1);
             && w.Leaf? && (w.data == [] || kid.Leaf?) && (bro.Leaf? ==> w == bro)
             && (if bro.Leaf? then par == p.ix && deep == bro.ix else par in Ix(bro) && deep in Ix(bro))
             && kept == (if w.data == [] then bk[ix] else Some(w.data))
             && MergeStep(par, deep, ix, kept, bt, bk, rem, bt', bk', rem')
    ensures var broken' := broken || Kid(SubAt(t, d, 0, j), !d[j]).Node?;
            LoopState(t, d, j, broken', if broken then c else j, par, bt', bk', rem')
  {
    hide Rep, SubAt, HasPath, CtxRep, Merged, Fits, LeafAt, Corrupts, Rises, MergeStep, Proper, Clean, Broken, Ix;
    var p := SubAt(t, d, 0, j);
    if broken {
      StayBroken(t, d, j, c, ix, par, deep, kept, bt, bk, rem, bt', bk', rem');
    } else if Kid(p, !d[j]).Node? {
      BecomeBroken(t, d, j, ix, par, deep, kept, bt, bk, rem, bt', bk', rem');
    } else {
      CleanMerge(t, d, j, ix, kept, bt, bk, rem, bt', bk', rem');
    }
  }

  /** The start of the loop: an empty leaf at depth `m`. */
  lemma StartClean(t: Tree, all: seq<Elem>, us: Bits, max: nat, d: Bits, m: nat, ix: nat,
                   bt: seq<nat>, bk: seq<Slot>, rem: seq<nat>)
    requires TableInv(t, all, us, max, bt, bk, rem, {}) && |d| == |us|
    requires HasPath(t, d, 0, m) && SubAt(t, d, 0, m) == Leaf(ix, [])
    ensures Fits(t, |d|) && LoopState(t, d, m, false, 0, ix, bt, bk, rem)
  {
    SemFits(t, us, [], all);
    RepCtx(t, d, 0, m, bt, bk, {});
    SubFacts(t, d, 0, m);
    assert Ix(t) - {ix} + {ix} == Ix(t);
  }

  /** The end of the loop, clean or broken. */
  lemma LoopEnd(t: Tree, all: seq<Elem>, us: Bits, max: nat, d: Bits, j: nat, broken: bool, c: nat, ix: nat,
                bt0: seq<nat>, bk0: seq<Slot>, rem0: seq<nat>, bt: seq<nat>, bk: seq<Slot>, rem: seq<nat>)
    requires TableInv(t, all, us, max, bt0, bk0, rem0, {}) && |d| == |us| && Fits(t, |d|)
    requires LoopState(t, d, j, broken, c, ix, bt, bk, rem) && (j == 0 || broken || StoppedBelow(t, d, j - 1))
    ensures HasPath(t, d, 0, j) && (j == 0 && !broken ==> !Corrupts(t, d, 0))
    ensures !broken ==>
              && Fits(SubAt(t, d, 0, j), |d| - j) && TableInv(PrunedTree(t, d, j), all, us, max, bt, bk, rem, {})
              && ShapeOf(PrunedTree(t, d, j)) == PrunedShape(t, d, 0)
    ensures broken ==> Corrupts(t, d, 0) && forall u, s :: !TableInv(u, s, us, max, bt, bk, rem, {})
  {
    hide TableInv, PrunedTree, PrunedShape, ShapeOf, StoppedBelow, CtxRep, Free, Unused, Merged;
    if broken {
      forall u, s ensures !TableInv(u, s, us, max, bt, bk, rem, {}) {
        StuckForever(t, d, c, u, s, us, max, bt, bk, rem);
      }
    } else {
      EndClean(t, all, us, max, d, j, ix, bt0, bk0, rem0, bt, bk, rem);
      PrunedTreeShape(t, d, j);
      if j == 0 {
        RisesClean(t, d, 0);
      }
    }
  }

  /** Only the deepest node of a path is a leaf. */
  lemma {:induction false} InnerAbove(t: Tree, d: Bits, k: nat, j: nat, m: nat)
    requires j < m && HasPath(t, d, k, m) && k <= j
    ensures HasPath(t, d, k, j) && SubAt(t, d, k, j).Node?
  {
    if k < j {
      InnerAbove(Kid(t, d[k]), d, k + 1, j, m);
    }
  }

  lemma PathTo(t: Tree, d: Bits, j: nat, m: nat)
    requires j <= m && HasPath(t, d, 0, m) && SubAt(t, d, 0, m).Leaf?
    ensures HasPath(t, d, 0, j) && (SubAt(t, d, 0, j).Leaf? <==> j == m)
  {
    if j < m {
      InnerAbove(t, d, 0, j, m);
    }
  }

  // ----- The shape that remove gives the tree -----

  /** What becomes of a subtree that `remove` comes up through: it keeps its form, or it turns into
      a single bucket and its brother is looked at next, or it is damaged. */
  datatype Outcome = Settled(shape: Shape) | Rising(data: seq<Elem>) | Wrong

  ghost function Forked(right: bool, kid: Shape, bro: Shape): Shape {
    if right then Fork(bro, kid) else Fork(kid, bro)
  }

  /** `remove` on a shape, below depth `k`. An emptied bucket merges with a brother that is a
      bucket; further up only with empty brothers. A brother that is a fork stops the merging when
      the bucket behind it has content, except for the first one; otherwise things go wrong. */
  ghost function RemoveFrom(s: Shape, d: Bits, e: Elem, k: nat): Outcome {
    match s
    case Bucket(data) =>
      if Without(data, e) == [] then Rising([]) else Settled(Bucket(Without(data, e)))
    case Fork(l, r) =>
      var right := k < |d| && d[k];
      var first, bro := (if right then r else l).Bucket?, if right then l else r;
      match if right then RemoveFrom(r, d, e, k + 1) else RemoveFrom(l, d, e, k + 1)
      case Wrong => Wrong
      case Settled(kid) => Settled(Forked(right, kid, bro))
      case Rising(data) =>
        if bro.Bucket? && (first || bro.data == []) then Rising(if first then bro.data else data)
        else if bro.Fork? && (first || EndOf(bro, d, k + 1) == []) then Wrong
        else Settled(Forked(right, Bucket(data), bro))
  }

  ghost function ResultOf(o: Outcome): Shape
    requires o != Wrong
  {
    match o
    case Settled(shape) => shape
    case Rising(data) => Bucket(data)
  }

  /** The bucket that the walk to the brother of the bucket of `d` ends in. */
  ghost function BrotherEnd(s: Shape, d: Bits, k: nat): seq<Elem>
    requires s.Fork?
  {
    var right := k < |d| && d[k];
    if right then (if s.right.Bucket? then EndOf(s.left, d, k + 1) else BrotherEnd(s.right, d, k + 1))
    else (if s.left.Bucket? then EndOf(s.right, d, k + 1) else BrotherEnd(s.left, d, k + 1))
  }

  /** When nothing goes wrong: a bucket that keeps an element stays where it is; one that becomes empty goes, and
      merging goes on until everything is one bucket or the next brother has content. */
  lemma {:induction false} RemoveMergesAll(s: Shape, d: Bits, e: Elem, k: nat)
    requires RemoveFrom(s, d, e, k) != Wrong
    ensures Without(EndOf(s, d, k), e) != [] ==>
              var o := RemoveFrom(s, d, e, k);
              o.Settled? && PathDepth(o.shape, d, k) == PathDepth(s, d, k)
              && EndOf(o.shape, d, k) == Without(EndOf(s, d, k), e)
    ensures Without(EndOf(s, d, k), e) == [] ==>
              var o := RemoveFrom(s, d, e, k);
              o.Settled? ==> o.shape.Fork? && PathDepth(o.shape, d, k) < PathDepth(s, d, k)
                             && BrotherEnd(o.shape, d, k) != []
  {
    if s.Fork? {
      var kid := if k < |d| && d[k] then s.right else s.left;
      RemoveMergesAll(kid, d, e, k + 1);
    }
  }

  /** The merging loop on a tree that the element was taken out of. */
  ghost function PrunedShape(t: Tree, d: Bits, k: nat): Shape
    requires k <= |d| && Fits(t, |d| - k)
  {
    if Rises(t, d, k) then Bucket(Merged(t, d, k))
    else if t.Leaf? then Bucket(t.data)
    else Forked(d[k], PrunedShape(Kid(t, d[k]), d, k + 1), ShapeOf(Kid(t, !d[k])))
  }

  lemma {:induction false} EndOfLeaf(t: Tree, d: Bits, k: nat)
    requires k <= |d| && Fits(t, |d| - k)
    ensures LeafAt(t, d, k).Leaf? && EndOf(ShapeOf(t), d, k) == LeafAt(t, d, k).data
  {
    if t.Node? {
      EndOfLeaf(Kid(t, d[k]), d, k + 1);
    }
  }

  /** The outcome says how far the merging loop comes. */
  lemma {:induction false} RemoveOutcome(t: Tree, d: Bits, e: Elem, k: nat)
    requires k <= |d| && Fits(t, |d| - k)
    ensures var m := Depth(t, d, k);
            var leaf := SubAt(t, d, k, m);
            var t' := Put(t, d, k, m, Leaf(leaf.ix, Without(leaf.data, e)));
            && Fits(t', |d| - k) && (t'.Leaf? <==> t.Leaf?)
            && match RemoveFrom(ShapeOf(t), d, e, k)
               case Wrong => Corrupts(t', d, k)
               case Rising(data) =>
                 && Rises(t', d, k) && !Corrupts(t', d, k)
                 && Merged(t', d, k) == data && PrunedShape(t', d, k) == Bucket(data)
               case Settled(s) => !Rises(t', d, k) && !Corrupts(t', d, k) && PrunedShape(t', d, k) == s
  {
    if t.Node? {
      RemoveOutcome(Kid(t, d[k]), d, e, k + 1);
      EndOfLeaf(Kid(t, !d[k]), d, k + 1);
    }
  }

  /** A bucket that keeps an element stays, and so does the root. */
  lemma {:induction false} NoPruning(t: Tree, d: Bits, k: nat, m: nat)
    requires k <= |d| && Fits(t, |d| - k) && HasPath(t, d, k, m) && SubAt(t, d, k, m).Leaf?
    requires SubAt(t, d, k, m).data != [] || k == m
    ensures !Corrupts(t, d, k) && PrunedShape(t, d, k) == ShapeOf(t)
    ensures SubAt(t, d, k, m).data != [] ==> !Rises(t, d, k)
  {
    if k < m {
      NoPruning(Kid(t, d[k]), d, k + 1, m);
    }
  }

  lemma {:induction false} PrunedBelow(t: Tree, d: Bits, k: nat, j: nat)
    requires k <= j <= |d| && Fits(t, |d| - k) && HasPath(t, d, k, j + 1) && HasPath(t, d, k, j)
    requires Fits(SubAt(t, d, k, j), |d| - j) && !Rises(SubAt(t, d, k, j), d, j)
    requires Fits(SubAt(t, d, k, j + 1), |d| - j - 1) && Rises(SubAt(t, d, k, j + 1), d, j + 1)
    ensures PrunedShape(t, d, k) == ShapeWith(t, d, k, j + 1, Bucket(Merged(SubAt(t, d, k, j + 1), d, j + 1)))
  {
    CorruptsUp(t, d, k, j);
    if k < j {
      PrunedBelow(Kid(t, d[k]), d, k + 1, j);
    }
  }

  /** Where the loop ends decides the shape. */
  lemma PrunedTreeShape(t: Tree, d: Bits, j: nat)
    requires Fits(t, |d|) && HasPath(t, d, 0, j) && Fits(SubAt(t, d, 0, j), |d| - j) && Rises(SubAt(t, d, 0, j), d, j)
    requires j == 0 || StoppedBelow(t, d, j - 1)
    ensures ShapeOf(PrunedTree(t, d, j)) == PrunedShape(t, d, 0)
  {
    ShapeOfPut(t, d, 0, j, Leaf(SubAt(t, d, 0, j).ix, Merged(SubAt(t, d, 0, j), d, j)), Bucket([]));
    if j > 0 {
      PrunedBelow(t, d, 0, j - 1);
    }
  }

  // ----- Taking an element out -----

  lemma {:induction false} PutLeafFits(t: Tree, d: Bits, k: nat, m: nat, leaf: Tree)
    requires HasPath(t, d, k, m) && Fits(t, |d| - k) && leaf.Leaf?
    ensures Fits(Put(t, d, k, m, leaf), |d| - k)
  {
    if k < m {
      PutLeafFits(Kid(t, d[k]), d, k + 1, m, leaf);
    }
  }

  /** The tree with `e` taken out of the bucket it resolves to, before any merging. */
  ghost function TakenOut(t: Tree, us: Bits, e: Elem): (r: Tree)
    requires |e.bits| == |us| && Fits(t, |us|)
    ensures Fits(r, |us|)
  {
    var d := Xor(us, e.bits);
    var m := Depth(t, d, 0);
    var leaf := SubAt(t, d, 0, m);
    var out := Leaf(leaf.ix, Without(leaf.data, e));
    PutLeafFits(t, d, 0, m, out);
    Put(t, d, 0, m, out)
  }

  /** Taking an element out of its bucket takes it out of the recency list. */
  lemma TakenOutInv(t: Tree, all: seq<Elem>, us: Bits, max: nat, bt: seq<nat>, bk: seq<Slot>, rem: seq<nat>, e: Elem)
    requires TableInv(t, all, us, max, bt, bk, rem, {}) && |e.bits| == |us|
    requires Fits(t, |us|)
    requires LeafAt(t, Xor(us, e.bits), 0).Leaf? && LeafAt(t, Xor(us, e.bits), 0).ix < |bk|
    ensures var leaf := LeafAt(t, Xor(us, e.bits), 0);
            TableInv(TakenOut(t, us, e), Without(all, e), us, max,
                     bt, bk[leaf.ix := Some(Without(leaf.data, e))], rem, {})
  {
    hide Walk;
    var d := Xor(us, e.bits);
    LeafFacts(t, all, us, max, bt, bk, rem, d);
    var m, leaf := Depth(t, d, 0), LeafAt(t, d, 0);
    var out := Leaf(leaf.ix, Without(leaf.data, e));
    TouchedDistinct(all, e);
    RegionWithout(all, us, d[..m], e);
    ChangeOffPath(all, us, e);
    assert Ix(t) - {leaf.ix} + {leaf.ix} == Ix(t);
    InvPut(t, all, Without(all, e), us, max, d, m, out, bt, bk, rem, {}, bt, bk[leaf.ix := Some(out.data)], rem, {});
  }

  /** An element is stored exactly when the bucket it resolves to has it. */
  lemma StoredInLeaf(t: Tree, all: seq<Elem>, us: Bits, max: nat, bt: seq<nat>, bk: seq<Slot>, rem: seq<nat>, e: Elem)
    requires TableInv(t, all, us, max, bt, bk, rem, {}) && |e.bits| == |us| && Fits(t, |us|)
    ensures LeafAt(t, Xor(us, e.bits), 0).Leaf?
    ensures (exists x :: x in all && Same(e, x)) <==> exists x :: x in LeafAt(t, Xor(us, e.bits), 0).data && Same(e, x)
  {
    LeafFacts(t, all, us, max, bt, bk, rem, Xor(us, e.bits));
  }

  /** What taking an element out of its bucket leaves of the tree, when the merging loop starts, and how
      it ends. */
  lemma RemoveShape(t: Tree, us: Bits, d: Bits, e: Elem, m: nat, leaf: Tree, t': Tree)
    requires |e.bits| == |us| && Fits(t, |us|) && d == Xor(us, e.bits) && t' == TakenOut(t, us, e)
    requires m == Depth(t, d, 0) && leaf == LeafAt(t, d, 0) && leaf.Leaf?
    ensures HasPath(t', d, 0, m) && SubAt(t', d, 0, m) == Leaf(leaf.ix, Without(leaf.data, e))
    ensures Without(leaf.data, e) != [] || m == 0 ==> !Corrupts(t', d, 0) && PrunedShape(t', d, 0) == ShapeOf(t')
    ensures var o := RemoveFrom(ShapeOf(t), d, e, 0);
            (o == Wrong <==> Corrupts(t', d, 0)) && (o != Wrong ==> ResultOf(o) == PrunedShape(t', d, 0))
  {
    hide Put, Depth, SubAt, HasPath, Corrupts, PrunedShape, RemoveFrom, ShapeOf;
    RemoveOutcome(t, d, e, 0);
    if Without(leaf.data, e) != [] || m == 0 {
      NoPruning(t', d, 0, m);
    }
  }

  /** A removal that empties a bucket just below the root makes exactly one merge. */
  ghost predicate MergesOnce(t: Tree, us: Bits, e: Elem, bt: seq<nat>, bk: seq<Slot>, rem: seq<nat>,
                             bt': seq<nat>, bk': seq<Slot>, rem': seq<nat>)
  {
    && |e.bits| == |us| && Fits(t, |us|)
    && var d := Xor(us, e.bits);
    && var leaf := LeafAt(t, d, 0);
    && leaf.Leaf? && leaf.ix < |bk|
    && (Depth(t, d, 0) == 1 && Without(leaf.data, e) == [] ==>
          Merges(TakenOut(t, us, e), d, 0, leaf.ix, bt, bk[leaf.ix := Some([])], rem, bt', bk', rem'))
  }
}
