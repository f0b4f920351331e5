/** Signatures, and the histogram of signatures that both calculators keep. */
module Signatures {
  import opened TrustLevels

  type U8 = x: nat | x < 256

  /** A signature that counts: the level of the originator and the level it gives, capped. */
  datatype Sig = Sig(orig: nat, cap: nat)

  /** A level given by an originator is never better than the originator's own. */
  function Capped(trust: nat, sig: nat): nat {
    if trust > sig then trust else sig
  }

  /** The capped level is the better one of the levels that are no better than either. */
  lemma CappedAtMost(trust: nat, sig: nat, n: nat)
    ensures Capped(trust, sig) <= n <==> trust <= n && sig <= n
  {
  }

  /** A signature is counted, once and at the signer's own level, exactly when both levels are in range. */
  lemma CountedIff(n: nat, trust: nat, sig: nat, x: Sig)
    ensures Counted(n, trust, sig)[x] <= 1
    ensures x in Counted(n, trust, sig) <==>
            && trust < n && sig < n && x.orig == trust
            && trust <= x.cap && sig <= x.cap && (x.cap == trust || x.cap == sig)
  {
    CappedAtMost(trust, sig, x.cap);
  }

  /** The signature as it is counted for `n` levels; out of range it does not count. */
  function Counted(n: nat, trust: nat, sig: nat): multiset<Sig> {
    if Capped(trust, sig) < n then multiset{Sig(trust, Capped(trust, sig))} else multiset{}
  }

  ghost function CellsOf(m: multiset<Sig>): Cells {
    (l: nat, s: nat) => m[Sig(l, s)]
  }
}

module ClassicTrust {
  import opened Sequences
  import opened TrustLevels
  import opened Signatures

  /** Row `l` has a cell for every capped level from `l` on. */
  ghost predicate Triangle(cm: seq<seq<nat>>, n: nat) {
    |cm| == n && forall l :: 0 <= l < n ==> |cm[l]| == n - l
  }

  ghost function ClassicCells(cm: seq<seq<nat>>): Cells {
    (l: nat, s: nat) => if l < |cm| && l <= s && s - l < |cm[l]| then cm[l][s - l] else 0
  }

  ghost predicate Holds(cm: seq<seq<nat>>, m: multiset<Sig>, n: nat) {
    Triangle(cm, n) && forall l, s :: 0 <= l <= s < n ==> cm[l][s - l] == m[Sig(l, s)]
  }

  /** The inner loop: one row of signatures is added to the column counters, whose running total
      is compared with the threshold of the row. */
  method RowPass(count: seq<nat>, nbtrust: seq<nat>, rules: Rules, l: nat, ghost c: Cells)
    returns (found: Option<nat>, nb: seq<nat>)
    requires l < |rules| == |nbtrust| && |count| == |rules| - l
    requires forall s :: l <= s < |rules| ==> count[s - l] == c(l, s)
    requires forall s :: 0 <= s < |rules| ==> nbtrust[s] == ColSum(c, l, s)
    ensures found == FirstInRow(c, rules, l, l)
    ensures |nb| == |rules| && forall s :: 0 <= s < |rules| ==> nb[s] == ColSum(c, l + 1, s)
  {
    hide ColSum, ByCols, FirstInRow, Hit;
    nb, found := nbtrust, None;
    var cum := 0;
    RowEnds(c, rules, l);
    for s := 0 to |rules|
      invariant |nb| == |rules| && cum == ByCols(c, l + 1, s)
      invariant forall k :: 0 <= k < s ==> nb[k] == ColSum(c, l + 1, k)
      invariant forall k :: s <= k < |rules| ==> nb[k] == ColSum(c, l, k)
      invariant found.None? ==> FirstInRow(c, rules, l, l) == FirstInRow(c, rules, l, if s < l then l else s)
      invariant found.Some? ==> FirstInRow(c, rules, l, l) == found
    {
      RowStep(c, rules, l, s);
      if s >= l {
        nb := nb[s := nb[s] + count[s - l]];
        cum := cum + nb[s];
        if cum >= rules[l] && found.None? {
          found := Some(s);
        }
      } else {
        cum := cum + nb[s];
      }
    }
  }

  lemma RowEnds(c: Cells, rules: Rules, l: nat)
    ensures ByCols(c, l + 1, 0) == 0 && FirstInRow(c, rules, l, |rules|) == None
  {
  }

  /** One cell of the inner loop. */
  lemma RowStep(c: Cells, rules: Rules, l: nat, s: nat)
    requires l < |rules| && s < |rules|
    ensures ColSum(c, l + 1, s) == ColSum(c, l, s) + (if l <= s then c(l, s) else 0)
    ensures ByCols(c, l + 1, s + 1) == ByCols(c, l + 1, s) + ColSum(c, l + 1, s)
    ensures l <= s ==>
              FirstInRow(c, rules, l, s) ==
              if ByCols(c, l + 1, s + 1) >= rules[l] then Some(s) else FirstInRow(c, rules, l, s + 1)
  {
    RowsAreCols(c, l + 1, s + 1);
  }

  /** The recalculation: rows of better originators first, nothing more once a level is found. */
  method Recalculate(calcmap: seq<seq<nat>>, rules: Rules) returns (newTrust: Option<nat>)
    requires Triangle(calcmap, |rules|)
    ensures newTrust == ClassicLevel(ClassicCells(calcmap), rules)
  {
    ghost var c := ClassicCells(calcmap);
    newTrust := None;
    var nbtrust := seq(|rules|, _ => 0);
    for l := 0 to |calcmap|
      invariant |nbtrust| == |rules|
      invariant newTrust.None? ==> forall s :: 0 <= s < |rules| ==> nbtrust[s] == ColSum(c, l, s)
      invariant newTrust.None? ==> ClassicLevel(c, rules) == ClassicFrom(c, rules, l)
      invariant newTrust.Some? ==> ClassicLevel(c, rules) == newTrust
    {
      if newTrust.None? {
        newTrust, nbtrust := RowPass(calcmap[l], nbtrust, rules, l, c);
      }
    }
  }

  /** What an update does to the signatures. */
  ghost function Updated(m: multiset<Sig>, n: nat, oldTrust: nat, oldSig: nat, newTrust: nat, newSig: nat)
    : multiset<Sig>
  {
    if Capped(oldTrust, oldSig) == Capped(newTrust, newSig) && oldTrust == newTrust then m
    else m - Counted(n, oldTrust, oldSig) + Counted(n, newTrust, newSig)
  }

  /** The level of the signatures, or the previous one when they give none. */
  ghost function NextTrust(m: multiset<Sig>, rules: Rules, previous: nat): nat {
    match ClassicLevel(CellsOf(m), rules)
    case Some(s) => s
    case None => previous
  }

  lemma HoldsLevel(cm: seq<seq<nat>>, m: multiset<Sig>, rules: Rules)
    requires Holds(cm, m, |rules|)
    ensures ClassicLevel(ClassicCells(cm), rules) == ClassicLevel(CellsOf(m), rules)
  {
    LevelsSame(ClassicCells(cm), CellsOf(m), rules);
  }

  /** The table with the cell of originator level `l` and capped level `s` set to `v`. */
  function SetCell(cm: seq<seq<nat>>, l: nat, s: nat, v: nat): seq<seq<nat>>
    requires l <= s && l < |cm| && s - l < |cm[l]|
  {
    var row: seq<nat> := cm[l][s - l := v];
    cm[l := row]
  }

  lemma SetCellHolds(cm: seq<seq<nat>>, m: multiset<Sig>, n: nat, l: nat, s: nat, v: nat)
    requires Holds(cm, m, n) && l <= s < n
    ensures Holds(SetCell(cm, l, s, v), m[Sig(l, s) := v], n)
  {
    var cm', m' := SetCell(cm, l, s, v), m[Sig(l, s) := v];
    forall a, b | 0 <= a <= b < n ensures cm'[a][b - a] == m'[Sig(a, b)] {
      assert cm[a][b - a] == m[Sig(a, b)];
    }
  }

  class ClassicWotTrust {
    var trust: nat
    var calcmap: seq<seq<nat>>
    ghost var sigs: multiset<Sig>

    /** The table is the histogram of `sigs`. */
    ghost predicate Valid(rules: Rules)
      reads this
    {
      |rules| <= UNKNOWN && Holds(calcmap, sigs, |rules|)
    }

    /** The trust is the level of `sigs`, if they have one. */
    ghost predicate Settled(rules: Rules)
      reads this
    {
      trust == NextTrust(sigs, rules, trust)
    }

    constructor (rules: Rules)
      requires |rules| <= UNKNOWN
      ensures Valid(rules) && sigs == multiset{} && trust == UNKNOWN
      ensures PositiveRules(rules) ==> Settled(rules)
    {
      trust := UNKNOWN;
      calcmap := seq(|rules|, ix requires 0 <= ix < |rules| => seq(|rules| - ix, _ => 0));
      sigs := multiset{};
      if PositiveRules(rules) {
        NoSignatures(rules);
      }
    }

    method Update(fromOldTrust: U8, fromOldSig: U8, fromNewTrust: U8, fromNewSig: U8, rules: Rules)
      returns (changedCache: bool, changedTrust: bool)
      requires Valid(rules)
      modifies this
      ensures Valid(rules)
      ensures sigs == Updated(old(sigs), |rules|, fromOldTrust, fromOldSig, fromNewTrust, fromNewSig)
      ensures trust == if changedCache then NextTrust(sigs, rules, old(trust)) else old(trust)
      ensures old(Settled(rules)) ==> Settled(rules)
      ensures changedCache <==> sigs != old(sigs)
      ensures changedTrust <==> trust != old(trust)
    {
      var capOld := Capped(fromOldTrust, fromOldSig);
      var capNew := Capped(fromNewTrust, fromNewSig);
      if capOld == capNew && fromOldTrust == fromNewTrust {
        return false, false;
      }
      changedCache, changedTrust := false, false;
      ghost var before := sigs;
      var gone := TakeOff(fromOldTrust, capOld, rules);
      var come := PutOn(fromNewTrust, capNew, rules);
      changedCache := gone || come;
      assert gone ==> before[Sig(fromOldTrust, capOld)] > sigs[Sig(fromOldTrust, capOld)];
      assert !changedCache ==> sigs == before;
      assert come ==> before[Sig(fromNewTrust, capNew)] < sigs[Sig(fromNewTrust, capNew)] || gone;
      if changedCache {
        var newTrust := Recalculate(calcmap, rules);
        HoldsLevel(calcmap, sigs, rules);
        if newTrust.Some? && newTrust.value != trust {
          trust := newTrust.value;
          changedTrust := true;
        }
      }
    }

    /** Forget a signature, if it is in range and there is one. */
    method TakeOff(orig: nat, cap: nat, rules: Rules) returns (changed: bool)
      requires Valid(rules) && orig <= cap
      modifies this`calcmap, this`sigs
      ensures Valid(rules) && sigs == old(sigs) - Counted(|rules|, orig, cap)
      ensures changed <==> sigs != old(sigs)
      ensures changed ==> old(sigs)[Sig(orig, cap)] > sigs[Sig(orig, cap)]
    {
      changed := false;
      ghost var m := sigs;
      if orig < |rules| && cap >= orig && cap < |rules| && calcmap[orig][cap - orig] > 0 {
        SetCellHolds(calcmap, sigs, |rules|, orig, cap, calcmap[orig][cap - orig] - 1);
        calcmap := SetCell(calcmap, orig, cap, calcmap[orig][cap - orig] - 1);
        sigs := m[Sig(orig, cap) := m[Sig(orig, cap)] - 1];
        changed := true;
      }
      assert sigs == m - Counted(|rules|, orig, cap);
    }

    /** Count a new signature, if it is in range. */
    method PutOn(orig: nat, cap: nat, rules: Rules) returns (changed: bool)
      requires Valid(rules) && orig <= cap
      modifies this`calcmap, this`sigs
      ensures Valid(rules) && sigs == old(sigs) + Counted(|rules|, orig, cap)
      ensures changed <==> cap < |rules|
    {
      changed := false;
      ghost var m := sigs;
      if orig < |rules| && cap >= orig && cap < |rules| {
        SetCellHolds(calcmap, sigs, |rules|, orig, cap, calcmap[orig][cap - orig] + 1);
        calcmap := SetCell(calcmap, orig, cap, calcmap[orig][cap - orig] + 1);
        sigs := m[Sig(orig, cap) := m[Sig(orig, cap)] + 1];
        changed := true;
      }
      assert sigs == m + Counted(|rules|, orig, cap);
    }
  }

  /** Without signatures and with positive thresholds there is no level. */
  lemma NoSignatures(rules: Rules)
    requires PositiveRules(rules)
    ensures ClassicLevel(CellsOf(multiset{}), rules) == None && ExpLevel(CellsOf(multiset{}), rules) == None
  {
    var c := CellsOf(multiset{});
    HitsAboveBarrier(c, rules, |rules|);
    ClassicIsFirstHit(c, rules);
    ExpIsLeastHit(c, rules);
  }
}

module ExpTrust {
  import opened Sequences
  import opened TrustLevels
  import opened Signatures

  /** Row `s` has a cell for every originator level up to `s`. */
  ghost predicate Triangle(cm: seq<seq<nat>>, n: nat) {
    |cm| == n && forall s :: 0 <= s < n ==> |cm[s]| == s + 1
  }

  ghost predicate Holds(cm: seq<seq<nat>>, m: multiset<Sig>, n: nat) {
    Triangle(cm, n) && forall l, s :: 0 <= l <= s < n ==> cm[s][l] == m[Sig(l, s)]
  }

  /** What an update does to the signatures. An originator whose own level changes is not moved as
      long as the capped level stays the same. */
  ghost function Updated(m: multiset<Sig>, n: nat, oldTrust: nat, oldSig: nat, newTrust: nat, newSig: nat)
    : multiset<Sig>
  {
    if Capped(oldTrust, oldSig) == Capped(newTrust, newSig) then m
    else m - Counted(n, oldTrust, oldSig) + Counted(n, newTrust, newSig)
  }

  /** The inner loop: the signatures at capped level `s` are added to the counters of their
      originator levels, whose running total is compared with each threshold. */
  method RowPass(count: seq<nat>, nbtrust: seq<nat>, rules: Rules, s: nat, ghost c: Cells)
    returns (found: bool, nb: seq<nat>)
    requires s < |rules| == |nbtrust| && |count| == s + 1
    requires forall l :: 0 <= l <= s ==> count[l] == c(l, s)
    requires forall l :: 0 <= l < |rules| ==> nbtrust[l] == RowSum(c, l, s)
    ensures found <==> HitAt(c, rules, s)
    ensures |nb| == |rules| && forall l :: 0 <= l < |rules| ==> nb[l] == RowSum(c, l, s + 1)
  {
    nb, found := nbtrust, false;
    var cum := 0;
    for l := 0 to |count|
      invariant |nb| == |rules| && cum == ByRows(c, l, s + 1)
      invariant forall k :: 0 <= k < l ==> nb[k] == RowSum(c, k, s + 1)
      invariant forall k :: l <= k < |rules| ==> nb[k] == RowSum(c, k, s)
      invariant found <==> exists k: nat :: k < l && Hit(c, rules, k, s)
    {
      nb := nb[l := nb[l] + count[l]];
      cum := cum + nb[l];
      assert Hit(c, rules, l, s) <==> cum >= rules[l];
      if !(cum < rules[l]) {
        found := true;
      }
    }
  }

  /** One row of the table with the two changes of the update. */
  method ChangeRow(row: seq<nat>, s: nat, oldTrust: nat, capOld: nat, newTrust: nat, capNew: nat,
                   ghost m: multiset<Sig>, ghost n: nat)
    returns (count: seq<nat>, changed: bool)
    requires oldTrust <= capOld && newTrust <= capNew && capOld != capNew && s < n
    requires |row| == s + 1 && forall l :: 0 <= l <= s ==> row[l] == m[Sig(l, s)]
    ensures |count| == s + 1
    ensures forall l :: 0 <= l <= s ==>
              count[l] == (m - Counted(n, oldTrust, capOld) + Counted(n, newTrust, capNew))[Sig(l, s)]
    ensures changed <==> count != row
  {
    count, changed := row, false;
    if s == capOld {
      if count[oldTrust] > 0 {
        count := count[oldTrust := count[oldTrust] - 1];
        assert count[oldTrust] != row[oldTrust];
        changed := true;
      }
    }
    if s == capNew {
      count := count[newTrust := count[newTrust] + 1];
      assert count[newTrust] != row[newTrust];
      changed := true;
    }
  }

  /** The outer loop: each row is changed, then counted until a level is found. */
  method Sweep(calcmap: seq<seq<nat>>, rules: Rules, oldTrust: nat, capOld: nat, newTrust: nat, capNew: nat,
               ghost m: multiset<Sig>, ghost m': multiset<Sig>)
    returns (cm: seq<seq<nat>>, level: nat, changed: bool)
    requires |rules| <= UNKNOWN && Holds(calcmap, m, |rules|)
    requires oldTrust <= capOld && newTrust <= capNew && capOld != capNew
    requires m' == m - Counted(|rules|, oldTrust, capOld) + Counted(|rules|, newTrust, capNew)
    ensures Holds(cm, m', |rules|) && level == TrustLevels.ExpTrust(CellsOf(m'), rules)
    ensures changed <==> cm != calcmap
  {
    ghost var c := CellsOf(m');
    cm, level, changed := calcmap, UNKNOWN, false;
    var nbtrust := seq(|rules|, _ => 0);
    for s := 0 to |calcmap|
      invariant Triangle(cm, |rules|) && |nbtrust| == |rules|
      invariant forall a, b :: 0 <= a <= b < s ==> cm[b][a] == m'[Sig(a, b)]
      invariant forall b :: s <= b < |rules| ==> cm[b] == calcmap[b]
      invariant changed <==> cm != calcmap
      invariant level == UNKNOWN ==> ExpLevel(c, rules) == ExpFrom(c, rules, s)
      invariant level == UNKNOWN ==> forall l :: 0 <= l < |rules| ==> nbtrust[l] == RowSum(c, l, s)
      invariant level != UNKNOWN ==> ExpLevel(c, rules) == Some(level)
    {
      var count, differs := ChangeRow(calcmap[s], s, oldTrust, capOld, newTrust, capNew, m, |rules|);
      ghost var prev := cm;
      cm := cm[s := count];
      changed := changed || differs;
      assert changed <==> cm != calcmap by {
        assert forall b :: 0 <= b < |rules| && b != s ==> cm[b] == prev[b];
        assert prev[s] == calcmap[s] && cm[s] == count;
      }
      if level == UNKNOWN {
        var found;
        found, nbtrust := RowPass(count, nbtrust, rules, s, c);
        if found {
          level := s;
        }
      }
    }
  }

  class ExpWotTrust {
    var trust: nat
    var calcmap: seq<seq<nat>>
    ghost var sigs: multiset<Sig>

    ghost predicate Valid(rules: Rules)
      reads this
    {
      |rules| <= UNKNOWN && Holds(calcmap, sigs, |rules|)
    }

    /** The trust is the level of `sigs`, or the worst one. */
    ghost predicate Settled(rules: Rules)
      reads this
    {
      trust == TrustLevels.ExpTrust(CellsOf(sigs), rules)
    }

    constructor (rules: Rules)
      requires |rules| <= UNKNOWN
      ensures Valid(rules) && sigs == multiset{} && trust == UNKNOWN
    {
      trust := UNKNOWN;
      calcmap := seq(|rules|, ix requires 0 <= ix < |rules| => seq(ix + 1, _ => 0));
      sigs := multiset{};
    }

    method Update(fromOldTrust: U8, fromOldSig: U8, fromNewTrust: U8, fromNewSig: U8, rules: Rules)
      returns (changedCache: bool, changedTrust: bool)
      requires Valid(rules)
      modifies this
      ensures Valid(rules)
      ensures sigs == Updated(old(sigs), |rules|, fromOldTrust, fromOldSig, fromNewTrust, fromNewSig)
      ensures Capped(fromOldTrust, fromOldSig) != Capped(fromNewTrust, fromNewSig) || old(Settled(rules)) ==>
                Settled(rules)
      ensures Capped(fromOldTrust, fromOldSig) == Capped(fromNewTrust, fromNewSig) ==>
                !changedCache && trust == old(trust)
      ensures changedTrust <==> trust != old(trust)
      ensures changedCache <==> calcmap != old(calcmap)
    {
      var capOld := Capped(fromOldTrust, fromOldSig);
      var capNew := Capped(fromNewTrust, fromNewSig);
      if capOld == capNew {
        return false, false;
      }
      ghost var m := sigs;
      sigs := m - Counted(|rules|, fromOldTrust, capOld) + Counted(|rules|, fromNewTrust, capNew);
      var newTrust;
      calcmap, newTrust, changedCache := Sweep(calcmap, rules, fromOldTrust, capOld, fromNewTrust, capNew, m, sigs);
      changedTrust := newTrust != trust;
      trust := newTrust;
    }
  }
}
