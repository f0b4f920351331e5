/** The declarative meaning of the two web-of-trust calculators.

    A signature has the level of its originator and a signed level, which is capped to the
    originator's level. `Q(c, l, s)` counts the signatures of originators at level `l` or better
    whose capped level is `s` or better; `(l, s)` is a hit when that count reaches `rules[l]`. */
module TrustLevels {
  import opened Sequences

  /** How many signatures have a given originator level and capped level. */
  type Cells = (nat, nat) -> nat

  type Rules = seq<nat>

  /** The worst level, given to peers that nobody signed. */
  const UNKNOWN: nat := 255

  // ----- Counting, by rows and by columns -----

  /** Originator level `l`, capped levels below `n`. */
  ghost function RowSum(c: Cells, l: nat, n: nat): nat {
    if n <= l then 0 else RowSum(c, l, n - 1) + c(l, n - 1)
  }

  ghost function ByRows(c: Cells, m: nat, n: nat): nat {
    if m == 0 then 0 else ByRows(c, m - 1, n) + RowSum(c, m - 1, n)
  }

  /** Capped level `s`, originator levels below `m`. */
  ghost function ColSum(c: Cells, m: nat, s: nat): nat {
    if m == 0 then 0 else ColSum(c, m - 1, s) + if m - 1 <= s then c(m - 1, s) else 0
  }

  ghost function ByCols(c: Cells, m: nat, n: nat): nat {
    if n == 0 then 0 else ByCols(c, m, n - 1) + ColSum(c, m, n - 1)
  }

  /** The two orders of summation agree. */
  lemma {:induction false} RowsAreCols(c: Cells, m: nat, n: nat)
    ensures ByRows(c, m, n) == ByCols(c, m, n)
  {
    if n == 0 {
      NoColumns(c, m);
    } else {
      RowsAreCols(c, m, n - 1);
      LastColumn(c, m, n);
    }
  }

  lemma {:induction false} NoColumns(c: Cells, m: nat)
    ensures ByRows(c, m, 0) == 0
  {
    if m > 0 {
      NoColumns(c, m - 1);
    }
  }

  lemma {:induction false} LastColumn(c: Cells, m: nat, n: nat)
    requires n > 0
    ensures ByRows(c, m, n) == ByRows(c, m, n - 1) + ColSum(c, m, n - 1)
  {
    if m > 0 {
      LastColumn(c, m - 1, n);
    }
  }

  ghost function Q(c: Cells, l: nat, s: nat): nat {
    ByRows(c, l + 1, s + 1)
  }

  ghost predicate Hit(c: Cells, rules: Rules, l: nat, s: nat) {
    l <= s < |rules| && Q(c, l, s) >= rules[l]
  }

  ghost predicate NoHit(c: Cells, rules: Rules) {
    forall l: nat, s: nat :: !Hit(c, rules, l, s)
  }

  // ----- The two closed forms -----

  /** The first hit of row `l` from column `s` on. */
  ghost function FirstInRow(c: Cells, rules: Rules, l: nat, s: nat): Option<nat>
    decreases |rules| - s
  {
    if s >= |rules| then None else if Hit(c, rules, l, s) then Some(s) else FirstInRow(c, rules, l, s + 1)
  }

  ghost function ClassicFrom(c: Cells, rules: Rules, l: nat): Option<nat>
    decreases |rules| - l
  {
    if l >= |rules| then None
    else if FirstInRow(c, rules, l, l).Some? then FirstInRow(c, rules, l, l)
    else ClassicFrom(c, rules, l + 1)
  }

  /** Classic: originators come first. */
  ghost function ClassicLevel(c: Cells, rules: Rules): Option<nat> {
    ClassicFrom(c, rules, 0)
  }

  ghost predicate HitAt(c: Cells, rules: Rules, s: nat) {
    exists l: nat :: Hit(c, rules, l, s)
  }

  ghost function ExpFrom(c: Cells, rules: Rules, s: nat): Option<nat>
    decreases |rules| - s
  {
    if s >= |rules| then None else if HitAt(c, rules, s) then Some(s) else ExpFrom(c, rules, s + 1)
  }

  /** Exp: levels come first. */
  ghost function ExpLevel(c: Cells, rules: Rules): Option<nat> {
    ExpFrom(c, rules, 0)
  }

  lemma {:induction false} FirstInRowMeaning(c: Cells, rules: Rules, l: nat, s: nat)
    ensures match FirstInRow(c, rules, l, s)
            case Some(x) => s <= x && Hit(c, rules, l, x) && forall y: nat :: s <= y < x ==> !Hit(c, rules, l, y)
            case None => forall y: nat :: s <= y ==> !Hit(c, rules, l, y)
    decreases |rules| - s
  {
    if s < |rules| && !Hit(c, rules, l, s) {
      FirstInRowMeaning(c, rules, l, s + 1);
    }
  }

  /** `(l, s)` is the hit that comes first when rows are searched one after the other. */
  ghost predicate FirstHit(c: Cells, rules: Rules, l: nat, s: nat) {
    Hit(c, rules, l, s) && forall l': nat, s': nat :: Hit(c, rules, l', s') ==> l < l' || (l == l' && s <= s')
  }

  lemma {:induction false} ClassicFromMeaning(c: Cells, rules: Rules, l: nat)
    requires forall l': nat, s: nat :: l' < l ==> !Hit(c, rules, l', s)
    ensures match ClassicFrom(c, rules, l)
            case Some(x) => exists l': nat :: FirstHit(c, rules, l', x)
            case None => NoHit(c, rules)
    decreases |rules| - l
  {
    if l < |rules| {
      FirstInRowMeaning(c, rules, l, l);
      var first := FirstInRow(c, rules, l, l);
      if first.Some? {
        assert ClassicFrom(c, rules, l) == first;
        assert FirstHit(c, rules, l, first.value);
      } else {
        assert forall s: nat :: !Hit(c, rules, l, s);
        ClassicFromMeaning(c, rules, l + 1);
        assert ClassicFrom(c, rules, l) == ClassicFrom(c, rules, l + 1);
      }
    }
  }

  /** The Classic level is the level of the lexicographically first hit, if there is any hit. */
  lemma ClassicIsFirstHit(c: Cells, rules: Rules)
    ensures ClassicLevel(c, rules) == None <==> NoHit(c, rules)
    ensures forall s: nat :: ClassicLevel(c, rules) == Some(s) <==> exists l: nat :: FirstHit(c, rules, l, s)
  {
    ClassicFromMeaning(c, rules, 0);
  }

  lemma {:induction false} ExpFromMeaning(c: Cells, rules: Rules, s: nat)
    ensures match ExpFrom(c, rules, s)
            case Some(x) => s <= x && HitAt(c, rules, x) && forall y: nat :: s <= y < x ==> !HitAt(c, rules, y)
            case None => forall y: nat :: s <= y ==> !HitAt(c, rules, y)
    decreases |rules| - s
  {
    if s < |rules| && !HitAt(c, rules, s) {
      ExpFromMeaning(c, rules, s + 1);
    }
  }

  /** The Exp level is the smallest level of any hit, if there is any hit. */
  lemma ExpIsLeastHit(c: Cells, rules: Rules)
    ensures ExpLevel(c, rules) == None <==> NoHit(c, rules)
    ensures forall s: nat :: ExpLevel(c, rules) == Some(s) <==>
              HitAt(c, rules, s) && forall l': nat, s': nat :: Hit(c, rules, l', s') ==> s <= s'
  {
    ExpFromMeaning(c, rules, 0);
    forall l: nat, s: nat | Hit(c, rules, l, s) ensures HitAt(c, rules, s) {
    }
  }

  // ----- Comparisons -----

  /** On the same signatures the two calculators have a level together, and the level of Exp is
      never numerically worse. */
  lemma ExpNeverWorse(c: Cells, rules: Rules)
    ensures ExpLevel(c, rules).Some? <==> ClassicLevel(c, rules).Some?
    ensures ExpLevel(c, rules).Some? ==> ExpLevel(c, rules).value <= ClassicLevel(c, rules).value
  {
    ClassicIsFirstHit(c, rules);
    ExpIsLeastHit(c, rules);
    if ClassicLevel(c, rules).Some? {
      var l: nat :| FirstHit(c, rules, l, ClassicLevel(c, rules).value);
    }
  }

  ghost predicate CellsBelow(c: Cells, c': Cells) {
    forall l: nat, s: nat :: c(l, s) <= c'(l, s)
  }

  lemma {:induction false} RowMonotone(c: Cells, c': Cells, l: nat, n: nat)
    requires CellsBelow(c, c')
    ensures RowSum(c, l, n) <= RowSum(c', l, n)
    decreases n
  {
    if n > l {
      RowMonotone(c, c', l, n - 1);
    }
  }

  lemma {:induction false} CountMonotone(c: Cells, c': Cells, m: nat, n: nat)
    requires CellsBelow(c, c')
    ensures ByRows(c, m, n) <= ByRows(c', m, n)
  {
    if m > 0 {
      CountMonotone(c, c', m - 1, n);
      RowMonotone(c, c', m - 1, n);
    }
  }

  /** The level of Exp, or the worst one. */
  ghost function ExpTrust(c: Cells, rules: Rules): nat {
    match ExpLevel(c, rules)
    case Some(s) => s
    case None => UNKNOWN
  }

  /** More signatures never give a numerically worse Exp trust. */
  lemma ExpMonotone(c: Cells, c': Cells, rules: Rules)
    requires CellsBelow(c, c') && |rules| <= UNKNOWN
    ensures ExpTrust(c', rules) <= ExpTrust(c, rules)
  {
    ExpIsLeastHit(c, rules);
    ExpIsLeastHit(c', rules);
    forall l: nat, s: nat | Hit(c, rules, l, s) ensures Hit(c', rules, l, s) {
      CountMonotone(c, c', l + 1, s + 1);
    }
    if ExpLevel(c, rules).Some? {
      var l: nat :| Hit(c, rules, l, ExpLevel(c, rules).value);
      assert Hit(c', rules, l, ExpLevel(c, rules).value);
    } else if ExpLevel(c', rules).Some? {
      assert HitAt(c', rules, ExpLevel(c', rules).value);
    }
  }

  /** Classic is not monotone: originators at a better level take over. A signature (1, 1) alone
      gives level 1; one more signature, by an originator at level 0 who only signs for level 2,
      makes it level 2. */
  lemma ClassicNotMonotone()
    ensures exists c: Cells, c': Cells ::
              CellsBelow(c, c') && ClassicLevel(c, [1, 1, 1]) == Some(1) && ClassicLevel(c', [1, 1, 1]) == Some(2)
  {
    var c: Cells := (l, s) => if l == 1 && s == 1 then 1 else 0;
    var c': Cells := (l, s) => if (l == 1 && s == 1) || (l == 0 && s == 2) then 1 else 0;
    var rules: Rules := [1, 1, 1];
    assert RowSum(c, 0, 1) == 0 && RowSum(c, 0, 2) == 0 && RowSum(c, 0, 3) == 0;
    assert RowSum(c, 1, 1) == 0 && RowSum(c, 1, 2) == 1;
    assert Q(c, 0, 0) == 0 && Q(c, 0, 1) == 0 && Q(c, 0, 2) == 0 && Q(c, 1, 1) == 1;
    assert FirstInRow(c, rules, 0, 3) == None && FirstInRow(c, rules, 0, 2) == None;
    assert FirstInRow(c, rules, 0, 1) == None;
    assert FirstInRow(c, rules, 0, 0) == None && FirstInRow(c, rules, 1, 1) == Some(1);
    assert ClassicFrom(c, rules, 1) == Some(1);
    assert RowSum(c', 0, 1) == 0 && RowSum(c', 0, 2) == 0 && RowSum(c', 0, 3) == 1;
    assert Q(c', 0, 0) == 0 && Q(c', 0, 1) == 0 && Q(c', 0, 2) == 1;
    assert FirstInRow(c', rules, 0, 2) == Some(2) && FirstInRow(c', rules, 0, 1) == Some(2);
    assert FirstInRow(c', rules, 0, 0) == Some(2);
    assert CellsBelow(c, c');
  }

  lemma {:induction false} RowGrows(c: Cells, l: nat, n: nat, n': nat)
    requires n <= n'
    ensures RowSum(c, l, n) <= RowSum(c, l, n')
    decreases n'
  {
    if n < n' {
      RowGrows(c, l, n, n' - 1);
    }
  }

  lemma {:induction false} CountGrows(c: Cells, m: nat, n: nat, n': nat)
    requires n <= n'
    ensures ByRows(c, m, n) <= ByRows(c, m, n')
  {
    if m > 0 {
      CountGrows(c, m - 1, n, n');
      RowGrows(c, m - 1, n, n');
    }
  }

  /** A row that hits at a level hits at every worse level. */
  lemma HitsSpread(c: Cells, rules: Rules, l: nat, s: nat, s': nat)
    requires Hit(c, rules, l, s) && s <= s' < |rules|
    ensures Hit(c, rules, l, s')
  {
    CountGrows(c, l + 1, s + 1, s' + 1);
  }

  lemma MoreSignaturesKeepHits(c: Cells, c': Cells, rules: Rules, l: nat, s: nat)
    requires CellsBelow(c, c') && Hit(c, rules, l, s)
    ensures Hit(c', rules, l, s)
  {
    CountMonotone(c, c', l + 1, s + 1);
  }

  /** Row `k` hits at the worst level. */
  ghost predicate RowHits(c: Cells, rules: Rules, k: nat) {
    |rules| > 0 && Hit(c, rules, k, |rules| - 1)
  }

  /** Which is to say, at any level at all. */
  lemma RowHitsIff(c: Cells, rules: Rules, k: nat)
    ensures RowHits(c, rules, k) <==> exists s: nat :: Hit(c, rules, k, s)
  {
    if s: nat :| Hit(c, rules, k, s) {
      HitsSpread(c, rules, k, s, |rules| - 1);
    }
  }

  /** Row `k` is the first one that hits at all, and it hits at level `s`. */
  ghost predicate Decides(c: Cells, rules: Rules, k: nat, s: nat) {
    Hit(c, rules, k, s) && forall k': nat :: k' < k ==> !RowHits(c, rules, k')
  }

  /** The Classic level is `s` or better exactly when the first row that hits at all hits at `s`. */
  lemma ClassicAtMostIff(c: Cells, rules: Rules, s: nat)
    requires ClassicLevel(c, rules).Some?
    ensures ClassicLevel(c, rules).value <= s < |rules| <==> exists k: nat :: Decides(c, rules, k, s)
  {
    ClassicIsFirstHit(c, rules);
    var v := ClassicLevel(c, rules).value;
    var l: nat :| FirstHit(c, rules, l, v);
    if v <= s < |rules| {
      HitsSpread(c, rules, l, v, s);
      assert Decides(c, rules, l, s);
    }
    forall k: nat | Decides(c, rules, k, s) ensures v <= s {
      HitsSpread(c, rules, l, v, |rules| - 1);
      assert RowHits(c, rules, l);
    }
  }

  /** With more signatures there is still a Classic level, and it is no worse exactly when the first
      row that now hits at all hits at the old level. */
  lemma ClassicMonotoneIff(c: Cells, c': Cells, rules: Rules, l: nat, s: nat)
    requires CellsBelow(c, c') && FirstHit(c, rules, l, s)
    ensures ClassicLevel(c, rules) == Some(s) && ClassicLevel(c', rules).Some?
    ensures ClassicLevel(c', rules).value <= s <==> exists k: nat :: Decides(c', rules, k, s)
  {
    ClassicIsFirstHit(c, rules);
    ClassicIsFirstHit(c', rules);
    MoreSignaturesKeepHits(c, c', rules, l, s);
    ClassicAtMostIff(c', rules, s);
  }

  /** No row better than `l` has more signatures in `c'`. */
  ghost predicate SameAbove(c: Cells, c': Cells, l: nat) {
    forall k: nat, s: nat :: k < l ==> c'(k, s) <= c(k, s)
  }

  lemma {:induction false} CountAbove(c: Cells, c': Cells, l: nat, m: nat, n: nat)
    requires SameAbove(c, c', l) && m <= l
    ensures ByRows(c', m, n) <= ByRows(c, m, n)
  {
    if m > 0 {
      CountAbove(c, c', l, m - 1, n);
      RowAbove(c, c', l, m - 1, n);
    }
  }

  lemma {:induction false} RowAbove(c: Cells, c': Cells, l: nat, k: nat, n: nat)
    requires SameAbove(c, c', l) && k < l
    ensures RowSum(c', k, n) <= RowSum(c, k, n)
    decreases n
  {
    if n > k {
      RowAbove(c, c', l, k, n - 1);
    }
  }

  /** As long as only originators at level `l` or worse sign more, where `l` is the level of those
      who decided, the Classic level does not get worse. */
  lemma ClassicMonotoneBelow(c: Cells, c': Cells, rules: Rules, l: nat, s: nat)
    requires CellsBelow(c, c') && FirstHit(c, rules, l, s) && SameAbove(c, c', l)
    ensures ClassicLevel(c', rules).Some? && ClassicLevel(c', rules).value <= s
  {
    ClassicMonotoneIff(c, c', rules, l, s);
    MoreSignaturesKeepHits(c, c', rules, l, s);
    forall k: nat | k < l ensures !RowHits(c', rules, k) {
      CountAbove(c, c', l, k + 1, |rules|);
      assert !RowHits(c, rules, k);
    }
    assert Decides(c', rules, l, s);
  }

  // ----- A barrier: nobody below level k can be reached by originators from level k on -----

  ghost predicate EmptyBelow(c: Cells, k: nat) {
    forall l: nat, s: nat :: l < k ==> c(l, s) == 0
  }

  lemma {:induction false} RowEmpty(c: Cells, k: nat, l: nat, n: nat)
    requires EmptyBelow(c, k) && l < k
    ensures RowSum(c, l, n) == 0
    decreases n
  {
    if n > l {
      RowEmpty(c, k, l, n - 1);
    }
  }

  lemma {:induction false} CountEmpty(c: Cells, k: nat, m: nat, n: nat)
    requires EmptyBelow(c, k) && m <= k
    ensures ByRows(c, m, n) == 0
  {
    if m > 0 {
      CountEmpty(c, k, m - 1, n);
      RowEmpty(c, k, m - 1, n);
    }
  }

  ghost predicate PositiveRules(rules: Rules) {
    forall i :: 0 <= i < |rules| ==> rules[i] >= 1
  }

  lemma HitsAboveBarrier(c: Cells, rules: Rules, k: nat)
    requires EmptyBelow(c, k) && PositiveRules(rules)
    ensures ClassicLevel(c, rules).Some? ==> ClassicLevel(c, rules).value >= k
    ensures ExpLevel(c, rules).Some? ==> ExpLevel(c, rules).value >= k
  {
    forall l: nat, s: nat | Hit(c, rules, l, s) ensures k <= l {
      if l < k {
        CountEmpty(c, k, l + 1, s + 1);
      }
    }
    ClassicIsFirstHit(c, rules);
    ExpIsLeastHit(c, rules);
    if ClassicLevel(c, rules).Some? {
      var l: nat :| FirstHit(c, rules, l, ClassicLevel(c, rules).value);
    }
    if ExpLevel(c, rules).Some? {
      var l: nat :| Hit(c, rules, l, ExpLevel(c, rules).value);
    }
  }

  // ----- Only the cells of the triangle matter -----

  ghost predicate SameCells(c: Cells, c': Cells, n: nat) {
    forall l: nat, s: nat :: l <= s < n ==> c(l, s) == c'(l, s)
  }

  lemma {:induction false} RowSame(c: Cells, c': Cells, n: nat, l: nat, s: nat)
    requires SameCells(c, c', n) && s <= n
    ensures RowSum(c, l, s) == RowSum(c', l, s)
    decreases s
  {
    if s > l {
      RowSame(c, c', n, l, s - 1);
    }
  }

  lemma {:induction false} CountSame(c: Cells, c': Cells, n: nat, m: nat, s: nat)
    requires SameCells(c, c', n) && s <= n
    ensures ByRows(c, m, s) == ByRows(c', m, s)
  {
    if m > 0 {
      CountSame(c, c', n, m - 1, s);
      RowSame(c, c', n, m - 1, s);
    }
  }

  lemma LevelsSame(c: Cells, c': Cells, rules: Rules)
    requires SameCells(c, c', |rules|)
    ensures ClassicLevel(c, rules) == ClassicLevel(c', rules)
    ensures ExpLevel(c, rules) == ExpLevel(c', rules)
  {
    forall l: nat, s: nat ensures Hit(c, rules, l, s) <==> Hit(c', rules, l, s) {
      if l <= s < |rules| {
        CountSame(c, c', |rules|, l + 1, s + 1);
      }
    }
    forall l: nat, s: nat ensures FirstHit(c, rules, l, s) <==> FirstHit(c', rules, l, s) {
    }
    ClassicIsFirstHit(c, rules);
    ClassicIsFirstHit(c', rules);
    ExpIsLeastHit(c, rules);
    ExpIsLeastHit(c', rules);
    forall s: nat ensures HitAt(c, rules, s) <==> HitAt(c', rules, s) {
    }
  }
}
