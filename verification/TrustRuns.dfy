/** Whole runs of the two trust calculators: signers come, change and go, and each change is
    reported with the signer's previous signature. */
module TrustRuns {
  import opened Sequences
  import opened TrustLevels
  import opened Signatures
  import Classic = ClassicTrust
  import Exp = ExpTrust

  /** The level of a signer and the level it gives, as reported. */
  datatype Raw = Raw(trust: U8, sig: U8)

  /** Signer number `signer` now has the signature `now`; its previous one is reported as `was`. */
  datatype Event = Event(signer: nat, was: Raw, now: Raw)

  const NOBODY := Raw(255, 255)

  /** The signature is in range for `n` levels. */
  predicate InRange(n: nat, x: Raw) {
    x.trust < n && x.sig < n
  }

  /** What is reported is the signature that the signer has, or out of range like that one. */
  predicate Reports(n: nat, current: Raw, was: Raw) {
    was == current || (!InRange(n, current) && !InRange(n, was))
  }

  /** Every event reports a signature that is held at that moment, or one that is out of range. */
  ghost predicate Honest(nb: nat, events: seq<Event>, n: nat) {
    forall i :: 0 <= i < |events| ==>
      events[i].signer < nb && Reports(n, SignersAfter(nb, events[..i])[events[i].signer], events[i].was)
  }

  lemma HonestPrefix(nb: nat, events: seq<Event>, n: nat, k: nat)
    requires Honest(nb, events, n) && k <= |events|
    ensures Honest(nb, events[..k], n)
  {
    forall i | 0 <= i < k ensures events[..k][i] == events[i] && events[..k][..i] == events[..i] {
    }
  }

  /** The current signature of every signer. */
  function SignersAfter(nb: nat, events: seq<Event>): (r: seq<Raw>)
    ensures |r| == nb
  {
    if events == [] then seq(nb, _ => NOBODY)
    else
      var last := events[|events| - 1];
      var before := SignersAfter(nb, events[..|events| - 1]);
      if last.signer < nb then before[last.signer := last.now] else before
  }

  /** The signatures that count for `n` levels. */
  ghost function Histogram(signers: seq<Raw>, n: nat): multiset<Sig> {
    if signers == [] then multiset{}
    else Histogram(signers[..|signers| - 1], n) + Counted(n, signers[|signers| - 1].trust, signers[|signers| - 1].sig)
  }

  lemma {:induction false} HistogramHas(signers: seq<Raw>, n: nat, i: nat)
    requires i < |signers|
    ensures Counted(n, signers[i].trust, signers[i].sig) <= Histogram(signers, n)
  {
    if i < |signers| - 1 {
      HistogramHas(signers[..|signers| - 1], n, i);
    }
  }

  lemma {:induction false} HistogramUpdate(signers: seq<Raw>, n: nat, i: nat, now: Raw)
    requires i < |signers|
    ensures Histogram(signers[i := now], n) ==
            Histogram(signers, n) - Counted(n, signers[i].trust, signers[i].sig) + Counted(n, now.trust, now.sig)
  {
    var k := |signers| - 1;
    var init := Histogram(signers[..k], n);
    var was, instead := Counted(n, signers[i].trust, signers[i].sig), Counted(n, now.trust, now.sig);
    if i == k {
      assert signers[i := now][..k] == signers[..k];
      assert init + was - was == init;
    } else {
      assert signers[i := now][..k] == signers[..k][i := now];
      HistogramUpdate(signers[..k], n, i, now);
      HistogramHas(signers[..k], n, i);
      Exchange(init, was, instead, Counted(n, signers[k].trust, signers[k].sig));
    }
  }

  lemma Exchange(all: multiset<Sig>, was: multiset<Sig>, instead: multiset<Sig>, more: multiset<Sig>)
    requires was <= all
    ensures all - was + instead + more == all + more - was + instead
  {
  }

  lemma {:induction false} HistogramOfNobody(nb: nat, n: nat)
    requires n <= UNKNOWN
    ensures Histogram(seq(nb, _ => NOBODY), n) == multiset{}
  {
    if nb > 0 {
      assert seq(nb, _ => NOBODY)[..nb - 1] == seq(nb - 1, _ => NOBODY);
      HistogramOfNobody(nb - 1, n);
    }
  }

  // ----- Q counts signers -----

  /** How many signers are at level `l` or better and give level `s` or better. */
  function CountWithin(signers: seq<Raw>, l: nat, s: nat): nat {
    if signers == [] then 0
    else
      var x := signers[|signers| - 1];
      CountWithin(signers[..|signers| - 1], l, s) + if x.trust <= l && x.trust <= s && x.sig <= s then 1 else 0
  }

  lemma {:induction false} RowPlusOne(m: multiset<Sig>, x: Sig, l: nat, n: nat)
    requires x.orig <= x.cap
    ensures RowSum(CellsOf(m + multiset{x}), l, n) ==
            RowSum(CellsOf(m), l, n) + if x.orig == l && x.cap < n then 1 else 0
    decreases n
  {
    if n > l {
      RowPlusOne(m, x, l, n - 1);
    }
  }

  lemma {:induction false} CountPlusOne(m: multiset<Sig>, x: Sig, k: nat, n: nat)
    requires x.orig <= x.cap
    ensures ByRows(CellsOf(m + multiset{x}), k, n) ==
            ByRows(CellsOf(m), k, n) + if x.orig < k && x.cap < n then 1 else 0
  {
    if k > 0 {
      CountPlusOne(m, x, k - 1, n);
      RowPlusOne(m, x, k - 1, n);
    }
  }

  lemma {:induction false} NothingToCount(k: nat, n: nat)
    ensures ByRows(CellsOf(multiset{}), k, n) == 0
  {
    CountEmpty(CellsOf(multiset{}), k, k, n);
  }

  /** The sums over cells that decide about levels count signers. */
  lemma {:induction false} QCountsSigners(signers: seq<Raw>, n: nat, l: nat, s: nat)
    requires s < n
    ensures Q(CellsOf(Histogram(signers, n)), l, s) == CountWithin(signers, l, s)
  {
    if signers == [] {
      NothingToCount(l + 1, s + 1);
    } else {
      var k := |signers| - 1;
      QCountsSigners(signers[..k], n, l, s);
      var x := signers[k];
      var m := Histogram(signers[..k], n);
      CappedAtMost(x.trust, x.sig, s);
      if Capped(x.trust, x.sig) < n {
        CountPlusOne(m, Sig(x.trust, Capped(x.trust, x.sig)), l + 1, s + 1);
      } else {
        assert m + multiset{} == m;
      }
    }
  }

  /** At least `rules[l]` signers are at level `l` or better and give level `s` or better. */
  ghost predicate Enough(signers: seq<Raw>, rules: Rules, l: nat, s: nat) {
    l <= s < |rules| && CountWithin(signers, l, s) >= rules[l]
  }

  /** What the two levels mean for the signers: Classic is the level of the first pair with enough signers,
      better originators first; Exp is the best level of any such pair. */
  lemma LevelsBySigners(signers: seq<Raw>, rules: Rules)
    ensures var c := CellsOf(Histogram(signers, |rules|));
            && (forall s: nat :: ClassicLevel(c, rules) == Some(s) <==>
                  exists l: nat :: Enough(signers, rules, l, s) && forall l': nat, s': nat ::
                    Enough(signers, rules, l', s') ==> l < l' || (l == l' && s <= s'))
            && (forall s: nat :: ExpLevel(c, rules) == Some(s) <==>
                  (exists l: nat :: Enough(signers, rules, l, s)) && forall l': nat, s': nat ::
                    Enough(signers, rules, l', s') ==> s <= s')
            && (ClassicLevel(c, rules) == None <==> forall l: nat, s: nat :: !Enough(signers, rules, l, s))
  {
    var c := CellsOf(Histogram(signers, |rules|));
    hide Histogram, Q, CountWithin, ClassicLevel, ExpLevel;
    forall l: nat, s: nat ensures Hit(c, rules, l, s) <==> Enough(signers, rules, l, s) {
      if l <= s < |rules| {
        QCountsSigners(signers, |rules|, l, s);
      }
    }
    ClassicIsFirstHit(c, rules);
    ExpIsLeastHit(c, rules);
    hide Hit, Enough;
    forall l: nat, s: nat ensures FirstHit(c, rules, l, s) <==>
        Enough(signers, rules, l, s) && forall l': nat, s': nat ::
          Enough(signers, rules, l', s') ==> l < l' || (l == l' && s <= s')
    {
    }
  }

  // ----- Classic -----

  ghost function SigsAfter(nb: nat, events: seq<Event>, n: nat): multiset<Sig> {
    Histogram(SignersAfter(nb, events), n)
  }

  /** The level of the signatures now, or else the last one they ever gave, or else the worst one. */
  ghost function ClassicTrustAfter(nb: nat, events: seq<Event>, rules: Rules): nat {
    if events == [] then UNKNOWN
    else Classic.NextTrust(SigsAfter(nb, events, |rules|), rules,
                           ClassicTrustAfter(nb, events[..|events| - 1], rules))
  }

  /** After the first `j` events the level was `t`, and since then the signatures gave none. */
  ghost predicate LastLevelAt(nb: nat, events: seq<Event>, rules: Rules, j: nat, t: nat) {
    && 0 < j <= |events| && LevelAt(nb, events, rules, j) == Some(t)
    && forall i :: j < i <= |events| ==> LevelAt(nb, events, rules, i) == None
  }

  ghost predicate NeverLevel(nb: nat, events: seq<Event>, rules: Rules) {
    forall j :: 0 < j <= |events| ==> LevelAt(nb, events, rules, j) == None
  }

  /** The same, without recursion: the trust is the level of the last prefix of the run that had
      one, and the worst one when no prefix ever had. */
  lemma {:induction false} ClassicTrustIsLastLevel(nb: nat, events: seq<Event>, rules: Rules)
    ensures if NeverLevel(nb, events, rules) then ClassicTrustAfter(nb, events, rules) == UNKNOWN
            else exists j :: LastLevelAt(nb, events, rules, j, ClassicTrustAfter(nb, events, rules))
  {
    hide LevelAt, ClassicTrustAfter;
    if events == [] {
      NoEvents(nb, rules);
      assert NeverLevel(nb, events, rules);
    } else {
      var n := |events|;
      var before, t := events[..n - 1], ClassicTrustAfter(nb, events, rules);
      ClassicTrustIsLastLevel(nb, before, rules);
      TrustFromLevel(nb, events, rules);
      forall j | 0 < j < n ensures LevelAt(nb, before, rules, j) == LevelAt(nb, events, rules, j) {
        LevelOfPrefix(nb, events, rules, j, n - 1);
      }
      if LevelAt(nb, events, rules, n).Some? {
        assert LastLevelAt(nb, events, rules, n, t);
      } else if !NeverLevel(nb, before, rules) {
        var j :| LastLevelAt(nb, before, rules, j, t);
        assert LastLevelAt(nb, events, rules, j, t);
      } else {
        assert NeverLevel(nb, events, rules);
      }
    }
  }

  lemma NoEvents(nb: nat, rules: Rules)
    ensures ClassicTrustAfter(nb, [], rules) == UNKNOWN
  {
  }

  lemma LevelOfPrefix(nb: nat, events: seq<Event>, rules: Rules, j: nat, k: nat)
    requires j <= k <= |events|
    ensures LevelAt(nb, events[..k], rules, j) == LevelAt(nb, events, rules, j)
  {
    assert events[..k][..j] == events[..j];
  }

  lemma TrustFromLevel(nb: nat, events: seq<Event>, rules: Rules)
    requires events != []
    ensures ClassicTrustAfter(nb, events, rules) ==
            match LevelAt(nb, events, rules, |events|)
            case Some(s) => s
            case None => ClassicTrustAfter(nb, events[..|events| - 1], rules)
  {
    assert events[..|events|] == events;
  }

  /** The level of the signatures after the first `j` events. */
  ghost function LevelAt(nb: nat, events: seq<Event>, rules: Rules, j: nat): Option<nat>
    requires j <= |events|
  {
    ClassicLevel(CellsOf(SigsAfter(nb, events[..j], |rules|)), rules)
  }

  lemma ClassicStep(nb: nat, events: seq<Event>, n: nat)
    requires events != [] && Honest(nb, events, n) && n <= UNKNOWN
    ensures var last := events[|events| - 1];
            var before := events[..|events| - 1];
            && last.signer < nb
            && SignersAfter(nb, events) == SignersAfter(nb, before)[last.signer := last.now]
            && SigsAfter(nb, events, n) ==
               Classic.Updated(SigsAfter(nb, before, n), n, last.was.trust, last.was.sig, last.now.trust, last.now.sig)
  {
    var last := events[|events| - 1];
    var signers := SignersAfter(nb, events[..|events| - 1]);
    assert Reports(n, signers[last.signer], last.was);
    ReportsCount(n, signers[last.signer], last.was);
    hide Histogram, Honest, Reports, Counted;
    HistogramUpdate(signers, n, last.signer, last.now);
    HistogramHas(signers, n, last.signer);
    PutBack(Histogram(signers, n), Counted(n, last.was.trust, last.was.sig));
    var was, now := last.was, last.now;
    if was.trust == now.trust && Capped(was.trust, was.sig) == Capped(now.trust, now.sig) {
      SameSignature(n, was, now);
    }
  }

  lemma ReportsCount(n: nat, current: Raw, was: Raw)
    requires Reports(n, current, was)
    ensures Counted(n, was.trust, was.sig) == Counted(n, current.trust, current.sig)
  {
  }

  lemma SameSignature(n: nat, was: Raw, now: Raw)
    requires was.trust == now.trust && Capped(was.trust, was.sig) == Capped(now.trust, now.sig)
    ensures Counted(n, was.trust, was.sig) == Counted(n, now.trust, now.sig)
  {
  }

  lemma PutBack(all: multiset<Sig>, x: multiset<Sig>)
    requires x <= all
    ensures all - x + x == all
  {
  }

  lemma RunStart(nb: nat, rules: Rules)
    requires |rules| <= UNKNOWN
    ensures SignersAfter(nb, []) == seq(nb, _ => NOBODY) && SigsAfter(nb, [], |rules|) == multiset{}
    ensures ClassicTrustAfter(nb, [], rules) == UNKNOWN
  {
    HistogramOfNobody(nb, |rules|);
  }

  /** Event `i` of a run. */
  lemma PrefixStep(nb: nat, events: seq<Event>, rules: Rules, i: nat)
    requires i < |events| && Honest(nb, events, |rules|) && |rules| <= UNKNOWN
    ensures var was, now := events[i].was, events[i].now;
            && SigsAfter(nb, events[..i + 1], |rules|) ==
               Classic.Updated(SigsAfter(nb, events[..i], |rules|), |rules|, was.trust, was.sig, now.trust, now.sig)
            && ClassicTrustAfter(nb, events[..i + 1], rules) ==
               Classic.NextTrust(SigsAfter(nb, events[..i + 1], |rules|), rules,
                                 ClassicTrustAfter(nb, events[..i], rules))
  {
    hide SigsAfter, SignersAfter;
    HonestPrefix(nb, events, |rules|, i + 1);
    assert events[..i + 1][..i] == events[..i];
    ClassicStep(nb, events[..i + 1], |rules|);
  }

  /** Over every run, the table of Classic is the histogram of the current signatures and its
      trust is their level, or the last level there was. */
  method RunClassic(rules: Rules, nb: nat, events: seq<Event>) returns (w: Classic.ClassicWotTrust)
    requires |rules| <= UNKNOWN && PositiveRules(rules) && Honest(nb, events, |rules|)
    ensures fresh(w) && w.Valid(rules) && w.sigs == SigsAfter(nb, events, |rules|)
    ensures w.trust == ClassicTrustAfter(nb, events, rules)
  {
    hide SigsAfter, SignersAfter, ClassicTrustAfter, Classic.NextTrust, Classic.Updated, PositiveRules, Honest;
    RunStart(nb, rules);
    w := new Classic.ClassicWotTrust(rules);
    for i := 0 to |events|
      invariant fresh(w) && w.Valid(rules) && w.Settled(rules)
      invariant w.sigs == SigsAfter(nb, events[..i], |rules|)
      invariant w.trust == ClassicTrustAfter(nb, events[..i], rules)
    {
      var was, now := events[i].was, events[i].now;
      PrefixStep(nb, events, rules, i);
      var _, _ := w.Update(was.trust, was.sig, now.trust, now.sig, rules);
    }
    assert events[..|events|] == events;
  }

  /** No signer is better than level `k`. */
  ghost predicate OnlyFrom(k: nat, events: seq<Event>) {
    k <= UNKNOWN && forall e :: e in events ==> e.now.trust >= k
  }

  lemma {:induction false} SignersFrom(nb: nat, events: seq<Event>, k: nat)
    requires OnlyFrom(k, events)
    ensures forall x :: x in SignersAfter(nb, events) ==> x.trust >= k
  {
    if events != [] {
      SignersFrom(nb, events[..|events| - 1], k);
      assert events[|events| - 1] in events;
    }
  }

  lemma {:induction false} HistogramFrom(signers: seq<Raw>, n: nat, k: nat)
    requires forall x :: x in signers ==> x.trust >= k
    ensures EmptyBelow(CellsOf(Histogram(signers, n)), k)
  {
    if signers != [] {
      HistogramFrom(signers[..|signers| - 1], n, k);
      assert signers[|signers| - 1] in signers;
      var c := CellsOf(Histogram(signers[..|signers| - 1], n));
      forall l: nat, s: nat | l < k ensures Histogram(signers, n)[Sig(l, s)] == 0 {
        assert c(l, s) == 0;
      }
    }
  }

  /** However many signatures are added, signers from level `k` on never lift anybody above level `k`. */
  lemma {:induction false} ClassicBarrier(nb: nat, events: seq<Event>, rules: Rules, k: nat)
    requires OnlyFrom(k, events) && PositiveRules(rules)
    ensures ClassicTrustAfter(nb, events, rules) >= k
  {
    if events != [] {
      ClassicBarrier(nb, events[..|events| - 1], rules, k);
      SignersFrom(nb, events, k);
      HistogramFrom(SignersAfter(nb, events), |rules|, k);
      HitsAboveBarrier(CellsOf(SigsAfter(nb, events, |rules|)), rules, k);
    }
  }

  /** One more signature, by an originator no better than those who decided, never makes the Classic
      level worse. */
  lemma AdditionKeepsClassic(m: multiset<Sig>, x: Sig, rules: Rules, l: nat, s: nat)
    requires FirstHit(CellsOf(m), rules, l, s) && l <= x.orig
    ensures var level := ClassicLevel(CellsOf(m + multiset{x}), rules);
            level.Some? && level.value <= s
  {
    ClassicMonotoneBelow(CellsOf(m), CellsOf(m + multiset{x}), rules, l, s);
  }

  // ----- Exp -----

  /** The signatures that Exp has counted after the events. */
  ghost function ExpSigsAfter(events: seq<Event>, n: nat): multiset<Sig> {
    if events == [] then multiset{}
    else
      var last := events[|events| - 1];
      Exp.Updated(ExpSigsAfter(events[..|events| - 1], n), n,
                  last.was.trust, last.was.sig, last.now.trust, last.now.sig)
  }

  /** The trust of Exp after the events. */
  ghost function ExpTrustAfter(events: seq<Event>, rules: Rules): nat {
    TrustLevels.ExpTrust(CellsOf(ExpSigsAfter(events, |rules|)), rules)
  }

  /** Over every run of updates, whatever they report, the trust of Exp is the level of the
      signatures it has counted, or the worst one. */
  method RunExp(rules: Rules, events: seq<Event>) returns (w: Exp.ExpWotTrust)
    requires |rules| <= UNKNOWN && PositiveRules(rules)
    ensures fresh(w) && w.Valid(rules) && w.sigs == ExpSigsAfter(events, |rules|)
    ensures w.trust == ExpTrustAfter(events, rules)
  {
    w := new Exp.ExpWotTrust(rules);
    Classic.NoSignatures(rules);
    for i := 0 to |events|
      invariant fresh(w) && w.Valid(rules) && w.Settled(rules)
      invariant w.sigs == ExpSigsAfter(events[..i], |rules|)
    {
      var was, now := events[i].was, events[i].now;
      assert events[..i + 1][..i] == events[..i];
      var _, _ := w.Update(was.trust, was.sig, now.trust, now.sig, rules);
    }
    assert events[..|events|] == events;
  }

  lemma {:induction false} ExpBarrier(events: seq<Event>, rules: Rules, k: nat)
    requires OnlyFrom(k, events) && PositiveRules(rules)
    ensures EmptyBelow(CellsOf(ExpSigsAfter(events, |rules|)), k)
    ensures ExpTrustAfter(events, rules) >= k
  {
    var m := ExpSigsAfter(events, |rules|);
    if events != [] {
      var before := events[..|events| - 1];
      ExpBarrier(before, rules, k);
      assert events[|events| - 1] in events;
      var c := CellsOf(ExpSigsAfter(before, |rules|));
      forall l: nat, s: nat | l < k ensures m[Sig(l, s)] == 0 {
        assert c(l, s) == 0;
      }
    }
    HitsAboveBarrier(CellsOf(m), rules, k);
  }

  // ----- Exp beside Classic -----

  /** A change of a signer's own level that leaves its capped level, in range, as it was. */
  predicate Moves(n: nat, e: Event) {
    Capped(e.was.trust, e.was.sig) == Capped(e.now.trust, e.now.sig) < n && e.was.trust != e.now.trust
  }

  /** The two calculators make the same of a held signature exactly when the event is no such change. */
  lemma UpdatesAgreeIff(m: multiset<Sig>, n: nat, e: Event)
    requires Counted(n, e.was.trust, e.was.sig) <= m
    ensures (Exp.Updated(m, n, e.was.trust, e.was.sig, e.now.trust, e.now.sig) ==
             Classic.Updated(m, n, e.was.trust, e.was.sig, e.now.trust, e.now.sig)) <==> !Moves(n, e)
  {
    if Capped(e.was.trust, e.was.sig) == Capped(e.now.trust, e.now.sig) && e.was.trust != e.now.trust {
      if InRange(n, e.now) {
        var x := Sig(e.now.trust, Capped(e.now.trust, e.now.sig));
        var c := Classic.Updated(m, n, e.was.trust, e.was.sig, e.now.trust, e.now.sig);
        assert c[x] == m[x] + 1;
      } else {
        assert m - multiset{} + multiset{} == m;
      }
    }
  }

  /** What is reported can be taken out of the histogram. */
  lemma ReportedIsHeld(nb: nat, events: seq<Event>, n: nat)
    requires events != [] && Honest(nb, events, n)
    ensures var was := events[|events| - 1].was;
            Counted(n, was.trust, was.sig) <= SigsAfter(nb, events[..|events| - 1], n)
  {
    var k := |events| - 1;
    assert Reports(n, SignersAfter(nb, events[..k])[events[k].signer], events[k].was);
    HistogramHas(SignersAfter(nb, events[..k]), n, events[k].signer);
  }

  /** From a state in step, Exp keeps the histogram of the current signatures exactly when the event
      is not such a change. */
  lemma ExpKeepsHistogramIff(nb: nat, events: seq<Event>, n: nat)
    requires events != [] && Honest(nb, events, n) && n <= UNKNOWN
    requires var before := events[..|events| - 1]; ExpSigsAfter(before, n) == SigsAfter(nb, before, n)
    ensures ExpSigsAfter(events, n) == SigsAfter(nb, events, n) <==> !Moves(n, events[|events| - 1])
  {
    hide SigsAfter, Moves, Honest, Classic.Updated, Exp.Updated;
    ClassicStep(nb, events, n);
    ReportedIsHeld(nb, events, n);
    UpdatesAgreeIff(SigsAfter(nb, events[..|events| - 1], n), n, events[|events| - 1]);
  }

  /** Exp has had the histogram of the current signatures at all times. */
  ghost predicate InStep(nb: nat, events: seq<Event>, n: nat) {
    forall j :: 0 <= j <= |events| ==> ExpSigsAfter(events[..j], n) == SigsAfter(nb, events[..j], n)
  }

  ghost predicate NoneMoves(n: nat, events: seq<Event>) {
    forall i :: 0 <= i < |events| ==> !Moves(n, events[i])
  }

  lemma NoneMovesSnoc(n: nat, events: seq<Event>)
    requires events != []
    ensures NoneMoves(n, events) <==> NoneMoves(n, events[..|events| - 1]) && !Moves(n, events[|events| - 1])
  {
    hide Moves;
    assert forall i :: 0 <= i < |events| - 1 ==> events[..|events| - 1][i] == events[i];
  }

  lemma InStepSnoc(nb: nat, events: seq<Event>, n: nat)
    requires events != []
    ensures InStep(nb, events, n) <==>
            InStep(nb, events[..|events| - 1], n) && ExpSigsAfter(events, n) == SigsAfter(nb, events, n)
  {
    hide ExpSigsAfter, SigsAfter;
    var k := |events| - 1;
    assert events[..|events|] == events;
    forall j | 0 <= j <= k ensures events[..k][..j] == events[..j] {
    }
    if InStep(nb, events, n) {
      forall j | 0 <= j <= k ensures ExpSigsAfter(events[..k][..j], n) == SigsAfter(nb, events[..k][..j], n) {
        assert ExpSigsAfter(events[..j], n) == SigsAfter(nb, events[..j], n);
      }
    } else {
      var j :| 0 <= j <= |events| && ExpSigsAfter(events[..j], n) != SigsAfter(nb, events[..j], n);
      if j <= k {
        assert events[..k][..j] == events[..j];
      }
    }
  }

  /** Over every run, Exp keeps the histogram of the current signatures all the time exactly when no
      event is a change of a signer's own level that leaves its capped level, in range, as it was. */
  lemma {:induction false} ExpInStepIff(nb: nat, events: seq<Event>, n: nat)
    requires Honest(nb, events, n) && n <= UNKNOWN
    ensures InStep(nb, events, n) <==> NoneMoves(n, events)
  {
    if events == [] {
      HistogramOfNobody(nb, n);
    } else {
      hide InStep, Moves, NoneMoves, ExpSigsAfter, SigsAfter, Honest;
      var k := |events| - 1;
      HonestPrefix(nb, events, n, k);
      ExpInStepIff(nb, events[..k], n);
      InStepSnoc(nb, events, n);
      NoneMovesSnoc(n, events);
      if InStep(nb, events[..k], n) {
        LastOfStep(nb, events[..k], n);
        ExpKeepsHistogramIff(nb, events, n);
      }
    }
  }

  lemma LastOfStep(nb: nat, events: seq<Event>, n: nat)
    requires InStep(nb, events, n)
    ensures ExpSigsAfter(events, n) == SigsAfter(nb, events, n)
  {
    assert events[..|events|] == events;
  }

  /** In such runs Exp is numerically worse than Classic only while the current signatures give no
      level at all, so that Classic lives on an earlier one. */
  lemma ExpWorseOnlyWithoutLevel(nb: nat, events: seq<Event>, rules: Rules)
    requires Honest(nb, events, |rules|) && |rules| <= UNKNOWN
    requires NoneMoves(|rules|, events)
    requires ExpTrustAfter(events, rules) > ClassicTrustAfter(nb, events, rules)
    ensures events != [] && LevelAt(nb, events, rules, |events|) == None && ExpTrustAfter(events, rules) == UNKNOWN
  {
    ExpInStepIff(nb, events, |rules|);
    LastOfStep(nb, events, |rules|);
    var c := CellsOf(SigsAfter(nb, events, |rules|));
    ExpNeverWorse(c, rules);
    ExpIsLeastHit(c, rules);
    assert ExpTrustAfter(events, rules) <= UNKNOWN;
    if events != [] {
      TrustFromLevel(nb, events, rules);
      assert events[..|events|] == events;
    }
  }

  /** A run that is out of step: with rules [1, 5, 5] one signer at level 0 gives level 2, and then
      falls to level 1. Exp still says 2, although its current signature gives nothing. */
  lemma ExpOutOfStep(rules: Rules, events: seq<Event>)
    requires rules == [1, 5, 5]
    requires events == [Event(0, NOBODY, Raw(0, 2)), Event(0, Raw(0, 2), Raw(1, 2))]
    ensures Honest(1, events, |rules|)
    ensures ExpTrustAfter(events, rules) == 2
    ensures TrustLevels.ExpTrust(CellsOf(SigsAfter(1, events, |rules|)), rules) == UNKNOWN
  {
    var first := events[..1];
    var one, two := Raw(0, 2), Raw(1, 2);
    assert events[..0] == [] && first[..0] == [] && events[..1] == first;
    assert SignersAfter(1, []) == [NOBODY];
    assert SignersAfter(1, first) == [one];
    assert SignersAfter(1, events) == [two];
    assert ExpSigsAfter(first, 3) == multiset{Sig(0, 2)};
    assert ExpSigsAfter(events, 3) == multiset{Sig(0, 2)};
    assert [one][..0] == [] && Histogram([one], 3) == multiset{Sig(0, 2)};
    OneSignature(one, rules);
    OneSignature(two, rules);
  }

  /** A single signature hits only where its own level and the capped one allow. */
  lemma OneSignature(x: Raw, rules: Rules)
    ensures var c := CellsOf(Histogram([x], |rules|));
            forall l: nat, s: nat :: Hit(c, rules, l, s) <==>
              l <= s < |rules| && (if x.trust <= l && x.trust <= s && x.sig <= s then 1 else 0) >= rules[l]
    ensures rules == [1, 5, 5] && x == Raw(0, 2) ==> TrustLevels.ExpTrust(CellsOf(Histogram([x], 3)), rules) == 2
    ensures rules == [1, 5, 5] && x == Raw(1, 2) ==> TrustLevels.ExpTrust(CellsOf(Histogram([x], 3)), rules) == UNKNOWN
  {
    hide Histogram, Q;
    var c := CellsOf(Histogram([x], |rules|));
    forall l: nat, s: nat | l <= s < |rules|
      ensures Q(c, l, s) == if x.trust <= l && x.trust <= s && x.sig <= s then 1 else 0
    {
      QCountsSigners([x], |rules|, l, s);
      assert [x][..0] == [];
    }
    ExpIsLeastHit(c, rules);
    if rules == [1, 5, 5] && x == Raw(0, 2) {
      assert Hit(c, rules, 0, 2) && HitAt(c, rules, 2);
    }
  }
}
