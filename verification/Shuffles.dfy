/** The partial Fisher-Yates shuffle behind the random selections. */
module Shuffles {
  import opened Sequences

  /** The pool after the first `k` draws: the drawn values gather at its end, the last one first. */
  function Pool(pool: seq<nat>, draws: seq<nat>, k: nat): (r: seq<nat>)
    requires k <= |draws| && k <= |pool|
    ensures |r| == |pool|
  {
    if k == 0 then pool
    else
      var before := Pool(pool, draws, k - 1);
      var end := |pool| - (k - 1);
      var pos := Below(draws[k - 1], end);
      before[pos := before[end - 1]][end - 1 := before[pos]]
  }

  /** The first `k` values drawn, in order. */
  function Drawn(pool: seq<nat>, draws: seq<nat>, k: nat): (r: seq<nat>)
    requires k <= |draws| && k <= |pool|
    ensures |r| == k
  {
    var after := Pool(pool, draws, k);
    seq(k, i requires 0 <= i < k => after[|pool| - 1 - i])
  }

  lemma {:induction false} PoolInjective(pool: seq<nat>, draws: seq<nat>, k: nat, n: nat)
    requires k <= |draws| && k <= |pool| && Injective(pool, n)
    ensures Injective(Pool(pool, draws, k), n) && Injective(Drawn(pool, draws, k), n)
  {
    if k > 0 {
      PoolInjective(pool, draws, k - 1, n);
      var end := |pool| - (k - 1);
      SwapInjective(Pool(pool, draws, k - 1), Pool(pool, draws, k), Below(draws[k - 1], end), end - 1, n);
    }
    var after, drawn := Pool(pool, draws, k), Drawn(pool, draws, k);
    forall i, j | 0 <= i < j < k ensures drawn[i] != drawn[j] {
      assert after[|pool| - 1 - j] != after[|pool| - 1 - i];
    }
  }

  lemma ShuffleStart(pool: seq<nat>, draws: seq<nat>)
    ensures Pool(pool, draws, 0) == pool && Drawn(pool, draws, 0) == []
  {
  }

  /** One round of the loop. */
  lemma ShuffleStep(pool: seq<nat>, draws: seq<nat>, k: nat)
    requires k < |draws| && k < |pool|
    ensures var before, end := Pool(pool, draws, k), |pool| - k;
            var pos := Below(draws[k], end);
            && Pool(pool, draws, k + 1) == before[pos := before[end - 1]][end - 1 := before[pos]]
            && Drawn(pool, draws, k + 1) == Drawn(pool, draws, k) + [before[pos]]
  {
    DrawnStep(pool, draws, k);
  }

  /** A draw does not disturb the earlier ones. */
  lemma DrawnStep(pool: seq<nat>, draws: seq<nat>, k: nat)
    requires k < |draws| && k < |pool|
    ensures Drawn(pool, draws, k + 1) ==
            Drawn(pool, draws, k) + [Pool(pool, draws, k)[Below(draws[k], |pool| - k)]]
  {
  }

  lemma {:induction false} PoolPrefix(pool: seq<nat>, draws: seq<nat>, more: seq<nat>, k: nat)
    requires k <= |draws| && k <= |pool|
    ensures Pool(pool, draws + more, k) == Pool(pool, draws, k)
  {
    if k > 0 {
      PoolPrefix(pool, draws, more, k - 1);
      assert (draws + more)[k - 1] == draws[k - 1];
    }
  }

  /** Every selection without repetition can come out of the shuffle. */
  lemma EverySelectionCanBeDrawn(pool: seq<nat>, picks: seq<nat>)
    requires Injective(pool, |pool|) && Injective(picks, |pool|)
    ensures exists draws :: |draws| == |picks| && |picks| <= |pool| && Drawn(pool, draws, |picks|) == picks
  {
    PicksFit(picks, |pool|);
    var draws := DrawsFor(pool, picks);
  }

  lemma {:induction false} DrawsFor(pool: seq<nat>, picks: seq<nat>) returns (draws: seq<nat>)
    requires Injective(pool, |pool|) && Injective(picks, |pool|) && |picks| <= |pool|
    ensures |draws| == |picks| && Drawn(pool, draws, |picks|) == picks
  {
    if picks == [] {
      draws := [];
    } else {
      var k := |picks| - 1;
      var before := DrawsFor(pool, picks[..k]);
      var pos := NextDraw(pool, before, picks);
      draws := before + [pos];
      PoolPrefix(pool, before, [pos], k);
      DrawnStep(pool, draws, k);
      BelowSmall(pos, |pool| - k);
      assert picks == picks[..k] + [picks[k]];
    }
  }

  /** The value wanted next is still among those that can be drawn. */
  lemma NextDraw(pool: seq<nat>, draws: seq<nat>, picks: seq<nat>) returns (pos: nat)
    requires Injective(pool, |pool|) && Injective(picks, |pool|) && |draws| + 1 == |picks| <= |pool|
    requires Drawn(pool, draws, |draws|) == picks[..|draws|]
    ensures pos < |pool| - |draws| && Pool(pool, draws, |draws|)[pos] == picks[|draws|]
  {
    var k, n := |draws|, |pool|;
    var now := Pool(pool, draws, k);
    PoolInjective(pool, draws, k, n);
    InjectiveOnto(now, n, picks[k]);
    forall p | n - k <= p < n ensures now[p] != picks[k] {
      assert now[p] == Drawn(pool, draws, k)[n - 1 - p] == picks[n - 1 - p];
    }
    pos :| 0 <= pos < n && now[pos] == picks[k];
  }

  lemma BelowSmall(p: nat, n: nat)
    requires p < n
    ensures Below(p, n) == p
  {
  }

  lemma PicksFit(picks: seq<nat>, n: nat)
    requires Injective(picks, n)
    ensures |picks| <= n
  {
    var all := seq(n, i => i);
    forall x | x in picks ensures x in all {
      assert all[x] == x;
    }
    SubsetLength(picks, all);
  }
}
