/** Random selection from a cache. Randomness is an input: everything holds for every outcome.
    A cache is the sequence of its values in iteration order; a reference to an entry is its
    position in that order. */
module KvCache {
  import opened Sequences
  import opened Shuffles

  // ----- exact_rand -----

  ghost predicate WholeBlock(b: nat, m: nat, len: nat) {
    (b + 1) * m <= len
  }

  ghost function Block(s: seq<nat>, b: nat, m: nat): seq<nat>
    requires WholeBlock(b, m, |s|)
  {
    s[b * m..(b + 1) * m]
  }

  /** No position is picked twice within an aligned block of `m` picks. */
  ghost predicate BlockDistinct(picks: seq<nat>, m: nat, n: nat) {
    forall b: nat :: WholeBlock(b, m, |picks|) ==> Injective(Block(picks, b, m), n)
  }

  /** One round of the shuffle: `m` draws without repetition. */
  method DrawBlock(pool: array<nat>, m: nat, draws: seq<nat>) returns (picks: seq<nat>)
    requires m <= pool.Length && |draws| == m
    modifies pool
    ensures pool[..] == Pool(old(pool[..]), draws, m) && picks == Drawn(old(pool[..]), draws, m)
  {
    hide Below, Pool, Drawn;
    ghost var start := pool[..];
    picks := [];
    var nbDone := 0;
    ShuffleStart(start, draws);
    while nbDone < m
      invariant nbDone <= m && pool[..] == Pool(start, draws, nbDone) && picks == Drawn(start, draws, nbDone)
    {
      ShuffleStep(start, draws, nbDone);
      var end := pool.Length - nbDone;
      var pos := Below(draws[nbDone], end);
      ghost var before := pool[..];
      picks := picks + [pool[pos]];
      pool[pos] := pool[end - 1];
      pool[end - 1] := picks[nbDone];
      assert pool[..] == before[pos := before[end - 1]][end - 1 := before[pos]];
      nbDone := nbDone + 1;
    }
  }

  /** The fold over the cache that resolves picked positions: entry `i` goes to every place where
      it was picked. Every place is filled. */
  method Resolve<V>(cache: seq<V>, picks: seq<nat>) returns (r: seq<V>)
    requires forall j :: 0 <= j < |picks| ==> picks[j] < |cache|
    ensures |r| == |picks| && forall j :: 0 <= j < |picks| ==> r[j] == cache[picks[j]]
  {
    var result: seq<Option<V>> := seq(|picks|, _ => None);
    for i := 0 to |cache|
      invariant |result| == |picks|
      invariant forall j :: 0 <= j < |picks| && picks[j] < i ==> result[j] == Some(cache[picks[j]])
    {
      for j := 0 to |picks|
        invariant |result| == |picks|
        invariant forall k :: 0 <= k < |picks| && picks[k] < i ==> result[k] == Some(cache[picks[k]])
        invariant forall k :: 0 <= k < j && picks[k] == i ==> result[k] == Some(cache[picks[k]])
      {
        if picks[j] == i {
          result := result[j := Some(cache[i])];
        }
      }
    }
    r := [];
    for j := 0 to |picks|
      invariant |r| == j && forall k :: 0 <= k < j ==> r[k] == cache[picks[k]]
    {
      r := r + [result[j].value];
    }
  }

  /** The pool after `b` blocks of `m` draws. */
  ghost function PoolAfter(n: nat, m: nat, draws: seq<nat>, b: nat): (r: seq<nat>)
    requires m <= n && b * m <= |draws|
    ensures |r| == n
  {
    if b == 0 then seq(n, i => i)
    else
      BlockFits(b - 1, b, m);
      Pool(PoolAfter(n, m, draws, b - 1), draws[(b - 1) * m..b * m], m)
  }

  /** The positions picked by `b` blocks of `m` draws. */
  ghost function PicksAfter(n: nat, m: nat, draws: seq<nat>, b: nat): (r: seq<nat>)
    requires m <= n && b * m <= |draws|
    ensures |r| == b * m
  {
    if b == 0 then []
    else
      BlockFits(b - 1, b, m);
      PicksAfter(n, m, draws, b - 1) + Drawn(PoolAfter(n, m, draws, b - 1), draws[(b - 1) * m..b * m], m)
  }

  lemma {:induction false} PicksDistinct(n: nat, m: nat, draws: seq<nat>, b: nat)
    requires 0 < m <= n && b * m <= |draws|
    ensures Injective(PoolAfter(n, m, draws, b), n)
    ensures BlockDistinct(PicksAfter(n, m, draws, b), m, n)
    ensures forall j :: 0 <= j < b * m ==> PicksAfter(n, m, draws, b)[j] < n
  {
    if b > 0 {
      BlockFits(b - 1, b, m);
      PicksDistinct(n, m, draws, b - 1);
      var pool, part := PoolAfter(n, m, draws, b - 1), draws[(b - 1) * m..b * m];
      PoolInjective(pool, part, m, n);
      AppendBlock(PicksAfter(n, m, draws, b - 1), Drawn(pool, part, m), b - 1, m, n);
    }
  }

  /** Fails exactly when the cache is too small. Otherwise as many whole blocks of `minNoRepeat`
      values as fit, each block from distinct entries, as the draws say. A `minNoRepeat` of 0
      divides by zero. */
  method ExactRand<V>(cache: seq<V>, minNoRepeat: nat, nbTot: nat, draws: seq<nat>) returns (r: Option<seq<V>>)
    requires minNoRepeat >= 1 && |draws| >= Min(nbTot, |cache|)
    ensures r.None? <==> |cache| < minNoRepeat
    ensures r.Some? ==>
              var n, blocks := |cache|, Min(nbTot, |cache|) / minNoRepeat;
              && |r.value| == blocks * minNoRepeat <= |draws|
              && var picks := PicksAfter(n, minNoRepeat, draws, blocks);
              && BlockDistinct(picks, minNoRepeat, n)
              && forall j :: 0 <= j < |r.value| ==> picks[j] < n && r.value[j] == cache[picks[j]]
  {
    hide BlockDistinct, Injective, PicksAfter, PoolAfter, Pool, Drawn;
    if |cache| < minNoRepeat {
      return None;
    }
    var nbRet := Min(nbTot, |cache|);
    var blocks := nbRet / minNoRepeat;
    WholeBlocksFit(nbRet, minNoRepeat);
    var pool := new nat[|cache|](i => i);
    BlocksStart(|cache|, minNoRepeat, draws, pool[..]);
    var positions: seq<nat> := [];
    for b := 0 to blocks
      invariant b * minNoRepeat <= |draws|
      invariant positions == PicksAfter(|cache|, minNoRepeat, draws, b)
      invariant pool[..] == PoolAfter(|cache|, minNoRepeat, draws, b)
    {
      BlockFits(b, blocks, minNoRepeat);
      BlocksStep(|cache|, minNoRepeat, draws, b);
      var block := DrawBlock(pool, minNoRepeat, draws[b * minNoRepeat..(b + 1) * minNoRepeat]);
      positions := positions + block;
    }
    PicksDistinct(|cache|, minNoRepeat, draws, blocks);
    var values := Resolve(cache, positions);
    r := Some(values);
  }

  lemma WholeBlocksFit(n: nat, m: nat)
    requires m >= 1
    ensures n / m * m <= n
  {
  }

  lemma BlocksStart(n: nat, m: nat, draws: seq<nat>, pool: seq<nat>)
    requires m <= n == |pool| && forall i :: 0 <= i < n ==> pool[i] == i
    ensures PoolAfter(n, m, draws, 0) == pool && PicksAfter(n, m, draws, 0) == []
  {
  }

  lemma BlocksStep(n: nat, m: nat, draws: seq<nat>, b: nat)
    requires m <= n && b * m + m == (b + 1) * m <= |draws|
    ensures var pool, part := PoolAfter(n, m, draws, b), draws[b * m..(b + 1) * m];
            && PoolAfter(n, m, draws, b + 1) == Pool(pool, part, m)
            && PicksAfter(n, m, draws, b + 1) == PicksAfter(n, m, draws, b) + Drawn(pool, part, m)
  {
  }

  lemma BlockFits(b: nat, blocks: nat, m: nat)
    requires b < blocks
    ensures b * m + m == (b + 1) * m <= blocks * m
  {
    assert (blocks - b - 1) * m >= 0;
    assert blocks * m == (b + 1) * m + (blocks - b - 1) * m;
  }

  lemma AppendBlock(picks: seq<nat>, block: seq<nat>, b: nat, m: nat, n: nat)
    requires m > 0 && |picks| == b * m && |block| == m
    requires BlockDistinct(picks, m, n) && Injective(block, n)
    ensures BlockDistinct(picks + block, m, n)
  {
    forall c: nat | WholeBlock(c, m, |picks + block|) ensures Injective(Block(picks + block, c, m), n) {
      if c < b {
        BlockFits(c, b, m);
        assert WholeBlock(c, m, |picks|);
        assert Block(picks + block, c, m) == Block(picks, c, m);
      } else {
        if c > b {
          BlockFits(b, c, m);
        }
        assert c == b;
        assert Block(picks + block, c, m) == block;
      }
    }
  }

  // ----- next_random_values -----

  /** The value passes the filter, if there is one. */
  predicate Passes<V>(f: Option<V -> bool>, v: V) {
    f.None? || f.value(v)
  }

  /** How many of the first `i` entries pass the filter. */
  function CountOk<V>(cache: seq<V>, f: Option<V -> bool>, i: nat): (n: nat)
    requires i <= |cache|
    ensures n <= i && (f.None? ==> n == i)
  {
    if i == 0 then 0 else CountOk(cache, f, i - 1) + if Passes(f, cache[i - 1]) then 1 else 0
  }

  /** The eligible entries among the first `i` whose bit is set; the bits of eligible entries
      follow each other from `xess` on. */
  function Marked<V>(cache: seq<V>, f: Option<V -> bool>, bits: seq<bool>, xess: nat, i: nat): (r: seq<nat>)
    requires i <= |cache|
    ensures |r| <= CountOk(cache, f, i)
    ensures forall k :: 0 <= k < |r| ==> r[k] < i && Passes(f, cache[r[k]])
    ensures Increasing(r)
  {
    if i == 0 then []
    else
      var at := xess + CountOk(cache, f, i - 1);
      Marked(cache, f, bits, xess, i - 1) + if Passes(f, cache[i - 1]) && at < |bits| && bits[at] then [i - 1] else []
  }

  /** The count is the number of entries that pass. */
  lemma {:induction false} CountOkIsCard<V>(cache: seq<V>, f: Option<V -> bool>, i: nat)
    requires i <= |cache|
    ensures CountOk(cache, f, i) == |set j | 0 <= j < i && Passes(f, cache[j])|
  {
    if i > 0 {
      CountOkIsCard(cache, f, i - 1);
      var before, now := set j | 0 <= j < i - 1 && Passes(f, cache[j]), set j | 0 <= j < i && Passes(f, cache[j]);
      assert now == before + if Passes(f, cache[i - 1]) then {i - 1} else {};
    }
  }

  /** An entry is marked exactly when it passes and the bit with its number among those that pass is set. */
  lemma {:induction false} MarkedIff<V>(cache: seq<V>, f: Option<V -> bool>, bits: seq<bool>, xess: nat, i: nat, k: nat)
    requires k < i <= |cache|
    ensures k in Marked(cache, f, bits, xess, i) <==>
            Passes(f, cache[k]) && xess + CountOk(cache, f, k) < |bits| && bits[xess + CountOk(cache, f, k)]
  {
    if k < i - 1 {
      MarkedIff(cache, f, bits, xess, i - 1, k);
    }
  }

  predicate Increasing(s: seq<nat>) {
    forall i, j :: 0 <= i < j < |s| ==> s[i] < s[j]
  }

  /** The `t`-th marked entry is returned. */
  predicate Keeps(t: nat, nb: nat, ratio: nat)
    requires ratio >= 1
  {
    t < nb && t % ratio == 0
  }

  /** Of the first `t` marked entries, every `ratio`-th one before the `nb`-th. */
  function Thin(marked: seq<nat>, nb: nat, ratio: nat, t: nat): seq<nat>
    requires t <= |marked| && ratio >= 1
  {
    if t == 0 then []
    else Thin(marked, nb, ratio, t - 1) + if Keeps(t - 1, nb, ratio) then [marked[t - 1]] else []
  }

  lemma {:induction false} ThinIncreasing(marked: seq<nat>, nb: nat, ratio: nat, t: nat)
    requires t <= |marked| && ratio >= 1 && Increasing(marked)
    ensures Increasing(Thin(marked, nb, ratio, t))
    ensures forall k :: 0 <= k < |Thin(marked, nb, ratio, t)| ==> Thin(marked, nb, ratio, t)[k] in marked[..t]
  {
    if t > 0 {
      hide Keeps;
      ThinIncreasing(marked, nb, ratio, t - 1);
      var r := Thin(marked, nb, ratio, t - 1);
      forall k | 0 <= k < |r| ensures r[k] < marked[t - 1] && r[k] in marked[..t] {
        assert r[k] in marked[..t - 1];
      }
    }
  }

  /** `a / b`, rounded up. */
  function CeilDiv(a: nat, b: nat): nat
    requires b >= 1
  {
    (a + b - 1) / b
  }

  lemma CeilStep(x: nat, r: nat)
    requires r >= 1
    ensures CeilDiv(x + 1, r) == CeilDiv(x, r) + if x % r == 0 then 1 else 0
  {
    var q, m := x / r, x % r;
    assert x == q * r + m;
    DivIs(x + r, r, q + 1, m);
    if m == 0 {
      DivIs(x + r - 1, r, q, r - 1);
    } else {
      DivIs(x + r - 1, r, q + 1, m - 1);
    }
  }

  lemma DivIs(a: nat, b: nat, q: nat, m: nat)
    requires b >= 1 && m < b && a == q * b + m
    ensures a / b == q
  {
    var k := a / b - q;
    assert a == a / b * b + a % b;
    assert k * b == m - a % b;
    Multiple(k, b);
  }

  lemma Multiple(k: int, b: nat)
    ensures k >= 1 ==> k * b >= b
    ensures k <= -1 ==> k * b + b <= 0
  {
    if k >= 1 {
      assert (k - 1) * b >= 0;
    } else if k <= -1 {
      assert (-1 - k) * b >= 0;
    }
  }

  lemma {:induction false} ThinLength(marked: seq<nat>, nb: nat, ratio: nat, t: nat)
    requires t <= |marked| && ratio >= 1
    ensures |Thin(marked, nb, ratio, t)| == CeilDiv(Min(t, nb), ratio)
  {
    if t == 0 {
      DivIs(ratio - 1, ratio, 0, ratio - 1);
    } else {
      ThinLength(marked, nb, ratio, t - 1);
      if t <= nb {
        CeilStep(t - 1, ratio);
      }
    }
  }

  /** The result is every `ratio`-th marked entry. */
  lemma {:induction false} ThinAt(marked: seq<nat>, nb: nat, ratio: nat, t: nat, k: nat)
    requires t <= |marked| && ratio >= 1 && k < |Thin(marked, nb, ratio, t)|
    ensures k * ratio < t && Thin(marked, nb, ratio, t)[k] == marked[k * ratio]
  {
    if k < |Thin(marked, nb, ratio, t - 1)| {
      ThinAt(marked, nb, ratio, t - 1, k);
    } else {
      ThinLength(marked, nb, ratio, t - 1);
      var q := (t - 1) / ratio;
      assert t - 1 == q * ratio;
      CeilOfMultiple(q, ratio);
    }
  }

  lemma CeilOfMultiple(q: nat, r: nat)
    requires r >= 1
    ensures CeilDiv(q * r, r) == q
  {
    DivIs(q * r + r - 1, r, q, r - 1);
  }

  /** Rounding up loses nothing only when there is nothing to divide. */
  lemma CeilDivSame(nb: nat, ratio: nat)
    requires nb >= 1 && ratio >= 1
    ensures CeilDiv(nb, ratio) == nb <==> ratio == 1 || nb == 1
  {
    if nb == 1 {
      DivIs(ratio, ratio, 1, 0);
    } else if ratio > 1 {
      ProductIsLarger(nb, ratio);
      DivLess(nb + ratio - 1, ratio, nb);
    }
  }

  lemma ProductIsLarger(a: nat, b: nat)
    requires a >= 2 && b >= 2
    ensures a + b - 1 < a * b
  {
    Multiple(a - 1, b);
    assert a * b == (a - 1) * b + b;
    assert (a - 1) * b == (a - 1) + (a - 1) * (b - 1);
    Multiple(b - 1, a - 1);
    assert (a - 1) * (b - 1) == (b - 1) * (a - 1);
  }

  lemma DivLess(a: nat, b: nat, q: nat)
    requires b >= 1 && a < q * b
    ensures a / b < q
  {
    var k := a / b - q;
    assert a == a / b * b + a % b;
    assert k * b == a - a % b - q * b;
    Multiple(k, b);
  }

  function CountTrue(bits: seq<bool>, j: nat): nat
    requires j <= |bits|
  {
    if j == 0 then 0 else CountTrue(bits, j - 1) + if bits[j - 1] then 1 else 0
  }

  /** Without a filter every bit from `xess` on belongs to an entry. */
  lemma {:induction false} MarkedUnfiltered<V>(cache: seq<V>, bits: seq<bool>, xess: nat, i: nat)
    requires i <= |cache| && |bits| == xess + |cache|
    requires forall k :: 0 <= k < xess ==> !bits[k]
    ensures CountTrue(bits, xess + i) == |Marked<V>(cache, None, bits, xess, i)|
  {
    if i > 0 {
      MarkedUnfiltered(cache, bits, xess, i - 1);
    } else {
      NoneTrue(bits, xess);
    }
  }

  lemma {:induction false} NoneTrue(bits: seq<bool>, j: nat)
    requires j <= |bits| && forall k :: 0 <= k < j ==> !bits[k]
    ensures CountTrue(bits, j) == 0
  {
    if j > 0 {
      NoneTrue(bits, j - 1);
    }
  }

  lemma {:induction false} MarkedSame<V>(cache: seq<V>, f: Option<V -> bool>, bits: seq<bool>,
                                         bits': seq<bool>, xess: nat, i: nat)
    requires i <= |cache| && |bits| == |bits'| && forall k :: xess <= k < |bits| ==> bits[k] == bits'[k]
    ensures Marked(cache, f, bits, xess, i) == Marked(cache, f, bits', xess, i)
  {
    if i > 0 {
      MarkedSame(cache, f, bits, bits', xess, i - 1);
    }
  }

  lemma {:induction false} CountOkMonotone<V>(cache: seq<V>, f: Option<V -> bool>, i: nat, j: nat)
    requires i <= j <= |cache|
    ensures CountOk(cache, f, i) <= CountOk(cache, f, j)
  {
    if i < j {
      CountOkMonotone(cache, f, i, j - 1);
    }
  }

  /** The number of marked entries, counted over the entries or over the bits. */
  method CountMarked<V>(cache: seq<V>, f: Option<V -> bool>, bits: seq<bool>, xess: nat) returns (fsize: nat)
    requires |bits| == xess + CountOk(cache, f, |cache|) && forall k :: 0 <= k < xess ==> !bits[k]
    ensures fsize == |Marked(cache, f, bits, xess, |cache|)|
  {
    fsize := 0;
    if f.Some? {
      var at := xess;
      for i := 0 to |cache|
        invariant at == xess + CountOk(cache, f, i) && fsize == |Marked(cache, f, bits, xess, i)|
      {
        CountOkMonotone(cache, f, i + 1, |cache|);
        if f.value(cache[i]) {
          if bits[at] {
            fsize := fsize + 1;
          }
          at := at + 1;
        }
      }
    } else {
      for j := 0 to |bits|
        invariant fsize == CountTrue(bits, j)
      {
        if bits[j] {
          fsize := fsize + 1;
        }
      }
      MarkedUnfiltered(cache, bits, xess, |cache|);
    }
  }

  /** `inner_cache_bv_rand`: nothing when fewer than `nb` entries are marked, else the thinned list. */
  method BvRand<V>(cache: seq<V>, buf: seq<bool>, xess: nat, nb: nat, f: Option<V -> bool>)
    returns (r: Option<seq<nat>>)
    requires nb >= 1 && |buf| == xess + CountOk(cache, f, |cache|)
    ensures var marked := Marked(cache, f, buf, xess, |cache|);
            && (r.None? <==> |marked| < nb)
            && (r.Some? ==> |marked| / nb >= 1 && r.value == Thin(marked, nb, |marked| / nb, |marked|))
  {
    var filter := seq(|buf|, k requires 0 <= k < |buf| => k >= xess && buf[k]);
    MarkedSame(cache, f, buf, filter, xess, |cache|);
    var fsize := CountMarked(cache, f, filter, xess);
    var ratio := fsize / nb;
    if fsize < nb {
      DivIs(fsize, nb, 0, fsize);
    } else {
      RatioPositive(fsize, nb);
    }
    if ratio == 0 {
      return None;
    }
    var res := PickMarked(cache, filter, xess, nb, ratio, f);
    r := Some(res);
  }

  /** The second fold: pick every `ratio`-th marked entry. */
  method PickMarked<V>(cache: seq<V>, filter: seq<bool>, xess: nat, nb: nat, ratio: nat, f: Option<V -> bool>)
    returns (res: seq<nat>)
    requires ratio >= 1 && |filter| == xess + CountOk(cache, f, |cache|)
    ensures var marked := Marked(cache, f, filter, xess, |cache|); res == Thin(marked, nb, ratio, |marked|)
  {
    hide Keeps, Marked, CountOk, Thin;
    ghost var marked := Marked(cache, f, filter, xess, |cache|);
    var at, tot := xess, 0;
    res := [];
    MarkedStart(cache, f, filter, xess, nb, ratio);
    for i := 0 to |cache|
      invariant at == xess + CountOk(cache, f, i)
      invariant tot == |Marked(cache, f, filter, xess, i)| <= |marked|
      invariant res == Thin(marked, nb, ratio, tot)
    {
      MarkedStep(cache, f, filter, xess, i, nb, ratio);
      if Passes(f, cache[i]) {
        if filter[at] {
          if Keeps(tot, nb, ratio) {
            res := res + [i];
          }
          tot := tot + 1;
        }
        at := at + 1;
      }
    }
  }

  lemma MarkedStart<V>(cache: seq<V>, f: Option<V -> bool>, bits: seq<bool>, xess: nat, nb: nat, ratio: nat)
    requires ratio >= 1
    ensures CountOk(cache, f, 0) == 0 && Marked(cache, f, bits, xess, 0) == []
    ensures forall marked: seq<nat> :: Thin(marked, nb, ratio, 0) == []
  {
  }

  lemma MarkedNext<V>(cache: seq<V>, f: Option<V -> bool>, bits: seq<bool>, xess: nat, i: nat)
    requires i < |cache|
    ensures var at := xess + CountOk(cache, f, i);
            && CountOk(cache, f, i + 1) == CountOk(cache, f, i) + (if Passes(f, cache[i]) then 1 else 0)
            && Marked(cache, f, bits, xess, i + 1) ==
               Marked(cache, f, bits, xess, i) + if Passes(f, cache[i]) && at < |bits| && bits[at] then [i] else []
  {
  }

  /** One entry of the second fold. */
  lemma MarkedStep<V>(cache: seq<V>, f: Option<V -> bool>, bits: seq<bool>, xess: nat, i: nat, nb: nat, ratio: nat)
    requires i < |cache| && ratio >= 1 && |bits| == xess + CountOk(cache, f, |cache|)
    ensures var at, n := xess + CountOk(cache, f, i), |Marked(cache, f, bits, xess, i)|;
            var marked := Marked(cache, f, bits, xess, |cache|);
            if Passes(f, cache[i]) then
              && CountOk(cache, f, i + 1) == CountOk(cache, f, i) + 1 && at < |bits|
              && |Marked(cache, f, bits, xess, i + 1)| == (if bits[at] then n + 1 else n)
              && (bits[at] ==>
                    && n < |marked| && marked[n] == i
                    && Thin(marked, nb, ratio, n + 1) ==
                       Thin(marked, nb, ratio, n) + if Keeps(n, nb, ratio) then [i] else [])
            else
              && CountOk(cache, f, i + 1) == CountOk(cache, f, i)
              && |Marked(cache, f, bits, xess, i + 1)| == n
    ensures |Marked(cache, f, bits, xess, i + 1)| <= |Marked(cache, f, bits, xess, |cache|)|
  {
    hide Keeps, Passes, CountOk, Marked, Thin;
    CountOkMonotone(cache, f, i + 1, |cache|);
    MarkedNext(cache, f, bits, xess, i);
    MarkedPrefix(cache, f, bits, xess, i + 1);
    var marked, now := Marked(cache, f, bits, xess, |cache|), Marked(cache, f, bits, xess, i + 1);
    var n := |Marked(cache, f, bits, xess, i)|;
    if |now| == n + 1 {
      assert now == marked[..n + 1];
      ThinStep(marked, nb, ratio, n);
    }
  }

  lemma ThinStep(marked: seq<nat>, nb: nat, ratio: nat, n: nat)
    requires n < |marked| && ratio >= 1
    ensures Thin(marked, nb, ratio, n + 1) ==
            Thin(marked, nb, ratio, n) + if Keeps(n, nb, ratio) then [marked[n]] else []
  {
  }

  lemma RatioPositive(a: nat, b: nat)
    requires 1 <= b <= a
    ensures a / b >= 1
  {
  }

  lemma {:induction false} MarkedPrefix<V>(cache: seq<V>, f: Option<V -> bool>, bits: seq<bool>, xess: nat, i: nat)
    requires i <= |cache|
    ensures Marked(cache, f, bits, xess, i) <= Marked(cache, f, bits, xess, |cache|)
    decreases |cache| - i
  {
    if i < |cache| {
      MarkedPrefix(cache, f, bits, xess, i + 1);
    }
  }

  /** The roll gives exactly `nb` values: enough marked entries, and fewer than twice as many,
      unless only one value is wanted. */
  predicate Accepted<V>(cache: seq<V>, f: Option<V -> bool>, roll: seq<bool>, xess: nat, nb: nat)
    requires nb >= 1
  {
    var n := |Marked(cache, f, roll, xess, |cache|)|;
    n >= nb && (n / nb == 1 || nb == 1)
  }

  /** What an accepted roll selects. */
  function Selection<V>(cache: seq<V>, f: Option<V -> bool>, roll: seq<bool>, xess: nat, nb: nat): seq<nat>
    requires nb >= 1 && Accepted(cache, f, roll, xess, nb)
  {
    var marked := Marked(cache, f, roll, xess, |cache|);
    RatioPositive(|marked|, nb);
    Thin(marked, nb, |marked| / nb, |marked|)
  }

  /** Roll `i` is the first one that is accepted. */
  ghost predicate FirstAccepted<V>(cache: seq<V>, f: Option<V -> bool>, rolls: seq<seq<bool>>, xess: nat,
                                   nb: nat, i: int)
    requires nb >= 1
  {
    && 0 <= i < |rolls| && Accepted(cache, f, rolls[i], xess, nb)
    && forall k :: 0 <= k < i ==> !Accepted(cache, f, rolls[k], xess, nb)
  }

  /** When some roll is accepted there is a first one. */
  lemma AcceptedFirst<V>(cache: seq<V>, f: Option<V -> bool>, rolls: seq<seq<bool>>, xess: nat, nb: nat)
    requires nb >= 1 && forall i :: !FirstAccepted(cache, f, rolls, xess, nb, i)
    ensures forall i :: 0 <= i < |rolls| ==> !Accepted(cache, f, rolls[i], xess, nb)
  {
    hide Accepted;
    for i := 0 to |rolls|
      invariant forall k :: 0 <= k < i ==> !Accepted(cache, f, rolls[k], xess, nb)
    {
      assert !FirstAccepted(cache, f, rolls, xess, nb, i);
    }
  }

  /** How many values are returned: what was asked for, but at most two thirds of the eligible
      entries, and at least one. */
  function Wanted(l: nat, queried: nat): (nb: nat)
    requires l >= 1 && queried >= 1
    ensures 1 <= nb <= l && nb <= queried
    ensures TwoThirds(l, queried, nb)
  {
    var part := l * 2 / 3;
    Min(queried, if part >= 1 then part else 1)
  }

  /** `n` is what was asked for, if that is at most two thirds of the `l` eligible entries, and otherwise two
      thirds of them, rounded down, but one for a single entry. */
  predicate TwoThirds(l: nat, queried: nat, n: nat) {
    if 3 * queried <= 2 * l then n == queried
    else if l == 1 then n == 1
    else 3 * n <= 2 * l < 3 * (n + 1)
  }

  /** Unused bits of the last byte. */
  function Xess(l: nat): (x: nat)
    ensures x < 8 && (x + l) % 8 == 0
  {
    if l % 8 == 0 then 0 else 8 - l % 8
  }

  /** The retry loop over random rolls. It stops at the first accepted roll, with exactly the
      wanted number of different eligible entries. */
  method NextRandomValues<V>(cache: seq<V>, queried: nat, f: Option<V -> bool>, rolls: seq<seq<bool>>)
    returns (r: Option<seq<nat>>)
    requires var l := CountOk(cache, f, |cache|); forall i :: 0 <= i < |rolls| ==> |rolls[i]| == Xess(l) + l
    ensures var l := CountOk(cache, f, |cache|);
            if l == 0 || queried == 0 then r == Some([])
            else
              && (r.Some? <==> exists i :: FirstAccepted(cache, f, rolls, Xess(l), Wanted(l, queried), i))
              && (r.Some? ==> exists i :: FirstAccepted(cache, f, rolls, Xess(l), Wanted(l, queried), i)
                                && r.value == Selection(cache, f, rolls[i], Xess(l), Wanted(l, queried)))
              && (r.Some? ==>
                    && |r.value| == Wanted(l, queried) && TwoThirds(l, queried, |r.value|) && Increasing(r.value)
                    && forall k :: 0 <= k < |r.value| ==> r.value[k] < |cache| && Passes(f, cache[r.value[k]]))
  {
    var l := CountEligible(cache, f);
    if l == 0 || queried == 0 {
      return Some([]);
    }
    var randrat := l * 2 / 3;
    var nb := if queried > randrat then (if randrat == 0 then 1 else randrat) else queried;
    assert nb == Wanted(l, queried);
    r := Reroll(cache, f, rolls, Xess(l), nb);
  }

  /** `len_where_c`, or the length of the cache without a filter. */
  method CountEligible<V>(cache: seq<V>, f: Option<V -> bool>) returns (l: nat)
    ensures l == CountOk(cache, f, |cache|)
  {
    if f.None? {
      return |cache|;
    }
    l := 0;
    for i := 0 to |cache|
      invariant l == CountOk(cache, f, i)
    {
      if f.value(cache[i]) {
        l := l + 1;
      }
    }
  }

  /** The retry loop. */
  method Reroll<V>(cache: seq<V>, f: Option<V -> bool>, rolls: seq<seq<bool>>, xess: nat, nb: nat)
    returns (r: Option<seq<nat>>)
    requires nb >= 1 && forall i :: 0 <= i < |rolls| ==> |rolls[i]| == xess + CountOk(cache, f, |cache|)
    ensures r.Some? <==> exists i :: FirstAccepted(cache, f, rolls, xess, nb, i)
    ensures r.Some? ==>
              exists i :: FirstAccepted(cache, f, rolls, xess, nb, i)
                && r.value == Selection(cache, f, rolls[i], xess, nb)
    ensures r.Some? ==>
              && |r.value| == nb && Increasing(r.value)
              && forall k :: 0 <= k < |r.value| ==> r.value[k] < |cache| && Passes(f, cache[r.value[k]])
  {
    hide Accepted, Thin, Marked, CountOk, Passes;
    for i := 0 to |rolls|
      invariant forall k :: 0 <= k < i ==> !Accepted(cache, f, rolls[k], xess, nb)
    {
      var res := BvRand(cache, rolls[i], xess, nb, f);
      AcceptedIff(cache, f, rolls[i], xess, nb);
      if res.Some? && |res.value| == nb {
        assert FirstAccepted(cache, f, rolls, xess, nb, i);
        return res;
      }
    }
    return None;
  }

  /** The number of values that a roll yields, and when it is the wanted one. */
  lemma AcceptedIff<V>(cache: seq<V>, f: Option<V -> bool>, roll: seq<bool>, xess: nat, nb: nat)
    requires nb >= 1
    ensures var marked := Marked(cache, f, roll, xess, |cache|);
            if |marked| < nb then !Accepted(cache, f, roll, xess, nb)
            else
              && |marked| / nb >= 1
              && var r := Thin(marked, nb, |marked| / nb, |marked|);
              && |r| == CeilDiv(nb, |marked| / nb)
              && (Accepted(cache, f, roll, xess, nb) <==> |r| == nb)
              && Increasing(r) && forall k :: 0 <= k < |r| ==> r[k] < |cache| && Passes(f, cache[r[k]])
  {
    var marked := Marked(cache, f, roll, xess, |cache|);
    if |marked| >= nb {
      RatioPositive(|marked|, nb);
      var ratio := |marked| / nb;
      ThinLength(marked, nb, ratio, |marked|);
      CeilDivSame(nb, ratio);
      ThinIncreasing(marked, nb, ratio, |marked|);
      var r := Thin(marked, nb, ratio, |marked|);
      forall k | 0 <= k < |r| ensures r[k] < |cache| && Passes(f, cache[r[k]]) {
        assert r[k] in marked[..|marked|];
      }
    }
  }

  /** An accepted roll selects the first `nb` marked entries. */
  lemma SelectionIsFirst<V>(cache: seq<V>, f: Option<V -> bool>, roll: seq<bool>, xess: nat, nb: nat)
    requires nb >= 1 && Accepted(cache, f, roll, xess, nb)
    ensures Selection(cache, f, roll, xess, nb) == Marked(cache, f, roll, xess, |cache|)[..nb]
  {
    hide Marked, Thin;
    var marked := Marked(cache, f, roll, xess, |cache|);
    var ratio := |marked| / nb;
    RatioPositive(|marked|, nb);
    AcceptedIff(cache, f, roll, xess, nb);
    var r := Thin(marked, nb, ratio, |marked|);
    forall k | 0 <= k < nb ensures r[k] == marked[k] {
      ThinAt(marked, nb, ratio, |marked|, k);
      assert k == 0 || ratio == 1;
    }
  }

  /** There is always a roll that ends the retry loop: exactly the first `nb` eligible entries marked. */
  lemma AcceptedRollExists<V>(cache: seq<V>, f: Option<V -> bool>, xess: nat, nb: nat)
    requires 1 <= nb <= CountOk(cache, f, |cache|)
    ensures exists roll :: |roll| == xess + CountOk(cache, f, |cache|) && Accepted(cache, f, roll, xess, nb)
  {
    var n := xess + CountOk(cache, f, |cache|);
    var roll := seq(n, k => xess <= k < xess + nb);
    FirstMarked(cache, f, roll, xess, nb, |cache|);
    DivIs(nb, nb, 1, 0);
    assert |roll| == n && Accepted(cache, f, roll, xess, nb);
  }

  lemma {:induction false} FirstMarked<V>(cache: seq<V>, f: Option<V -> bool>, roll: seq<bool>, xess: nat,
                                          nb: nat, i: nat)
    requires i <= |cache| && |roll| == xess + CountOk(cache, f, |cache|)
    requires forall k :: 0 <= k < |roll| ==> roll[k] == (xess <= k < xess + nb)
    ensures |Marked(cache, f, roll, xess, i)| == Min(nb, CountOk(cache, f, i))
  {
    if i > 0 {
      FirstMarked(cache, f, roll, xess, nb, i - 1);
      CountOkMonotone(cache, f, i, |cache|);
    }
  }
}
