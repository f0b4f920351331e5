/** A key-value store over a cache that can hand out some of its values. */
module SimpleCaches {
  import opened Sequences
  import opened KvCache

  /** A value knows its own key. */
  datatype Val = Val(key: int, content: int)

  /** Entry `k` is on the side of `pos` that a fold looks at. */
  predicate OnSide(k: nat, pos: nat, after: bool) {
    if after then pos < k else pos >= k
  }

  /** Entries are added in the order of the cache: one that was added leaves no earlier one out. */
  ghost predicate AddedInOrder(vals: seq<Val>, start: seq<Val>, res: seq<Val>, pos: nat, after: bool, n: nat)
    requires n <= |vals|
  {
    forall j: nat, k: nat :: j < k < n && OnSide(j, pos, after) && OnSide(k, pos, after) ==>
      vals[k] in res && vals[k] !in start ==> vals[j] in res
  }

  /** One of the two complementary folds: the entries after `pos`, or those up to it, that are
      missing from the result, as long as some are wanted. */
  method AddMissing(vals: seq<Val>, start: seq<Val>, adjust: nat, pos: nat, after: bool) returns (res: seq<Val>)
    requires NoDup(start) && forall x :: x in start ==> x in vals
    ensures start <= res && NoDup(res) && forall x :: x in res ==> x in vals
    ensures |res| <= |start| + adjust
    ensures NoDup(vals) ==> AddedInOrder(vals, start, res, pos, after, |vals|)
    ensures forall k :: 0 <= k < |vals| && !OnSide(k, pos, after) && NoDup(vals) && vals[k] in res ==> vals[k] in start
    ensures |res| < |start| + adjust ==>
              forall k :: 0 <= k < |vals| && OnSide(k, pos, after) ==> vals[k] in res
  {
    res := start;
    var rem := adjust;
    for i := 0 to |vals|
      invariant start <= res && NoDup(res) && forall x :: x in res ==> x in vals
      invariant 0 <= rem && |res| + rem == |start| + adjust
      invariant NoDup(vals) ==> AddedInOrder(vals, start, res, pos, after, i)
      invariant NoDup(vals) ==> forall k :: 0 <= k < |vals| && (k >= i || !OnSide(k, pos, after)) && vals[k] in res ==>
                  vals[k] in start
      invariant rem > 0 ==> forall k :: 0 <= k < i && OnSide(k, pos, after) ==> vals[k] in res
    {
      if OnSide(i, pos, after) && rem > 0 && vals[i] !in res {
        res := res + [vals[i]];
        rem := rem - 1;
      }
    }
  }

  /** Complete a random selection to the wanted number of values, from a random position on. */
  method TopUp(vals: seq<Val>, first: seq<Val>, nb: nat, draw: nat) returns (r: seq<Val>)
    requires NoDup(vals) && |vals| > 0
    requires NoDup(first) && |first| <= Min(nb, |vals|) && forall x :: x in first ==> x in vals
    ensures first <= r && |r| == Min(nb, |vals|) && NoDup(r) && forall x :: x in r ==> x in vals
    ensures FromPosition(vals, first, r, Below(draw, |vals|))
  {
    r := first;
    var clen := |vals|;
    if |r| < nb && |r| < clen {
      var pos := Below(draw, clen);
      if pos < clen - 1 {
        r := AddMissing(vals, r, Min(nb, clen) - |r|, pos, true);
      }
      var adjust := Min(nb, clen) - |r|;
      if adjust != 0 {
        ghost var mid := r;
        r := AddMissing(vals, r, adjust, pos, false);
        if |r| < Min(nb, clen) {
          forall x | x in vals ensures x in r {
            var k :| 0 <= k < clen && vals[k] == x;
            if pos < k {
              assert vals[k] in mid;
              assert mid == r[..|mid|];
            }
          }
          SubsetLength(vals, r);
        }
      }
    }
  }

  /** Entries after the position come first: one up to it is added only when all after it are in the result;
      on each side they are added in the order of the cache. */
  ghost predicate FromPosition(vals: seq<Val>, first: seq<Val>, r: seq<Val>, pos: nat) {
    && (forall k: nat, j: nat :: k <= pos < j < |vals| && vals[k] in r && vals[k] !in first ==> vals[j] in r)
    && AddedInOrder(vals, first, r, pos, true, |vals|) && AddedInOrder(vals, first, r, pos, false, |vals|)
  }

  lemma DistinctVals(vals: seq<Val>, order: seq<int>)
    requires NoDup(order) && |vals| == |order| && forall i :: 0 <= i < |order| ==> vals[i].key == order[i]
    ensures NoDup(vals)
  {
  }

  lemma DistinctPicks(vals: seq<Val>, picks: seq<nat>, first: seq<Val>)
    requires NoDup(vals) && Increasing(picks) && |first| == |picks|
    requires forall i :: 0 <= i < |picks| ==> picks[i] < |vals| && first[i] == vals[picks[i]]
    ensures NoDup(first) && forall x :: x in first ==> x in vals
  {
  }

  class SimpleCache {
    var cache: map<int, Val>

    /** Every value is stored under its own key. */
    ghost predicate Valid()
      reads this
    {
      forall k :: k in cache ==> cache[k].key == k
    }

    constructor ()
      ensures Valid() && cache == map[]
    {
      cache := map[];
    }

    method AddVal(v: Val)
      requires Valid()
      modifies this
      ensures Valid() && cache == old(cache)[v.key := v]
    {
      cache := cache[v.key := v];
    }

    method RemoveVal(k: int)
      requires Valid()
      modifies this
      ensures Valid() && cache == old(cache) - {k}
    {
      cache := cache - {k};
    }

    /** `order` is an iteration order of the cache. */
    ghost predicate Iterates(order: seq<int>)
      reads this
    {
      NoDup(order) && (forall i :: 0 <= i < |order| ==> order[i] in cache) && forall k :: k in cache ==> k in order
    }

    /** The values in the order of iteration. */
    function ValsOf(order: seq<int>): (vals: seq<Val>)
      requires forall i :: 0 <= i < |order| ==> order[i] in cache
      reads this
      ensures |vals| == |order| && forall i :: 0 <= i < |order| ==> order[i] in cache && vals[i] == cache[order[i]]
    {
      var stored := cache;
      seq(|order|, i requires 0 <= i < |order| => stored[order[i]])
    }

    /** As many values as asked for, or all: different stored values, the random ones first. `picks`
        is any answer of the random selection over the same order, `draw` any random number. */
    method GetNextVals(nb: nat, order: seq<int>, picks: seq<nat>, draw: nat) returns (r: seq<Val>)
      requires Valid() && Iterates(order)
      requires Increasing(picks) && |picks| <= Min(nb, |order|) && forall i :: 0 <= i < |picks| ==> picks[i] < |order|
      ensures |r| == Min(nb, |order|) && NoDup(r)
      ensures forall x :: x in r ==> x.key in cache && cache[x.key] == x
      ensures |picks| <= |r|
      ensures order != [] ==> FromPosition(ValsOf(order), r[..|picks|], r, Below(draw, |order|))
      ensures forall i :: 0 <= i < |picks| ==> order[picks[i]] in cache && r[i] == cache[order[picks[i]]]
    {
      if |order| == 0 {
        return [];
      }
      var vals := ValsOf(order);
      DistinctVals(vals, order);
      var first := seq(|picks|, i requires 0 <= i < |picks| => vals[picks[i]]);
      DistinctPicks(vals, picks, first);
      hide NoDup, FromPosition;
      r := TopUp(vals, first, nb, draw);
      assert r[..|picks|] == first;
      forall x | x in r ensures x.key in cache && cache[x.key] == x {
        var k :| 0 <= k < |order| && vals[k] == x;
        assert x.key == order[k];
      }
      forall i | 0 <= i < |picks| ensures r[i] == cache[order[picks[i]]] {
        assert r[i] == first[i] == vals[picks[i]];
      }
    }

    /** The same with the random selection done by the cache itself; nothing when none of the random
        rolls is accepted. */
    method NextVals(nb: nat, order: seq<int>, rolls: seq<seq<bool>>, draw: nat) returns (r: Option<seq<Val>>)
      requires Valid() && Iterates(order)
      requires forall i :: 0 <= i < |rolls| ==> |rolls[i]| == Xess(|order|) + |order|
      ensures r.None? <==>
                order != [] && nb != 0 &&
                forall i :: 0 <= i < |rolls| ==>
                  !Accepted<int>(order, None, rolls[i], Xess(|order|), Wanted(|order|, nb))
      ensures r.Some? ==>
                && |r.value| == Min(nb, |order|) && NoDup(r.value)
                && forall x :: x in r.value ==> x.key in cache && cache[x.key] == x
    {
      hide Accepted, Selection;
      var picks := NextRandomValues<int>(order, nb, None, rolls);
      if picks.None? {
        AcceptedFirst<int>(order, None, rolls, Xess(|order|), Wanted(|order|, nb));
        return None;
      }
      var vals := GetNextVals(nb, order, picks.value, draw);
      return Some(vals);
    }
  }
}
