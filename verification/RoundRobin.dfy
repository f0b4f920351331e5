/** Round-robin routing over the known peers, with a bounded history of hops. */
module RoundRobin {
  import opened Sequences

  type Key = int

  /** A peer in routing order, with the token to write to it when it is connected. */
  datatype Known = Known(key: Key, write: Option<nat>)

  /** The history of a message: bounded by hops or by peers. */
  datatype LastSent = LastSentHop(hop: nat, peers: seq<Key>) | LastSentPeer(maxnb: nat, peers: seq<Key>)

  // ----- The history -----

  /** The last `n` entries. */
  function LastOf(s: seq<Key>, n: nat): seq<Key> {
    if |s| <= n then s else s[|s| - n..]
  }

  /** The `pop_front` loop. */
  method PopFront(s: seq<Key>, n: nat) returns (r: seq<Key>)
    ensures r == if n >= |s| then [] else s[n..]
  {
    r := s;
    for i := 0 to n
      invariant r == if i >= |s| then [] else s[i..]
    {
      if r != [] {
        r := r[1..];
      }
    }
  }

  /** What `adjust_lastsent_next_hop` leaves of the history. */
  function Adjusted(h: Option<LastSent>, nbquery: nat): Option<LastSent> {
    match h
    case None => None
    case Some(LastSentPeer(maxnb, peers)) => Some(LastSentPeer(maxnb, LastOf(peers, maxnb)))
    case Some(LastSentHop(hop, peers)) =>
      if hop > 0 then Some(LastSentHop(hop - 1, peers))
      else Some(LastSentHop(0, if nbquery >= |peers| then [] else peers[nbquery..]))
  }

  ghost predicate IsTail(t: seq<Key>, s: seq<Key>) {
    |t| <= |s| && t == s[|s| - |t|..]
  }

  /** What remains of a history that has grown to `full` with `n` chosen peers. Bounded by peers, the last
      `maxnb` of it. Bounded by hops, all of it as long as there are hops left, one fewer each time, and then
      all but as many of the oldest as were chosen. */
  ghost predicate Remains(hist: LastSent, full: seq<Key>, n: nat, after: LastSent) {
    match hist
    case LastSentPeer(maxnb, _) =>
      && after.LastSentPeer? && after.maxnb == maxnb
      && |after.peers| == Min(maxnb, |full|) && IsTail(after.peers, full)
    case LastSentHop(hop, _) =>
      && after.LastSentHop?
      && if hop > 0 then after.hop == hop - 1 && after.peers == full
         else after.hop == 0 && |after.peers| == |full| - Min(n, |full|) && IsTail(after.peers, full)
  }

  lemma AdjustedRemains(hist: LastSent, nbquery: nat)
    ensures Adjusted(Some(hist), nbquery).Some?
    ensures Remains(hist, hist.peers, nbquery, Adjusted(Some(hist), nbquery).value)
  {
  }

  method AdjustLastsentNextHop(h: Option<LastSent>, nbquery: nat) returns (r: Option<LastSent>)
    ensures r == Adjusted(h, nbquery)
    ensures r.Some? == h.Some? && (h.Some? ==> Remains(h.value, h.value.peers, nbquery, r.value))
  {
    if h.Some? {
      AdjustedRemains(h.value, nbquery);
    }
    match h {
      case None => r := None;
      case Some(LastSentPeer(maxnb, peers)) =>
        var rest := peers;
        if |peers| > maxnb {
          rest := PopFront(peers, |peers| - maxnb);
        }
        assert rest == LastOf(peers, maxnb);
        r := Some(LastSentPeer(maxnb, rest));
      case Some(LastSentHop(hop, peers)) =>
        if hop > 0 {
          r := Some(LastSentHop(hop - 1, peers));
        } else {
          var rest := PopFront(peers, nbquery);
          r := Some(LastSentHop(0, rest));
        }
    }
  }

  // ----- One round -----

  /** The `j`-th position visited: downwards from `start`, and around. */
  function Visit(start: nat, j: nat, n: nat): (p: nat)
    requires start < n && j < n
    ensures p < n && (p + j == start || p + j == start + n)
  {
    if j <= start then start - j else start + n - j
  }

  lemma VisitsDiffer(start: nat, i: nat, j: nat, n: nat)
    requires start < n && i < j < n
    ensures Visit(start, i, n) != Visit(start, j, n)
  {
  }

  /** Every position is visited within one round. */
  lemma VisitsAll(start: nat, p: nat, n: nat)
    requires start < n && p < n
    ensures exists j :: 0 <= j < n && Visit(start, j, n) == p
  {
    var j := if p <= start then start - p else start + n - p;
    assert 0 <= j < n && Visit(start, j, n) == p;
  }

  ghost predicate UniqueKeys(table: seq<Known>) {
    forall i, j :: 0 <= i < j < |table| ==> table[i].key != table[j].key
  }

  /** Connected, and not in the history. */
  predicate Eligible(table: seq<Known>, i: nat, history: seq<Key>) {
    i < |table| && table[i].write.Some? && table[i].key !in history
  }

  /** The eligible positions among the first `j` visited, in the order of the visit. */
  ghost function Chosen(table: seq<Known>, start: nat, history: seq<Key>, j: nat): (r: seq<nat>)
    requires start < |table| && j <= |table|
    ensures forall k :: 0 <= k < |r| ==> Eligible(table, r[k], history)
  {
    if j == 0 then []
    else
      var p := Visit(start, j - 1, |table|);
      Chosen(table, start, history, j - 1) + if Eligible(table, p, history) then [p] else []
  }

  ghost function Keys(table: seq<Known>, ps: seq<nat>): (r: seq<Key>)
    requires forall k :: 0 <= k < |ps| ==> ps[k] < |table|
    ensures |r| == |ps| && forall k :: 0 <= k < |ps| ==> r[k] == table[ps[k]].key
  {
    seq(|ps|, k requires 0 <= k < |ps| => table[ps[k]].key)
  }

  ghost function Writes(table: seq<Known>, ps: seq<nat>): (r: seq<nat>)
    requires forall k :: 0 <= k < |ps| ==> ps[k] < |table| && table[ps[k]].write.Some?
    ensures |r| == |ps| && forall k :: 0 <= k < |ps| ==> r[k] == table[ps[k]].write.value
  {
    seq(|ps|, k requires 0 <= k < |ps| => table[ps[k]].write.value)
  }

  lemma {:induction false} ChosenFacts(table: seq<Known>, start: nat, history: seq<Key>, j: nat)
    requires start < |table| && j <= |table|
    ensures var r := Chosen(table, start, history, j);
            && NoDup(r) && |r| <= j
            && (forall p: nat :: p in r <==>
                  Eligible(table, p, history) && exists i :: 0 <= i < j && Visit(start, i, |table|) == p)
  {
    if j > 0 {
      ChosenFacts(table, start, history, j - 1);
      var p := Visit(start, j - 1, |table|);
      forall i | 0 <= i < j - 1 ensures Visit(start, i, |table|) != p {
        VisitsDiffer(start, i, j - 1, |table|);
      }
      var r := Chosen(table, start, history, j - 1);
      assert p !in r;
      forall q: nat ensures q in Chosen(table, start, history, j) <==>
          Eligible(table, q, history) && exists i :: 0 <= i < j && Visit(start, i, |table|) == q
      {
        assert q in Chosen(table, start, history, j) <==> q in r || (q == p && Eligible(table, p, history));
      }
    }
  }

  /** The chosen positions come in the order of the visit, which goes down from `start` and around. */
  lemma {:induction false} ChosenInVisitOrder(table: seq<Known>, start: nat, history: seq<Key>, j: nat, a: nat, b: nat)
    requires start < |table| && j <= |table| && a < b < |Chosen(table, start, history, j)|
    ensures var r, n := Chosen(table, start, history, j), |table|;
            exists i, k :: 0 <= i < k < j && Visit(start, i, n) == r[a] && Visit(start, k, n) == r[b]
  {
    var before := Chosen(table, start, history, j - 1);
    if b < |before| {
      ChosenInVisitOrder(table, start, history, j - 1, a, b);
    } else {
      ChosenFacts(table, start, history, j - 1);
      assert before[a] in before;
      var i :| 0 <= i < j - 1 && Visit(start, i, |table|) == before[a];
    }
  }

  /** The round is over after `j` visits: a full turn, or `nb` peers chosen. */
  ghost predicate RoundOver(table: seq<Known>, start: nat, history: seq<Key>, nb: nat, j: nat)
    requires start < |table|
  {
    1 <= j <= |table| && (j == |table| || |Chosen(table, start, history, j)| == nb)
  }

  /** The round ends with the `j`-th visit. */
  ghost predicate RoundEnds(table: seq<Known>, start: nat, history: seq<Key>, nb: nat, j: nat)
    requires start < |table|
  {
    RoundOver(table, start, history, nb, j) && forall i :: 1 <= i < j ==> !RoundOver(table, start, history, nb, i)
  }

  ghost predicate ChosenBy(table: seq<Known>, start: nat, history: seq<Key>, nb: nat, j: nat, chosen: seq<nat>)
    requires start < |table|
  {
    RoundEnds(table, start, history, nb, j) && chosen == Chosen(table, start, history, j)
  }

  ghost predicate NotOver(table: seq<Known>, start: nat, history: seq<Key>, nb: nat, j: nat)
    requires start < |table|
  {
    j < |table| && forall i :: 1 <= i <= j ==> !RoundOver(table, start, history, nb, i)
  }

  lemma OverOrNot(table: seq<Known>, start: nat, history: seq<Key>, nb: nat, j: nat)
    requires start < |table| && NotOver(table, start, history, nb, j)
    ensures if j + 1 == |table| || |Chosen(table, start, history, j + 1)| == nb
            then RoundEnds(table, start, history, nb, j + 1) else NotOver(table, start, history, nb, j + 1)
  {
  }

  /** A round asked for at least one peer never chooses more than it was asked for, chooses nobody
      twice and nobody from the history, and chooses fewer only when it chose every eligible peer. */
  lemma RoundChoosesEnough(table: seq<Known>, start: nat, history: seq<Key>, nb: nat, j: nat)
    requires start < |table| && nb >= 1 && RoundEnds(table, start, history, nb, j)
    ensures var r := Chosen(table, start, history, j);
            && |r| <= nb && NoDup(r)
            && (|r| < nb ==> forall p: nat :: p in r <==> Eligible(table, p, history))
  {
    ChosenFacts(table, start, history, j);
    ChosenStaysBelow(table, start, history, nb, j);
    if |Chosen(table, start, history, j)| < nb {
      forall p: nat | Eligible(table, p, history) ensures p in Chosen(table, start, history, j) {
        VisitsAll(start, p, |table|);
      }
    }
  }

  lemma {:induction false} ChosenStaysBelow(table: seq<Known>, start: nat, history: seq<Key>, nb: nat, j: nat)
    requires start < |table| && nb >= 1 && j <= |table|
    requires forall i :: 1 <= i < j ==> !RoundOver(table, start, history, nb, i)
    ensures |Chosen(table, start, history, j)| <= nb
    ensures j > 0 ==> |Chosen(table, start, history, j - 1)| < nb
  {
    if j > 0 {
      ChosenStaysBelow(table, start, history, nb, j - 1);
      assert j > 1 ==> !RoundOver(table, start, history, nb, j - 1);
    }
  }

  /** Where a round stands after `j` visits. */
  ghost function At(table: seq<Known>, start: nat, j: nat): nat
    requires start < |table| && j <= |table|
  {
    if j == |table| then start else Visit(start, j, |table|)
  }

  /** Where a round that started at `start` stands after `j` visits: the position, how many peers are
      chosen, their tokens, and the history with their keys. */
  ghost predicate RoundAt(table: seq<Known>, start: nat, filter: Option<seq<Key>>, j: nat,
                          pos: nat, i: nat, r: seq<nat>, filter': Option<seq<Key>>)
  {
    && start < |table| && j <= |table| && pos == At(table, start, j)
    && var history := if filter.Some? then filter.value else [];
    && var chosen := Chosen(table, start, history, j);
    && i == |chosen| && r == Writes(table, chosen)
    && filter' == (if filter.None? then None else Some(history + Keys(table, chosen)))
  }

  lemma RoundStart(table: seq<Known>, start: nat, filter: Option<seq<Key>>)
    requires start < |table|
    ensures RoundAt(table, start, filter, 0, start, 0, [], filter)
    ensures var history := if filter.Some? then filter.value else [];
            forall nb: nat :: NotOver(table, start, history, nb, 0)
  {
    var history := if filter.Some? then filter.value else [];
    assert Writes(table, []) == [] && history + Keys(table, []) == history;
  }

  /** One visit of a round. Keys that were chosen earlier in the round hide no later peer. */
  lemma VisitStep(table: seq<Known>, start: nat, filter: Option<seq<Key>>, j: nat,
                  pos: nat, i: nat, r: seq<nat>, filter': Option<seq<Key>>)
    requires j < |table| && UniqueKeys(table) && pos < |table| && RoundAt(table, start, filter, j, pos, i, r, filter')
    ensures var filtered := filter'.Some? && table[pos].key in filter'.value;
            var pos' := if pos == 0 then |table| - 1 else pos - 1;
            if !filtered && table[pos].write.Some? then
              RoundAt(table, start, filter, j + 1, pos', i + 1, r + [table[pos].write.value],
                      if filter'.Some? then Some(filter'.value + [table[pos].key]) else None)
            else RoundAt(table, start, filter, j + 1, pos', i, r, filter')
  {
    var history := if filter.Some? then filter.value else [];
    FilteredIff(table, start, history, j);
    var chosen, chosen' := Chosen(table, start, history, j), Chosen(table, start, history, j + 1);
    if Eligible(table, pos, history) {
      assert chosen' == chosen + [pos];
      assert Writes(table, chosen') == Writes(table, chosen) + [table[pos].write.value];
      assert history + Keys(table, chosen') == history + Keys(table, chosen) + [table[pos].key];
    } else {
      assert chosen' == chosen;
    }
  }

  /** A full turn ends where it started, and not before. */
  lemma RoundEndsHere(table: seq<Known>, start: nat, filter: Option<seq<Key>>, j: nat,
                      pos: nat, i: nat, r: seq<nat>, filter': Option<seq<Key>>)
    requires j >= 1 && RoundAt(table, start, filter, j, pos, i, r, filter')
    ensures pos < |table| && (pos == start <==> j == |table|)
    ensures i == |Chosen(table, start, if filter.Some? then filter.value else [], j)|
  {
  }

  lemma RoundAtMeans(table: seq<Known>, start: nat, filter: Option<seq<Key>>, j: nat,
                     pos: nat, i: nat, r: seq<nat>, filter': Option<seq<Key>>)
    requires RoundAt(table, start, filter, j, pos, i, r, filter')
    ensures var history := if filter.Some? then filter.value else [];
            && r == Writes(table, Chosen(table, start, history, j)) && pos == At(table, start, j)
            && filter' == (if filter.None? then None else Some(history + Keys(table, Chosen(table, start, history, j))))
  {
  }

  /** The table without the entry of `k`. */
  function Removed(table: seq<Known>, i: nat): (r: seq<Known>)
    requires i < |table|
    ensures |r| == |table| - 1 && forall k :: 0 <= k < |r| ==> r[k] == table[if k < i then k else k + 1]
  {
    table[..i] + table[i + 1..]
  }

  lemma RemovedFacts(table: seq<Known>, i: nat)
    requires i < |table| && UniqueKeys(table)
    ensures UniqueKeys(Removed(table, i))
    ensures forall x :: x in Removed(table, i) <==> x in table && x.key != table[i].key
  {
    var r := Removed(table, i);
    forall x | x in table && x.key != table[i].key ensures x in r {
      var j :| 0 <= j < |table| && table[j] == x;
      assert r[if j < i then j else j - 1] == x;
    }
  }

  class InefficientMap {
    var table: seq<Known>
    var next: nat
    var peers: map<Key, Known>

    constructor ()
      ensures Valid() && InRange() && peers == map[] && table == [] && next == 0
    {
      table, next, peers := [], 0, map[];
    }

    /** The table lists every peer once, with its current token. */
    ghost predicate Valid()
      reads this
    {
      && UniqueKeys(table)
      && (forall x :: x in table ==> x.key in peers && peers[x.key] == x)
      && forall k :: k in peers ==> peers[k] in table && peers[k].key == k
    }

    /** The next peer exists; without it a round panics. */
    ghost predicate InRange()
      reads this
    {
      next < |table| || (table == [] && next == 0)
    }

    method Position(k: Key) returns (r: Option<nat>)
      ensures match r
              case Some(i) => i < |table| && table[i].key == k
              case None => forall i :: 0 <= i < |table| ==> table[i].key != k
    {
      for i := 0 to |table|
        invariant forall j :: 0 <= j < i ==> table[j].key != k
      {
        if table[i].key == k {
          return Some(i);
        }
      }
      return None;
    }

    /** Add a peer, or move it to the end with its new token. */
    method AddVal(v: Known)
      requires Valid()
      modifies this
      ensures Valid() && peers == old(peers)[v.key := v] && next == old(next)
      ensures v.key !in old(peers) ==> table == old(table) + [v]
      ensures v.key in old(peers) ==>
                exists i :: 0 <= i < |old(table)| && old(table)[i].key == v.key && table == Removed(old(table), i) + [v]
      ensures old(InRange()) ==> InRange()
    {
      if v.key in peers {
        var p := Position(v.key);
        if p.Some? {
          RemovedFacts(table, p.value);
          table := Removed(table, p.value);
        }
      }
      assert forall x :: x in table <==> x in old(table) && x.key != v.key;
      ghost var others := table;
      table := table + [v];
      assert forall x :: x in table <==> x in others || x == v;
      peers := peers[v.key := v];
    }

    /** Remove a peer. The next position is not corrected: it stays in range exactly when it was
        not the last one of several, or nothing was removed. */
    method RemoveVal(k: Key)
      requires Valid()
      modifies this
      ensures Valid() && peers == old(peers) - {k} && next == old(next)
      ensures k !in old(peers) ==> table == old(table)
      ensures k in old(peers) ==>
                exists i :: 0 <= i < |old(table)| && old(table)[i].key == k && table == Removed(old(table), i)
      ensures old(InRange()) ==>
                (InRange() <==> !(k in old(peers) && old(next) == |old(table)| - 1 && |old(table)| > 1))
    {
      var p := Position(k);
      if p.Some? {
        RemovedFacts(table, p.value);
        assert table[p.value] in table;
        table := Removed(table, p.value);
      }
      assert forall x :: x in table <==> x in old(table) && x.key != k;
      peers := peers - {k};
    }

    /** One round: visit the peers downwards from the next one, and choose the connected ones that
        are not in the history, until enough are chosen or all were visited. The chosen peers
        join the history. */
    method GetClosest(nbnode: nat, filter: Option<seq<Key>>)
      returns (r: seq<nat>, filter': Option<seq<Key>>, ghost turns: nat)
      requires UniqueKeys(table) && InRange()
      modifies this`next
      ensures InRange()
      ensures table == [] ==> r == [] && filter' == filter
      ensures table != [] ==>
                var history := if filter.Some? then filter.value else [];
                && RoundEnds(table, old(next), history, nbnode, turns)
                && var chosen := Chosen(table, old(next), history, turns);
                && r == Writes(table, chosen)
                && filter' == (if filter.None? then None else Some(history + Keys(table, chosen)))
                && next == At(table, old(next), turns)
    {
      r, filter', turns := [], filter, 0;
      if |table| == 0 {
        return;
      }
      hide UniqueKeys, NotOver, RoundEnds, RoundAt;
      var stIx := next;
      var i := 0;
      ghost var history := if filter.Some? then filter.value else [];
      RoundStart(table, stIx, filter);
      var more := true;
      while more
        invariant turns <= |table| && next < |table| && RoundAt(table, stIx, filter, turns, next, i, r, filter')
        invariant more ==> turns < |table| && NotOver(table, stIx, history, nbnode, turns)
        invariant !more ==> RoundEnds(table, stIx, history, nbnode, turns)
        decreases more, |table| - turns
      {
        VisitStep(table, stIx, filter, turns, next, i, r, filter');
        OverOrNot(table, stIx, history, nbnode, turns);
        var nid := table[next];
        var filtered := filter'.Some? && nid.key in filter'.value;
        if !filtered && nid.write.Some? {
          r := r + [nid.write.value];
          if filter'.Some? {
            filter' := Some(filter'.value + [nid.key]);
          }
          i := i + 1;
        }
        next := if next == 0 then |table| - 1 else next - 1;
        turns := turns + 1;
        RoundEndsHere(table, stIx, filter, turns, next, i, r, filter');
        if next == stIx || i == nbnode {
          more := false;
        }
      }
      RoundAtMeans(table, stIx, filter, turns, next, i, r, filter');
    }

    /** `route_base`: one round over the history of the message, then the history is cut. */
    method RouteBase(nb: nat, hist: Option<LastSent>)
      returns (r: seq<nat>, hist': Option<LastSent>, ghost chosen: seq<nat>)
      requires UniqueKeys(table) && InRange()
      modifies this`next
      ensures InRange()
      ensures forall k :: 0 <= k < |chosen| ==> chosen[k] < |table| && table[chosen[k]].write.Some?
      ensures r == Writes(table, chosen) && NoDup(chosen)
      ensures var history := if hist.Some? then hist.value.peers else [];
              && (table == [] ==> chosen == [])
              && (table != [] ==> exists j :: ChosenBy(table, old(next), history, nb, j, chosen))
              && (nb >= 1 ==> |chosen| <= nb)
              && (forall k :: 0 <= k < |chosen| ==> table[chosen[k]].key !in history)
              && (nb >= 1 && |chosen| < nb ==>
                    forall p: nat :: p < |table| && table[p].write.Some? && table[p].key !in history ==> p in chosen)
              && hist'.Some? == hist.Some?
              && (hist.Some? ==> Remains(hist.value, history + Keys(table, chosen), |chosen|, hist'.value))
    {
      var filter := if hist.Some? then Some(hist.value.peers) else None;
      ghost var history := if hist.Some? then hist.value.peers else [];
      var closest, filter', turns := GetClosest(nb, filter);
      if table != [] {
        chosen := Chosen(table, old(next), history, turns);
        ChosenFacts(table, old(next), history, turns);
        assert ChosenBy(table, old(next), history, nb, turns, chosen);
        if nb >= 1 {
          RoundChoosesEnough(table, old(next), history, nb, turns);
        }
      } else {
        chosen := [];
        assert history + Keys(table, chosen) == history;
      }
      assert forall k :: 0 <= k < |chosen| ==> Eligible(table, chosen[k], history);
      hide Adjusted, IsTail;
      var m := if hist.Some? then Some(hist.value.(peers := filter'.value)) else None;
      hist' := AdjustLastsentNextHop(m, |closest|);
      r := closest;
    }
  }

  /** Over every run of rounds on an unchanged table, a history bounded by hops forgets nobody as long as it
      has hops left: it grows by exactly the chosen peers, and nobody is chosen twice or from the history. */
  method HopRounds(m: InefficientMap, asked: seq<nat>, hist: LastSent) returns (after: LastSent, ghost chosen: seq<nat>)
    requires m.Valid() && m.InRange() && hist.LastSentHop? && |asked| <= hist.hop
    modifies m`next
    ensures m.Valid() && m.InRange()
    ensures NoDup(chosen) && forall k :: 0 <= k < |chosen| ==> chosen[k] < |m.table| && m.table[chosen[k]].write.Some?
    ensures forall k :: 0 <= k < |chosen| ==> m.table[chosen[k]].key !in hist.peers
    ensures after == LastSentHop(hist.hop - |asked|, hist.peers + Keys(m.table, chosen))
  {
    after, chosen := hist, [];
    assert hist.peers + Keys(m.table, []) == hist.peers;
    for i := 0 to |asked|
      invariant m.Valid() && m.InRange() && NoDup(chosen)
      invariant forall k :: 0 <= k < |chosen| ==> chosen[k] < |m.table| && m.table[chosen[k]].write.Some?
      invariant forall k :: 0 <= k < |chosen| ==> m.table[chosen[k]].key !in hist.peers
      invariant after == LastSentHop(hist.hop - i, hist.peers + Keys(m.table, chosen))
    {
      var _, next, more := m.RouteBase(asked[i], Some(after));
      MoreChosen(m.table, hist.peers, chosen, more);
      after, chosen := next.value, chosen + more;
    }
  }

  lemma MoreChosen(table: seq<Known>, history: seq<Key>, chosen: seq<nat>, more: seq<nat>)
    requires NoDup(chosen) && NoDup(more) && forall k :: 0 <= k < |chosen| ==> chosen[k] < |table|
    requires forall k :: 0 <= k < |more| ==> more[k] < |table| && table[more[k]].key !in history + Keys(table, chosen)
    ensures NoDup(chosen + more) && forall k :: 0 <= k < |chosen + more| ==> (chosen + more)[k] < |table|
    ensures history + Keys(table, chosen + more) == history + Keys(table, chosen) + Keys(table, more)
    ensures forall k :: 0 <= k < |more| ==> table[more[k]].key !in history
  {
    assert Keys(table, chosen + more) == Keys(table, chosen) + Keys(table, more);
    assert forall j :: 0 <= j < |chosen| ==> Keys(table, chosen)[j] in history + Keys(table, chosen);
    forall k | 0 <= k < |more| ensures more[k] !in chosen && table[more[k]].key !in history {
    }
  }

  /** When the history is bounded by peers, it is afterwards the last `maxnb` of the old history
      followed by the chosen peers. */
  lemma PeerHistoryIsLast(maxnb: nat, history: seq<Key>, chosen: seq<Key>, nbquery: nat)
    ensures var r := Adjusted(Some(LastSentPeer(maxnb, history + chosen)), nbquery);
            && r.Some? && r.value.LastSentPeer? && r.value.maxnb == maxnb
            && |r.value.peers| == Min(maxnb, |history| + |chosen|)
            && exists dropped :: dropped + r.value.peers == history + chosen
  {
    var all := history + chosen;
    var kept := LastOf(all, maxnb);
    assert all[..|all| - |kept|] + kept == all;
  }

  /** With unique keys, the keys chosen in this round do not hide any later peer. */
  lemma FilteredIff(table: seq<Known>, start: nat, history: seq<Key>, j: nat)
    requires start < |table| && j < |table| && UniqueKeys(table)
    ensures var p := Visit(start, j, |table|);
            table[p].key in history + Keys(table, Chosen(table, start, history, j)) <==> table[p].key in history
  {
    var p := Visit(start, j, |table|);
    var r := Chosen(table, start, history, j);
    ChosenFacts(table, start, history, j);
    forall k | 0 <= k < |r| ensures table[r[k]].key != table[p].key {
      assert r[k] in r;
      var i :| 0 <= i < j && Visit(start, i, |table|) == r[k];
      VisitsDiffer(start, i, j, |table|);
    }
  }

  /** Two peers, one round, one removal: the next position is out of range, and the next round panics. */
  method RemoveLeavesNextOutOfRange() returns (m: InefficientMap)
    ensures m.Valid() && !m.InRange() && m.table != []
  {
    m := new InefficientMap();
    m.AddVal(Known(1, Some(10)));
    m.AddVal(Known(2, Some(20)));
    assert m.table == [Known(1, Some(10)), Known(2, Some(20))];
    var r, filter, turns := m.GetClosest(1, None);
    FirstVisit(m.table);
    assert turns == 1;
    m.RemoveVal(2);
  }

  lemma FirstVisit(table: seq<Known>)
    requires |table| == 2 && table[0].write.Some?
    ensures RoundOver(table, 0, [], 1, 1) && At(table, 0, 1) == 1
  {
    assert Visit(0, 0, 2) == 0 && Visit(0, 1, 2) == 1;
    assert Chosen(table, 0, [], 0) == [];
    assert Chosen(table, 0, [], 1) == [0];
  }

  // ----- Fairness over runs of rounds -----

  /** The position below `p`, and around. */
  function Down(p: nat, n: nat): (q: nat)
    requires p < n
    ensures q < n
  {
    if p == 0 then n - 1 else p - 1
  }

  /** The position after `k` visits, however many turns they make. */
  function Spin(start: nat, k: nat, n: nat): (p: nat)
    requires start < n
    ensures p < n
  {
    if k == 0 then start else Down(Spin(start, k - 1, n), n)
  }

  lemma {:induction false} SpinSpin(start: nat, j: nat, k: nat, n: nat)
    requires start < n
    ensures Spin(Spin(start, j, n), k, n) == Spin(start, j + k, n)
  {
    if k > 0 {
      SpinSpin(start, j, k - 1, n);
    }
  }

  /** Within one turn this is the visit of a round, and after it the start. */
  lemma {:induction false} SpinIsVisit(start: nat, k: nat, n: nat)
    requires start < n && k <= n
    ensures Spin(start, k, n) == if k == n then start else Visit(start, k, n)
  {
    if k > 0 {
      SpinIsVisit(start, k - 1, n);
    }
  }

  /** Within a turn no position comes again. */
  lemma SpinDiffer(start: nat, j: nat, k: nat, n: nat)
    requires start < n && j < k < j + n
    ensures Spin(start, j, n) != Spin(start, k, n)
  {
    var p := Spin(start, j, n);
    SpinSpin(start, j, k - j, n);
    SpinIsVisit(p, k - j, n);
    VisitsDiffer(p, 0, k - j, n);
  }

  /** A full turn comes to every position. */
  lemma SpinMeets(start: nat, j: nat, q: nat, n: nat) returns (k: nat)
    requires start < n && q < n
    ensures j <= k < j + n && Spin(start, k, n) == q
  {
    var p := Spin(start, j, n);
    VisitsAll(p, q, n);
    var i :| 0 <= i < n && Visit(p, i, n) == q;
    SpinIsVisit(p, i, n);
    SpinSpin(start, j, i, n);
    k := j + i;
  }

  predicate Connected(table: seq<Known>, p: nat) {
    p < |table| && table[p].write.Some?
  }

  ghost predicate AllConnected(table: seq<Known>, ps: seq<nat>) {
    forall k :: 0 <= k < |ps| ==> ps[k] < |table| && table[ps[k]].write.Some?
  }

  /** The connected peers among the first `k` visits, in order. */
  ghost function Along(table: seq<Known>, start: nat, k: nat): (r: seq<nat>)
    requires start < |table|
    ensures AllConnected(table, r)
  {
    if k == 0 then []
    else
      var p := Spin(start, k - 1, |table|);
      Along(table, start, k - 1) + if Connected(table, p) then [p] else []
  }

  lemma {:induction false} AlongAlong(table: seq<Known>, start: nat, j: nat, k: nat)
    requires start < |table|
    ensures Along(table, start, j + k) == Along(table, start, j) + Along(table, Spin(start, j, |table|), k)
  {
    if k > 0 {
      AlongAlong(table, start, j, k - 1);
      SpinSpin(start, j, k - 1, |table|);
    }
  }

  /** A round without history chooses the connected peers that it visits. */
  lemma {:induction false} RoundIsAlong(table: seq<Known>, start: nat, j: nat)
    requires start < |table| && j <= |table|
    ensures Chosen(table, start, [], j) == Along(table, start, j) && At(table, start, j) == Spin(start, j, |table|)
  {
    hide Spin, Visit, Along, Chosen, Eligible, Connected;
    SpinIsVisit(start, j, |table|);
    if j == 0 {
      NothingChosen(table, start);
    } else {
      RoundIsAlong(table, start, j - 1);
      SpinIsVisit(start, j - 1, |table|);
      AlongStep(table, start, j - 1);
      ChosenStep(table, start, j - 1);
    }
  }

  lemma NothingChosen(table: seq<Known>, start: nat)
    requires start < |table|
    ensures Along(table, start, 0) == [] && Chosen(table, start, [], 0) == [] && Spin(start, 0, |table|) == start
    ensures Writes(table, []) == []
  {
  }

  lemma AlongStep(table: seq<Known>, start: nat, j: nat)
    requires start < |table|
    ensures var p := Spin(start, j, |table|);
            Along(table, start, j + 1) == Along(table, start, j) + if Connected(table, p) then [p] else []
  {
  }

  lemma ChosenStep(table: seq<Known>, start: nat, j: nat)
    requires start < |table| && j < |table|
    ensures var p := Visit(start, j, |table|);
            Chosen(table, start, [], j + 1) == Chosen(table, start, [], j) + if Connected(table, p) then [p] else []
  {
  }

  /** The visit that chose entry number `a`. */
  lemma {:induction false} VisitOf(table: seq<Known>, start: nat, k: nat, a: nat) returns (j: nat)
    requires start < |table| && a < |Along(table, start, k)|
    ensures j < k && |Along(table, start, j)| == a && Along(table, start, k)[a] == Spin(start, j, |table|)
    ensures Connected(table, Spin(start, j, |table|))
  {
    if a < |Along(table, start, k - 1)| {
      j := VisitOf(table, start, k - 1, a);
    } else {
      j := k - 1;
    }
  }

  lemma {:induction false} AlongGrows(table: seq<Known>, start: nat, j: nat, k: nat)
    requires start < |table| && j <= k
    ensures Along(table, start, j) <= Along(table, start, k) && |Along(table, start, j)| <= |Along(table, start, k)|
  {
    if j < k {
      AlongGrows(table, start, j, k - 1);
    }
  }

  /** Before a peer is chosen again, every connected peer was chosen. */
  ghost predicate Fair(table: seq<Known>, chosen: seq<nat>) {
    forall a, b, q :: 0 <= a < b < |chosen| && chosen[a] == chosen[b] && Connected(table, q) ==> q in chosen[a..b]
  }

  lemma AlongIsFair(table: seq<Known>, start: nat, k: nat)
    requires start < |table|
    ensures Fair(table, Along(table, start, k))
  {
    hide Along, Spin, Connected;
    var all := Along(table, start, k);
    forall a, b, q | 0 <= a < b < |all| && all[a] == all[b] && Connected(table, q) ensures q in all[a..b] {
      InBetween(table, start, k, a, b, q);
    }
  }

  lemma Surrounded(first: seq<nat>, before: seq<nat>, q: nat, last: seq<nat>, all: seq<nat>)
    requires first <= before && before + [q] <= last <= all
    ensures q in all[|first|..|last|]
  {
    var c := |before|;
    assert all[|first|..|last|][c - |first|] == all[c] == last[c] == (before + [q])[c];
  }

  lemma InBetween(table: seq<Known>, start: nat, k: nat, a: nat, b: nat, q: nat)
    requires start < |table| && Connected(table, q) && a < b < |Along(table, start, k)|
    requires Along(table, start, k)[a] == Along(table, start, k)[b]
    ensures q in Along(table, start, k)[a..b]
  {
    assert q < |table|;
    hide Along, Spin, Connected;
    var all := Along(table, start, k);
    var ja := VisitOf(table, start, k, a);
    var jb := VisitOf(table, start, k, b);
    if jb <= ja {
      AlongGrows(table, start, jb, ja);
      assert false;
    }
    if jb < ja + |table| {
      SpinDiffer(start, ja, jb, |table|);
    }
    var j := SpinMeets(start, ja, q, |table|);
    ChosenInBetween(table, start, ja, j, jb, q);
    AlongGrows(table, start, jb, k);
    Surrounded(Along(table, start, ja), Along(table, start, j), q, Along(table, start, jb), all);
  }

  /** A visit that meets a connected peer chooses it. */
  lemma ChosenInBetween(table: seq<Known>, start: nat, ja: nat, j: nat, jb: nat, q: nat)
    requires start < |table| && ja <= j < jb && Spin(start, j, |table|) == q && Connected(table, q)
    ensures Along(table, start, ja) <= Along(table, start, j)
    ensures Along(table, start, j) + [q] <= Along(table, start, jb)
  {
    hide Along, Spin, Connected;
    AlongStep(table, start, j);
    AlongGrows(table, start, ja, j);
    AlongGrows(table, start, j + 1, jb);
  }

  /** Over every run of rounds without history, whatever each of them asks for, on a table that does not
      change: each round goes on where the last one stopped, and no connected peer is chosen a second
      time before every connected peer was chosen. */
  method Rounds(m: InefficientMap, asked: seq<nat>) returns (tokens: seq<nat>, ghost chosen: seq<nat>)
    requires m.Valid() && m.InRange()
    modifies m`next
    ensures m.Valid() && m.InRange()
    ensures AllConnected(m.table, chosen)
    ensures tokens == Writes(m.table, chosen) && Fair(m.table, chosen)
    ensures m.table != [] ==> exists k: nat :: chosen == Along(m.table, old(m.next), k)
                                && m.next == Spin(old(m.next), k, |m.table|)
  {
    hide Along, Spin, Chosen, At, RoundEnds, Writes, Fair;
    tokens, chosen := [], [];
    ghost var k, start := 0, m.next;
    NoPeers(m.table);
    if m.table != [] {
      NothingChosen(m.table, start);
    }
    for i := 0 to |asked|
      invariant m.Valid() && m.InRange()
      invariant m.table == [] ==> chosen == []
      invariant m.table != [] ==> start < |m.table| && chosen == Along(m.table, start, k)
                                  && m.next == Spin(start, k, |m.table|)
      invariant AllConnected(m.table, chosen)
      invariant tokens == Writes(m.table, chosen)
    {
      ghost var pos := m.next;
      var r, _, turns := m.GetClosest(asked[i], None);
      if m.table != [] {
        RoundOnTheWay(m.table, start, k, pos, asked[i], turns);
        WritesAppend(m.table, chosen, Along(m.table, pos, turns));
        chosen, k := chosen + Along(m.table, pos, turns), k + turns;
      }
      tokens := tokens + r;
    }
    if m.table != [] {
      AlongIsFair(m.table, start, k);
    }
  }

  lemma NoPeers(table: seq<Known>)
    ensures AllConnected(table, []) && Writes(table, []) == [] && Fair(table, [])
  {
  }

  /** A round goes on where the rounds before it stopped. */
  lemma RoundOnTheWay(table: seq<Known>, start: nat, k: nat, pos: nat, nb: nat, turns: nat)
    requires start < |table| && pos == Spin(start, k, |table|) && RoundEnds(table, pos, [], nb, turns)
    ensures turns <= |table| && Chosen(table, pos, [], turns) == Along(table, pos, turns)
    ensures At(table, pos, turns) == Spin(start, k + turns, |table|)
    ensures Along(table, start, k + turns) == Along(table, start, k) + Along(table, pos, turns)
  {
    hide Along, Spin, Chosen, At;
    RoundIsAlong(table, pos, turns);
    AlongAlong(table, start, k, turns);
    SpinSpin(start, k, turns, |table|);
  }

  lemma WritesAppend(table: seq<Known>, a: seq<nat>, b: seq<nat>)
    requires AllConnected(table, a) && AllConnected(table, b)
    ensures AllConnected(table, a + b)
    ensures Writes(table, a + b) == Writes(table, a) + Writes(table, b)
  {
  }
}
