/** The route provider of the tunnel: random routes through connected peers. Randomness is an
    input. */
module TunnelRoutes {
  import opened Sequences
  import opened Shuffles

  datatype Peer = Peer(address: int, id: int)

  /** The number of hops drawn: the length, give or take the bias. */
  function HopCount(length: nat, bias: nat, draw: nat): (n: nat)
    requires bias <= length
    ensures length - bias <= n <= length + bias
  {
    if bias > 0 then
      var b := Below(draw, bias * 2 + 1);
      if b > bias then length - bias + b else length - b
    else length
  }

  /** Every number of hops within the bias can be drawn. */
  lemma HopCountOnto(length: nat, bias: nat, n: nat)
    requires bias <= length && length - bias <= n <= length + bias
    ensures exists draw :: HopCount(length, bias, draw) == n
  {
    var draw := if n <= length then length - n else n - length + bias;
    hide Below;
    BelowSmall(draw, bias * 2 + 1);
    assert HopCount(length, bias, draw) == n;
  }

  ghost predicate DistinctAddresses(peers: seq<Peer>) {
    forall i, j :: 0 <= i < j < |peers| ==> peers[i].address != peers[j].address
  }

  /** `swap_remove`: the last entry takes the place of the removed one. */
  function SwapRemove<T>(s: seq<T>, i: nat): (r: seq<T>)
    requires i < |s|
    ensures |r| == |s| - 1
    ensures forall k :: 0 <= k < |r| ==> r[k] == if k == i then s[|s| - 1] else s[k]
  {
    s[i := s[|s| - 1]][..|s| - 1]
  }

  lemma SwapRemoveMultiset<T>(s: seq<T>, i: nat)
    requires i < |s|
    ensures multiset(SwapRemove(s, i)) == multiset(s) - multiset{s[i]}
  {
    var n := |s| - 1;
    var r := SwapRemove(s, i);
    if i == n {
      assert s == r + [s[n]];
    } else {
      var head, mid := s[..i], s[i + 1..n];
      assert s == head + [s[i]] + mid + [s[n]];
      assert r == head + [s[n]] + mid;
    }
  }

  lemma SwapRemoveAddresses(peers: seq<Peer>, i: nat)
    requires i < |peers| && DistinctAddresses(peers)
    ensures DistinctAddresses(SwapRemove(peers, i))
  {
  }

  /** The hops, by their positions among the peers. */
  ghost predicate Hops(route: seq<Peer>, peers: seq<Peer>, picks: seq<nat>) {
    && |route| == |picks| + 2 && Injective(picks, |peers|)
    && forall i :: 0 <= i < |picks| ==> route[i + 1] == peers[picks[i]]
  }

  predicate HasAddress(peers: seq<Peer>, p: nat, address: int) {
    p < |peers| && peers[p].address == address
  }

  /** The first position drawn again that is not us. */
  function FirstNotUs(me: Peer, peers: seq<Peer>, redraws: seq<nat>): Option<nat>
    requires |peers| > 0
  {
    if redraws == [] then None
    else if !HasAddress(peers, Below(redraws[0], |peers|), me.address) then Some(Below(redraws[0], |peers|))
    else FirstNotUs(me, peers, redraws[1..])
  }

  /** Redraw number `k` is the first one that is not us. */
  ghost predicate FirstRedraw(me: Peer, peers: seq<Peer>, redraws: seq<nat>, k: nat)
    requires |peers| > 0
  {
    && k < |redraws| && !HasAddress(peers, Below(redraws[k], |peers|), me.address)
    && forall i :: 0 <= i < k ==> HasAddress(peers, Below(redraws[i], |peers|), me.address)
  }

  lemma {:induction false} FirstNotUsMeaning(me: Peer, peers: seq<Peer>, redraws: seq<nat>)
    requires |peers| > 0
    ensures match FirstNotUs(me, peers, redraws)
            case Some(p) => exists k: nat :: FirstRedraw(me, peers, redraws, k) && p == Below(redraws[k], |peers|)
            case None => forall k :: 0 <= k < |redraws| ==> HasAddress(peers, Below(redraws[k], |peers|), me.address)
  {
    if redraws != [] {
      if HasAddress(peers, Below(redraws[0], |peers|), me.address) {
        FirstNotUsMeaning(me, peers, redraws[1..]);
        if FirstNotUs(me, peers, redraws).Some? {
          var k: nat :| FirstRedraw(me, peers, redraws[1..], k)
                        && FirstNotUs(me, peers, redraws).value == Below(redraws[1..][k], |peers|);
          assert forall i :: 0 < i < |redraws| ==> redraws[i] == redraws[1..][i - 1];
          assert FirstRedraw(me, peers, redraws, k + 1);
        }
      } else {
        assert FirstRedraw(me, peers, redraws, 0);
      }
    }
  }

  /** The drawn positions, corrected when the last one is the destination: the last two are swapped,
      and a single one is drawn again. */
  function Corrected(me: Peer, peers: seq<Peer>, drawn: seq<nat>, redraws: seq<nat>, dest: Peer): Option<seq<nat>>
    requires |peers| > 0 || drawn == []
  {
    var n := |drawn|;
    if n == 0 || !HasAddress(peers, drawn[n - 1], dest.address) then Some(drawn)
    else if n >= 2 then Some(drawn[n - 2 := drawn[n - 1]][n - 1 := drawn[n - 2]])
    else
      match FirstNotUs(me, peers, redraws)
      case Some(p) => Some([p])
      case None => None
  }

  /** The hop before the destination is the destination itself exactly when, with two hops or more, the
      last two drawn both have its address, and with a single hop, the one drawn and the first one
      drawn again that is not us both have it. With distinct addresses it needs a single hop. */
  lemma LastHopIsDestinationIff(me: Peer, peers: seq<Peer>, drawn: seq<nat>, redraws: seq<nat>, dest: Peer)
    requires |peers| > 0 && drawn != [] && Injective(drawn, |peers|)
    requires Corrected(me, peers, drawn, redraws, dest).Some?
    ensures var picks, n := Corrected(me, peers, drawn, redraws, dest).value, |drawn|;
            && |picks| == n && Injective(picks, |peers|)
            && (HasAddress(peers, picks[n - 1], dest.address) <==>
                  && HasAddress(peers, drawn[n - 1], dest.address)
                  && if n >= 2 then HasAddress(peers, drawn[n - 2], dest.address)
                     else var again := FirstNotUs(me, peers, redraws);
                          again.Some? && HasAddress(peers, again.value, dest.address))
            && (DistinctAddresses(peers) && n >= 2 ==> !HasAddress(peers, picks[n - 1], dest.address))
  {
    var n := |drawn|;
    FirstNotUsMeaning(me, peers, redraws);
    if n >= 2 && HasAddress(peers, drawn[n - 1], dest.address) {
      SwapInjective(drawn, drawn[n - 2 := drawn[n - 1]][n - 1 := drawn[n - 2]], n - 2, n - 1, |peers|);
    }
  }

  /** All hops are the drawn ones, each at its own place, except that the last two change places when the
      last one is the destination; only a single hop can be another one. */
  lemma CorrectedPlaces(me: Peer, peers: seq<Peer>, drawn: seq<nat>, redraws: seq<nat>, dest: Peer)
    requires |peers| > 0 || drawn == []
    ensures var n, last := |drawn|, drawn != [] && HasAddress(peers, drawn[|drawn| - 1], dest.address);
            && (!last ==> Corrected(me, peers, drawn, redraws, dest) == Some(drawn))
            && (last && n >= 2 ==>
                  var r := Corrected(me, peers, drawn, redraws, dest);
                  && r.Some? && |r.value| == n && r.value[..n - 2] == drawn[..n - 2]
                  && r.value[n - 2] == drawn[n - 1] && r.value[n - 1] == drawn[n - 2])
            && (last && n == 1 ==>
                  var r := Corrected(me, peers, drawn, redraws, dest);
                  match r
                  case Some(p) =>
                    exists k: nat :: FirstRedraw(me, peers, redraws, k) && p == [Below(redraws[k], |peers|)]
                  case None =>
                    forall k :: 0 <= k < |redraws| ==> HasAddress(peers, Below(redraws[k], |peers|), me.address))
  {
    if |drawn| == 1 {
      FirstNotUsMeaning(me, peers, redraws);
    }
  }

  class Rp {
    var me: Peer
    var peers: seq<Peer>
    var dests: Peer
    var positions: seq<nat>
    var positionsRes: seq<nat>
    var routeLength: nat
    var routeBias: nat

    /** `positions` is a permutation of the indices of the connected peers, and there is room for
        the longest route. */
    ghost predicate Valid()
      reads this
    {
      && |positions| == |peers| && Injective(positions, |peers|)
      && |positionsRes| >= routeLength + routeBias
    }

    constructor (me: Peer, routeLength: nat, routeBias: nat)
      ensures Valid() && this.me == me && peers == [] && this.routeLength == routeLength && this.routeBias == routeBias
    {
      this.me, peers, dests, positions := me, [], me, [];
      positionsRes := seq(routeLength + routeBias, _ => 0);
      this.routeLength, this.routeBias := routeLength, routeBias;
    }

    method ChangeRouteLength(l: nat, b: nat)
      requires Valid() && l >= b
      modifies this`routeLength, this`routeBias, this`positionsRes
      ensures Valid() && routeLength == l && routeBias == b
    {
      routeLength, routeBias := l, b;
      var pl := |positionsRes|;
      if pl < routeLength + routeBias {
        positionsRes := positionsRes + seq(routeLength + routeBias - pl, _ => 0);
      }
    }

    /** How many peers the longest route still needs. */
    function MissingPeer(): (n: nat)
      reads this
      ensures |peers| + n >= routeLength + routeBias
      ensures n > 0 ==> |peers| + n == routeLength + routeBias
    {
      if |peers| < routeLength + routeBias then routeLength + routeBias - |peers| else 0
    }

    method AddOnline(v: Peer)
      requires Valid()
      modifies this`peers, this`positions
      ensures Valid() && peers == old(peers) + [v]
      ensures MissingPeer() == if old(MissingPeer()) > 0 then old(MissingPeer()) - 1 else 0
    {
      positions := positions + [|positions|];
      peers := peers + [v];
    }

    /** Forget the first connected peer with the address of `v`, if there is one. */
    method RemOnline(v: Peer)
      requires Valid()
      modifies this`peers, this`positions
      ensures Valid()
      ensures if exists i :: 0 <= i < |old(peers)| && old(peers)[i].address == v.address
              then exists i :: 0 <= i < |old(peers)| && old(peers)[i].address == v.address
                     && (forall k :: 0 <= k < i ==> old(peers)[k].address != v.address)
                     && peers == SwapRemove(old(peers), i)
                     && multiset(peers) == multiset(old(peers)) - multiset{old(peers)[i]}
              else peers == old(peers)
      ensures old(DistinctAddresses(peers)) ==> DistinctAddresses(peers)
    {
      var found := FirstWith(v.address);
      if found.Some? {
        SwapRemoveMultiset(peers, found.value);
        if DistinctAddresses(peers) {
          SwapRemoveAddresses(peers, found.value);
        }
        hide SwapRemove, DistinctAddresses;
        peers := SwapRemove(peers, found.value);
        DropPosition();
      }
    }

    method FirstWith(address: int) returns (r: Option<nat>)
      ensures match r
              case Some(i) =>
                i < |peers| && peers[i].address == address && forall k :: 0 <= k < i ==> peers[k].address != address
              case None => forall k :: 0 <= k < |peers| ==> peers[k].address != address
    {
      for ix := 0 to |peers|
        invariant forall k :: 0 <= k < ix ==> peers[k].address != address
      {
        if peers[ix].address == address {
          return Some(ix);
        }
      }
      return None;
    }

    /** The largest index no longer exists: take it out of the permutation. */
    method DropPosition()
      requires |positions| == |peers| + 1 && Injective(positions, |positions|)
      modifies this`positions
      ensures |positions| == |peers| && Injective(positions, |peers|)
      ensures exists i :: 0 <= i < |old(positions)| && old(positions)[i] == |peers|
                && positions == SwapRemove(old(positions), i)
    {
      var last := |peers|;
      InjectiveOnto(positions, |positions|, last);
      for ixp := 0 to |positions|
        invariant positions == old(positions)
        invariant forall k :: 0 <= k < ixp ==> positions[k] != last
      {
        if positions[ixp] == last {
          ghost var was := positions;
          positions := SwapRemove(positions, ixp);
          forall k | 0 <= k < |positions| ensures positions[k] < |peers| {
            assert positions[k] == was[if k == ixp then |was| - 1 else k];
          }
          return;
        }
      }
      assert false;
    }

    /** The partial shuffle: `n` different indices, at the front of `positionsRes`. */
    method ShuffleDraw(n: nat, draws: seq<nat>)
      requires Valid() && n <= |peers| && n <= |positionsRes| && |draws| == n
      modifies this`positions, this`positionsRes
      ensures Valid() && |positionsRes| == |old(positionsRes)|
      ensures positions == Pool(old(positions), draws, n)
      ensures positionsRes[..n] == Drawn(old(positions), draws, n) && Injective(positionsRes[..n], |peers|)
    {
      hide Below, Pool, Drawn;
      var cLen := |peers|;
      ghost var start := positions;
      ShuffleStart(start, draws);
      var nbDone := 0;
      while nbDone < n
        invariant nbDone <= n && positions == Pool(start, draws, nbDone)
        invariant |positionsRes| == |old(positionsRes)| && positionsRes[..nbDone] == Drawn(start, draws, nbDone)
      {
        ShuffleStep(start, draws, nbDone);
        var end := cLen - nbDone;
        var pos := Below(draws[nbDone], end);
        ghost var before := positions;
        positionsRes := positionsRes[nbDone := positions[pos]];
        positions := positions[pos := positions[end - 1]];
        positions := positions[end - 1 := positionsRes[nbDone]];
        nbDone := nbDone + 1;
      }
      PoolInjective(start, draws, n, cLen);
    }

    /** Draw a single hop again until it is not us; nothing when the draws run out. */
    method Redraw(redraws: seq<nat>) returns (pick: Option<nat>)
      requires |peers| > 0
      ensures pick == FirstNotUs(me, peers, redraws)
    {
      for k := 0 to |redraws|
        invariant FirstNotUs(me, peers, redraws) == FirstNotUs(me, peers, redraws[k..])
      {
        var pos := Below(redraws[k], |peers|);
        assert redraws[k..][1..] == redraws[k + 1..];
        if peers[pos].address != me.address {
          return Some(pos);
        }
      }
      return None;
    }

    /** A route from us to `other`. Its length is within the bias and its hops are different
        connected peers, those that were drawn, corrected when the last one is the destination.
        A single hop that is the destination is drawn again, which may take more draws than there
        are. */
    method NewRoute(other: Peer, biasDraw: nat, draws: seq<nat>, redraws: seq<nat>)
      returns (route: Option<seq<Peer>>, ghost picks: seq<nat>)
      requires Valid() && routeBias <= routeLength
      requires HopCount(routeLength, routeBias, biasDraw) <= |peers|
      requires |draws| == HopCount(routeLength, routeBias, biasDraw)
      modifies this`positions, this`positionsRes, this`dests
      ensures Valid()
      ensures var fixed := Corrected(me, peers, Drawn(old(positions), draws, |draws|), redraws, other);
              route.Some? == fixed.Some? && (route.Some? ==> picks == fixed.value)
      ensures route.Some? ==>
                && |route.value| == HopCount(routeLength, routeBias, biasDraw) + 2
                && route.value[0] == me && route.value[|route.value| - 1] == other
                && Hops(route.value, peers, picks)
      ensures route.Some? && |draws| >= 2 && DistinctAddresses(peers) ==>
                route.value[|route.value| - 2].address != other.address
    {
      hide Below, Drawn, Pool, HopCount;
      var n := HopCount(routeLength, routeBias, biasDraw);
      ShuffleDraw(n, draws);
      var res := positionsRes[..n];
      ghost var drawn := res;
      if n >= 1 && peers[res[n - 1]].address == other.address {
        if n >= 2 {
          res := res[n - 2 := res[n - 1]][n - 1 := res[n - 2]];
        } else {
          var pick := Redraw(redraws);
          if pick.None? {
            return None, [];
          }
          res := [pick.value];
        }
      }
      if n >= 1 {
        LastHopIsDestinationIff(me, peers, drawn, redraws, other);
      }
      picks := res;
      dests := other;
      route := Some(RouteOf(me, peers, res, dests));
    }

    /** No peer is missing exactly when there are enough peers for every route that can be drawn. */
    lemma EnoughPeersIff()
      requires routeBias <= routeLength
      ensures MissingPeer() == 0 <==> forall draw :: HopCount(routeLength, routeBias, draw) <= |peers|
    {
      HopCountOnto(routeLength, routeBias, routeLength + routeBias);
    }
  }

  /** Us, the hops and the destination. */
  function RouteOf(me: Peer, peers: seq<Peer>, picks: seq<nat>, dest: Peer): (r: seq<Peer>)
    requires Injective(picks, |peers|)
    ensures |r| == |picks| + 2 && r[0] == me && r[|r| - 1] == dest && Hops(r, peers, picks)
  {
    [me] + seq(|picks|, i requires 0 <= i < |picks| => peers[picks[i]]) + [dest]
  }

  /** A route of one hop through the only peer, which is the destination: it is drawn again, and the
      route goes to the destination twice. So does one of two hops, when two peers have one address. */
  method RoutesRepeatDestination(me: Peer, p: Peer) returns (one: Option<seq<Peer>>, two: Option<seq<Peer>>)
    requires me.address != p.address
    ensures one == Some([me, p, p]) && two == Some([me, p, p, p])
  {
    hide Drawn, Pool;
    var rp := new Rp(me, 1, 0);
    rp.AddOnline(p);
    ghost var picks;
    one, picks := rp.NewRoute(p, 0, [0], [0]);
    assert one.value == [me, p, p];
    rp.AddOnline(p);
    rp.ChangeRouteLength(2, 0);
    two, picks := rp.NewRoute(p, 0, [0, 0], []);
    assert rp.peers == [p, p] && picks[0] < 2 && picks[1] < 2;
    assert two.value[0 + 1] == rp.peers[picks[0]] && two.value[1 + 1] == rp.peers[picks[1]];
    assert two.value == [me, p, p, p];
  }
}
