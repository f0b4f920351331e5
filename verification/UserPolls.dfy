/** A poll in user space: an allocator of descriptors and a queue of events. */
module UserPolls {
  import opened Sequences

  datatype Ready = Readable | Writable

  datatype Event = Event(kind: Ready, token: nat)

  const MAX_USIZE: nat := 0xFFFF_FFFF_FFFF_FFFF
  const FD_UNDEFINED: nat := 0

  // ----- Topics: a set of interests in two bits -----

  function AddTopic(bits: bv8, t: Ready): bv8 {
    match t
    case Readable => bits | 1
    case Writable => bits | 2
  }

  function RemoveTopic(bits: bv8, t: Ready): bv8 {
    match t
    case Readable => bits & 0xFE
    case Writable => bits & 0xFD
  }

  predicate HasTopic(bits: bv8, t: Ready) {
    match t
    case Readable => bits | 1 == bits
    case Writable => bits | 2 == bits
  }

  /** The bits behave as a set of the two kinds of readiness. */
  lemma TopicsAreASet(bits: bv8, t: Ready, u: Ready)
    ensures !HasTopic(0, u)
    ensures HasTopic(AddTopic(bits, t), u) <==> u == t || HasTopic(bits, u)
    ensures HasTopic(RemoveTopic(bits, t), u) <==> u != t && HasTopic(bits, u)
  {
  }

  // ----- Descriptors -----

  datatype UserItem = UserItem(token: nat, topics: bv8)

  /** What registering makes of an item: a new one, or one more interest. The token of an item that is
      already there stays. */
  function Joined(item: Option<UserItem>, t: nat, r: Ready): UserItem {
    match item
    case None => UserItem(t, AddTopic(0, r))
    case Some(i) => i.(topics := AddTopic(i.topics, r))
  }

  /** The event of an item that becomes ready, if it is there and interested. */
  function EventOf(item: Option<UserItem>, r: Ready): seq<Event> {
    if item.Some? && HasTopic(item.value.topics, r) then [Event(r, item.value.token)] else []
  }

  /** Registering again adds an interest, loses none, and keeps the token. */
  lemma JoinedKeeps(item: Option<UserItem>, t: nat, r: Ready, u: Ready)
    ensures HasTopic(Joined(item, t, r).topics, u) <==> u == r || (item.Some? && HasTopic(item.value.topics, u))
    ensures Joined(item, t, r).token == if item.Some? then item.value.token else t
  {
    TopicsAreASet(if item.Some? then item.value.topics else 0, r, u);
  }

  lemma JoinedIsInterested(item: Option<UserItem>, t: nat, r: Ready)
    ensures EventOf(Some(Joined(item, t, r)), r) == [Event(r, Joined(item, t, r).token)]
  {
    TopicsAreASet(if item.Some? then item.value.topics else 0, r, r);
  }

  /** The next descriptor; 0 stands for none and is skipped when the numbers start over. */
  function IncL(v: nat): nat {
    if v == MAX_USIZE then 1 else v + 1
  }

  /** The `i`-th descriptor after `v`. */
  function Candidate(v: nat, i: nat): (r: nat)
    requires v <= MAX_USIZE && 1 <= i <= MAX_USIZE
    ensures 1 <= r <= MAX_USIZE && (r == v + i || r + MAX_USIZE == v + i)
  {
    if v + i <= MAX_USIZE then v + i else v + i - MAX_USIZE
  }

  /** All numbers from 1 on are tried before one comes again. */
  lemma CandidatesDiffer(v: nat, i: nat, j: nat)
    requires v <= MAX_USIZE && 1 <= i < j <= MAX_USIZE
    ensures Candidate(v, i) != Candidate(v, j)
  {
  }

  /** Different members of a set are no more than the set has. */
  lemma {:induction false} NoDupInSet(s: seq<nat>, all: set<nat>)
    requires NoDup(s) && forall x :: x in s ==> x in all
    ensures |s| <= |all|
  {
    if s != [] {
      var n := |s| - 1;
      assert s[n] in s;
      NoDupInSet(s[..n], all - {s[n]});
    }
  }

  /** The descriptors right after `last`, all but one of the numbers there are, are all in use. */
  ghost predicate FullAfter(items: map<nat, UserItem>, last: nat)
    requires last <= MAX_USIZE
  {
    forall i :: 1 <= i < MAX_USIZE ==> Candidate(last, i) in items
  }

  /** `fd` is the first number after `last`, around and without 0, that is not in use. */
  ghost predicate FirstFree(items: map<nat, UserItem>, last: nat, fd: nat)
    requires last <= MAX_USIZE
  {
    exists i :: 1 <= i < MAX_USIZE && fd == Candidate(last, i) && fd !in items
      && forall k :: 1 <= k < i ==> Candidate(last, k) in items
  }

  /** Something that can be registered; it remembers the descriptor that the poll gave it. */
  class UserRegistration {
    var fd: nat

    constructor ()
      ensures fd == FD_UNDEFINED
    {
      fd := FD_UNDEFINED;
    }
  }

  class UserPoll {
    var items: map<nat, UserItem>
    var evQueue: seq<Event>
    var lastNewFd: nat
    const suspendable: bool

    ghost predicate Valid()
      reads this
    {
      lastNewFd <= MAX_USIZE && forall k :: k in items ==> 1 <= k <= MAX_USIZE
    }

    /** The live descriptors are exactly those of the registered ones among `regs`, all different. */
    ghost predicate Consistent(regs: set<UserRegistration>)
      reads this, regs
    {
      && Valid()
      && (forall r :: r in regs && r.fd != FD_UNDEFINED ==> r.fd in items)
      && (forall r, q :: r in regs && q in regs && r != q && r.fd == q.fd ==> r.fd == FD_UNDEFINED)
      && forall k :: k in items ==> exists r :: r in regs && r.fd == k
    }

    /** The queued events, oldest first. */
    ghost function Queued(): seq<Event>
      reads this
    {
      Reversed(evQueue)
    }

    constructor (suspendable: bool)
      ensures Valid() && items == map[] && Queued() == [] && this.suspendable == suspendable
    {
      items, evQueue, lastNewFd := map[], [], FD_UNDEFINED;
      this.suspendable := suspendable;
    }

    /** Search for a free descriptor, starting after the last one given. It fails exactly when all
        numbers but one are found in use. */
    method NewFd(token: nat, r: Ready) returns (newFd: Option<nat>)
      requires Valid()
      modifies this`items, this`lastNewFd
      ensures Valid()
      ensures newFd.None? <==> FullAfter(old(items), old(lastNewFd))
      ensures newFd.None? ==> |old(items)| >= MAX_USIZE - 1 && items == old(items) && lastNewFd == old(lastNewFd)
      ensures newFd.Some? ==>
                && newFd.value != FD_UNDEFINED && newFd.value !in old(items) && lastNewFd == newFd.value
                && FirstFree(old(items), old(lastNewFd), newFd.value)
                && items == old(items)[newFd.value := UserItem(token, AddTopic(0, r))]
    {
      var topics := AddTopic(0, r);
      var fd := IncL(lastNewFd);
      var i := 1;
      while fd in items
        invariant 1 <= i < MAX_USIZE && fd == Candidate(lastNewFd, i)
        invariant forall k :: 1 <= k < i ==> Candidate(lastNewFd, k) in items
        decreases MAX_USIZE - i
      {
        fd := IncL(fd);
        i := i + 1;
        if i == MAX_USIZE {
          assert FullAfter(items, lastNewFd);
          FullIsLarge(items, lastNewFd);
          return None;
        }
      }
      assert Candidate(lastNewFd, i) !in items;
      lastNewFd := fd;
      items := items[fd := UserItem(token, topics)];
      return Some(fd);
    }

    /** The item of a descriptor. */
    function ItemAt(fd: nat): Option<UserItem>
      reads this
    {
      if fd in items then Some(items[fd]) else None
    }

    /** Add a new descriptor, or one more interest. False when the poll is full. */
    method CtlAdd(e: UserRegistration, t: nat, r: Ready, ghost regs: set<UserRegistration>) returns (ok: bool)
      requires Consistent(regs) && e in regs
      modifies this`items, this`lastNewFd, e
      ensures Consistent(regs)
      ensures !ok <==> old(e.fd) == FD_UNDEFINED && FullAfter(old(items), old(lastNewFd))
      ensures !ok ==> items == old(items) && e.fd == FD_UNDEFINED && |items| >= MAX_USIZE - 1
      ensures ok ==> e.fd != FD_UNDEFINED && items == old(items)[e.fd := Joined(old(ItemAt(e.fd)), t, r)]
      ensures ok ==> if old(e.fd) == FD_UNDEFINED then e.fd !in old(items) else e.fd == old(e.fd)
    {
      hide FullAfter, AddTopic, Candidate;
      if e.fd == FD_UNDEFINED {
        var newFd := NewFd(t, r);
        if newFd.None? {
          return false;
        }
        forall k | k in items ensures exists q :: q in regs && (if q == e then newFd.value else q.fd) == k {
          if k != newFd.value {
            assert k in old(items);
            var q :| q in regs && q.fd == k;
          }
        }
        e.fd := newFd.value;
      } else {
        var item := items[e.fd];
        items := items[e.fd := item.(topics := AddTopic(item.topics, r))];
      }
      return true;
    }

    /** Remove the descriptor; nothing happens to one that is not registered. */
    method CtlRem(e: UserRegistration, ghost regs: set<UserRegistration>)
      requires Consistent(regs) && e in regs
      modifies this`items, e
      ensures Consistent(regs) && e.fd == FD_UNDEFINED && items == old(items) - {old(e.fd)}
    {
      var fdp := e.fd;
      e.fd := FD_UNDEFINED;
      items := items - {fdp};
    }

    /** Queue an event, if somebody is interested. */
    method TriggerEvent(fd: nat, ready: Ready)
      requires Valid()
      modifies this`evQueue
      ensures Queued() == old(Queued()) + EventOf(ItemAt(fd), ready)
    {
      if fd in items {
        if HasTopic(items[fd].topics, ready) {
          evQueue := [Event(ready, items[fd].token)] + evQueue;
        }
      }
    }

    /** Register, and be ready at once. */
    method Register(e: UserRegistration, t: nat, r: Ready, ghost regs: set<UserRegistration>) returns (ok: bool)
      requires Consistent(regs) && e in regs
      modifies this`items, this`lastNewFd, this`evQueue, e
      ensures Consistent(regs)
      ensures !ok <==> old(e.fd) == FD_UNDEFINED && FullAfter(old(items), old(lastNewFd))
      ensures !ok ==> items == old(items) && e.fd == FD_UNDEFINED && |items| >= MAX_USIZE - 1
      ensures ok ==> e.fd != FD_UNDEFINED && items == old(items)[e.fd := Joined(old(ItemAt(e.fd)), t, r)]
      ensures ok ==> if old(e.fd) == FD_UNDEFINED then e.fd !in old(items) else e.fd == old(e.fd)
      ensures Queued() == old(Queued()) + if ok then [Event(r, Joined(old(ItemAt(e.fd)), t, r).token)] else []
    {
      hide FullAfter, Joined, EventOf;
      ok := CtlAdd(e, t, r, regs);
      if ok {
        JoinedIsInterested(old(ItemAt(e.fd)), t, r);
        TriggerEvent(e.fd, r);
      }
    }

    /** `set_readiness`: trigger the event, if registered. */
    method SetReadiness(e: UserRegistration, ready: Ready)
      requires Valid()
      modifies this`evQueue
      ensures Queued() == old(Queued()) + EventOf(ItemAt(e.fd), ready)
    {
      if e.fd != FD_UNDEFINED {
        TriggerEvent(e.fd, ready);
      }
    }

    /** Move the oldest events into `events`, whose previous content is dropped. A poll that may be
        suspended yields when there is nothing. */
    method Poll(events: UserEvents) returns (n: Option<nat>)
      requires Valid()
      modifies this`evQueue, events`content
      ensures n.None? <==> suspendable && old(Queued()) == []
      ensures n.None? ==> Queued() == old(Queued()) && events.content == old(events.content)
      ensures n.Some? ==>
                && n.value == |events.content| == Min(events.sizeLimit, |old(Queued())|)
                && events.Pending() + Queued() == old(Queued())
    {
      var ql := |evQueue|;
      if suspendable && ql == 0 {
        return None;
      }
      var nbMov := Min(events.sizeLimit, ql);
      ReversedSplit(evQueue, ql - nbMov);
      events.content := evQueue[ql - nbMov..];
      evQueue := evQueue[..ql - nbMov];
      return Some(|events.content|);
    }
  }

  class UserEvents {
    const sizeLimit: nat
    var content: seq<Event>

    ghost function Pending(): seq<Event>
      reads this
    {
      Reversed(content)
    }

    constructor (s: nat)
      ensures sizeLimit == s && Pending() == []
    {
      sizeLimit, content := s, [];
    }

    /** The next event, oldest first. */
    method Next() returns (e: Option<Event>)
      modifies this`content
      ensures match e
              case Some(x) => old(Pending()) == [x] + Pending()
              case None => old(Pending()) == [] && Pending() == []
    {
      if content == [] {
        return None;
      }
      var n := |content| - 1;
      ReversedSplit(content, n);
      e := Some(content[n]);
      assert Reversed(content[n..]) == [content[n]];
      content := content[..n];
    }
  }

  ghost function Reversed(s: seq<Event>): (r: seq<Event>)
    ensures |r| == |s| && forall i :: 0 <= i < |s| ==> r[i] == s[|s| - 1 - i]
  {
    seq(|s|, i requires 0 <= i < |s| => s[|s| - 1 - i])
  }

  lemma ReversedSplit(s: seq<Event>, k: nat)
    requires k <= |s|
    ensures Reversed(s) == Reversed(s[k..]) + Reversed(s[..k])
  {
  }

  /** A search that fails has seen as many live descriptors as there are numbers, but one. */
  lemma FullIsLarge(items: map<nat, UserItem>, last: nat)
    requires last <= MAX_USIZE && FullAfter(items, last)
    ensures |items| >= MAX_USIZE - 1
  {
    var seen := seq(MAX_USIZE - 1, i requires 0 <= i < MAX_USIZE - 1 => Candidate(last, i + 1));
    forall i, j | 0 <= i < j < |seen| ensures seen[i] != seen[j] {
      CandidatesDiffer(last, i + 1, j + 1);
    }
    NoDupInSet(seen, items.Keys);
    assert |items| == |items.Keys|;
  }

  // ----- Runs: triggered events arrive once and in order -----

  /** What can happen to a poll and the registrations numbered `who`. */
  datatype Action =
    | Register(who: nat, token: nat, ready: Ready)
    | Reregister(who: nat, token: nat, ready: Ready)
    | Deregister(who: nat)
    | SetReady(who: nat, ready: Ready)
    | PollAll

  /** The item of every registration, if it is registered. */
  type Live = seq<Option<UserItem>>

  predicate About(n: nat, a: Action) {
    a.PollAll? || a.who < n
  }

  /** The registrations after an action; `ok` is whether it succeeded. */
  function LiveStep(live: Live, a: Action, ok: bool): (r: Live)
    requires About(|live|, a)
    ensures |r| == |live|
  {
    match a
    case Register(who, t, r) => if ok then live[who := Some(Joined(live[who], t, r))] else live
    case Reregister(who, t, r) => if ok then live[who := Some(Joined(live[who], t, r))] else live
    case Deregister(who) => live[who := None]
    case SetReady(_, _) => live
    case PollAll => live
  }

  /** The events that an action triggers, given the registrations of that moment. */
  function FiredBy(live: Live, a: Action, ok: bool): seq<Event>
    requires About(|live|, a)
  {
    match a
    case Register(who, t, r) => if ok then [Event(r, Joined(live[who], t, r).token)] else []
    case SetReady(who, r) => EventOf(live[who], r)
    case _ => []
  }

  ghost predicate AllAbout(n: nat, actions: seq<Action>) {
    forall i :: 0 <= i < |actions| ==> About(n, actions[i])
  }

  function LiveAfter(n: nat, actions: seq<Action>, oks: seq<bool>): (r: Live)
    requires AllAbout(n, actions) && |oks| == |actions|
    ensures |r| == n
  {
    if actions == [] then seq(n, _ => None)
    else
      var k := |actions| - 1;
      LiveStep(LiveAfter(n, actions[..k], oks[..k]), actions[k], oks[k])
  }

  /** All events of a run, in order. */
  function Triggered(n: nat, actions: seq<Action>, oks: seq<bool>): seq<Event>
    requires AllAbout(n, actions) && |oks| == |actions|
  {
    if actions == [] then []
    else
      var k := |actions| - 1;
      Triggered(n, actions[..k], oks[..k]) + FiredBy(LiveAfter(n, actions[..k], oks[..k]), actions[k], oks[k])
  }

  function CountLive(live: Live): nat {
    if live == [] then 0 else CountLive(live[..|live| - 1]) + if live[|live| - 1].Some? then 1 else 0
  }

  ghost function SetOf(regs: seq<UserRegistration>): set<UserRegistration> {
    set r | r in regs
  }

  /** The poll knows exactly these items, under descriptors that are not 0 and all different. */
  ghost predicate Tracks(poll: UserPoll, regs: seq<UserRegistration>, live: Live)
    reads poll, regs
  {
    && NoDup(regs) && |live| == |regs| && poll.Consistent(SetOf(regs))
    && forall k :: 0 <= k < |regs| ==> live[k] == poll.ItemAt(regs[k].fd)
  }

  // ----- What a registration means, by the actions alone -----

  /** Action `i` is a successful registration of `who`. */
  predicate Joins(actions: seq<Action>, oks: seq<bool>, who: nat, i: nat) {
    i < |actions| && i < |oks| && oks[i] && (actions[i].Register? || actions[i].Reregister?) && actions[i].who == who
  }

  /** `who` deregisters between action `i` and action `n`. */
  ghost predicate LeavesBetween(actions: seq<Action>, who: nat, i: nat, n: nat) {
    exists j :: i < j < n && j < |actions| && actions[j] == Deregister(who)
  }

  /** Action `i` registers `who` for `u`, and `who` has not deregistered since. */
  ghost predicate Interest(actions: seq<Action>, oks: seq<bool>, who: nat, u: Ready, i: nat) {
    Joins(actions, oks, who, i) && actions[i].ready == u && !LeavesBetween(actions, who, i, |actions|)
  }

  /** Action `i` is the first registration of `who` that still holds. */
  ghost predicate FirstSince(actions: seq<Action>, oks: seq<bool>, who: nat, i: nat) {
    && Joins(actions, oks, who, i) && !LeavesBetween(actions, who, i, |actions|)
    && forall k: nat :: k < i && Joins(actions, oks, who, k) ==> LeavesBetween(actions, who, k, i)
  }

  /** A registration is interested in exactly what it was registered for since it last deregistered, and has
      the token of the first registration since then. */
  lemma {:induction false} LiveMeaning(n: nat, actions: seq<Action>, oks: seq<bool>, who: nat, u: Ready)
    requires AllAbout(n, actions) && |oks| == |actions| && who < n
    ensures var item := LiveAfter(n, actions, oks)[who];
            && (item.Some? && HasTopic(item.value.topics, u) <==> exists i: nat :: Interest(actions, oks, who, u, i))
            && (item.Some? <==> exists i: nat :: FirstSince(actions, oks, who, i))
            && (forall i: nat :: FirstSince(actions, oks, who, i) ==>
                  item.Some? && item.value.token == actions[i].token)
  {
    if actions != [] {
      hide HasTopic, AddTopic, Joined;
      var k := |actions| - 1;
      LiveMeaning(n, actions[..k], oks[..k], who, u);
      var before := LiveAfter(n, actions[..k], oks[..k])[who];
      if Joins(actions, oks, who, k) {
        JoinedKeeps(before, actions[k].token, actions[k].ready, u);
        JoinSnoc(actions, oks, who, u);
      } else if actions[k] == Deregister(who) {
        LeaveSnoc(actions, oks, who, u);
      } else {
        OtherSnoc(actions, oks, who, u);
      }
    }
  }

  lemma BetweenSnoc(actions: seq<Action>, who: nat, i: nat, n: nat)
    requires actions != []
    ensures var k := |actions| - 1;
            && (n <= k ==> (LeavesBetween(actions, who, i, n) <==> LeavesBetween(actions[..k], who, i, n)))
            && (n == k + 1 ==> (LeavesBetween(actions, who, i, n) <==>
                  LeavesBetween(actions[..k], who, i, k) || (i < k && actions[k] == Deregister(who))))
  {
    var k := |actions| - 1;
    assert forall j :: 0 <= j < k ==> actions[..k][j] == actions[j];
  }

  /** What happened before the last action stays as it was, unless that is the end of the registration. */
  lemma SinceSnoc(actions: seq<Action>, oks: seq<bool>, who: nat, u: Ready, i: nat)
    requires |oks| == |actions| && i < |actions| - 1 && actions[|actions| - 1] != Deregister(who)
    ensures var k := |actions| - 1;
            && (Interest(actions, oks, who, u, i) <==> Interest(actions[..k], oks[..k], who, u, i))
            && (FirstSince(actions, oks, who, i) <==> FirstSince(actions[..k], oks[..k], who, i))
  {
    var k := |actions| - 1;
    BetweenSnoc(actions, who, i, k + 1);
    forall h: nat | h < i
      ensures Joins(actions, oks, who, h) <==> Joins(actions[..k], oks[..k], who, h)
      ensures LeavesBetween(actions, who, h, i) <==> LeavesBetween(actions[..k], who, h, i)
    {
      BetweenSnoc(actions, who, h, i);
    }
  }

  /** Whoever registered and has not left has a first registration that still holds. */
  lemma {:induction false} FirstExists(actions: seq<Action>, oks: seq<bool>, who: nat, j: nat)
    requires Joins(actions, oks, who, j) && !LeavesBetween(actions, who, j, |actions|)
    ensures exists i: nat :: FirstSince(actions, oks, who, i)
    decreases j
  {
    if h: nat :| h < j && Joins(actions, oks, who, h) && !LeavesBetween(actions, who, h, j) {
      FirstExists(actions, oks, who, h);
    } else {
      assert FirstSince(actions, oks, who, j);
    }
  }

  lemma JoinSnoc(actions: seq<Action>, oks: seq<bool>, who: nat, u: Ready)
    requires actions != [] && |oks| == |actions| && Joins(actions, oks, who, |actions| - 1)
    ensures var k := |actions| - 1;
            && ((exists i: nat :: Interest(actions, oks, who, u, i)) <==>
                  actions[k].ready == u || exists i: nat :: Interest(actions[..k], oks[..k], who, u, i))
            && (forall i: nat :: FirstSince(actions, oks, who, i) <==>
                  FirstSince(actions[..k], oks[..k], who, i)
                  || (i == k && !exists j: nat :: FirstSince(actions[..k], oks[..k], who, j)))
            && exists i: nat :: FirstSince(actions, oks, who, i)
  {
    var k := |actions| - 1;
    forall i: nat | i < k
      ensures Interest(actions, oks, who, u, i) <==> Interest(actions[..k], oks[..k], who, u, i)
      ensures FirstSince(actions, oks, who, i) <==> FirstSince(actions[..k], oks[..k], who, i)
    {
      SinceSnoc(actions, oks, who, u, i);
    }
    assert Interest(actions, oks, who, u, k) <==> actions[k].ready == u;
    FirstAtEnd(actions, oks, who);
    FirstExists(actions, oks, who, k);
  }

  lemma FirstAtEnd(actions: seq<Action>, oks: seq<bool>, who: nat)
    requires actions != [] && |oks| == |actions| && Joins(actions, oks, who, |actions| - 1)
    ensures var k := |actions| - 1;
            FirstSince(actions, oks, who, k) <==> !exists j: nat :: FirstSince(actions[..k], oks[..k], who, j)
  {
    var k := |actions| - 1;
    forall h: nat | h < k
      ensures Joins(actions, oks, who, h) <==> Joins(actions[..k], oks[..k], who, h)
      ensures LeavesBetween(actions, who, h, k) <==> LeavesBetween(actions[..k], who, h, k)
    {
      BetweenSnoc(actions, who, h, k);
    }
    if !FirstSince(actions, oks, who, k) {
      var h: nat :| h < k && Joins(actions, oks, who, h) && !LeavesBetween(actions, who, h, k);
      FirstExists(actions[..k], oks[..k], who, h);
    }
  }

  lemma LeaveSnoc(actions: seq<Action>, oks: seq<bool>, who: nat, u: Ready)
    requires actions != [] && |oks| == |actions| && actions[|actions| - 1] == Deregister(who)
    ensures forall i: nat :: !Interest(actions, oks, who, u, i) && !FirstSince(actions, oks, who, i)
  {
    forall i: nat ensures !Interest(actions, oks, who, u, i) && !FirstSince(actions, oks, who, i) {
      BetweenSnoc(actions, who, i, |actions|);
    }
  }

  lemma OtherSnoc(actions: seq<Action>, oks: seq<bool>, who: nat, u: Ready)
    requires actions != [] && |oks| == |actions| && !Joins(actions, oks, who, |actions| - 1)
    requires actions[|actions| - 1] != Deregister(who)
    ensures var k := |actions| - 1;
            forall i: nat ::
              && (Interest(actions, oks, who, u, i) <==> Interest(actions[..k], oks[..k], who, u, i))
              && (FirstSince(actions, oks, who, i) <==> FirstSince(actions[..k], oks[..k], who, i))
  {
    var k := |actions| - 1;
    forall i: nat | i < k
      ensures Interest(actions, oks, who, u, i) <==> Interest(actions[..k], oks[..k], who, u, i)
      ensures FirstSince(actions, oks, who, i) <==> FirstSince(actions[..k], oks[..k], who, i)
    {
      SinceSnoc(actions, oks, who, u, i);
    }
  }

  /** Becoming ready fires exactly when `who` is registered for it since it last deregistered, with the token
      of the first registration since then. */
  lemma SetReadyFiresIff(n: nat, actions: seq<Action>, oks: seq<bool>, who: nat, u: Ready)
    requires AllAbout(n, actions) && |oks| == |actions| && who < n
    ensures var fired := FiredBy(LiveAfter(n, actions, oks), SetReady(who, u), true);
            && (fired != [] <==> exists i: nat :: Interest(actions, oks, who, u, i))
            && (fired != [] ==>
                  exists i: nat :: FirstSince(actions, oks, who, i) && fired == [Event(u, actions[i].token)])
  {
    LiveMeaning(n, actions, oks, who, u);
  }

  /** Nothing else fires. */
  lemma OthersDoNotFire(live: Live, a: Action, ok: bool)
    requires About(|live|, a) && (a.Reregister? || a.Deregister? || a.PollAll?)
    ensures FiredBy(live, a, ok) == []
  {
  }

  /** Registering fires at once, if it succeeds, with the token of the first registration since `who` last
      deregistered, which may be this one. */
  lemma RegisterFires(n: nat, actions: seq<Action>, oks: seq<bool>, who: nat, t: nat, r: Ready)
    requires AllAbout(n, actions) && |oks| == |actions| && who < n
    ensures var live, now := LiveAfter(n, actions, oks), actions + [Register(who, t, r)];
            && FiredBy(live, Register(who, t, r), false) == []
            && exists i: nat :: FirstSince(now, oks + [true], who, i)
                 && FiredBy(live, Register(who, t, r), true) == [Event(r, now[i].token)]
  {
    var now := actions + [Register(who, t, r)];
    assert now[..|actions|] == actions && (oks + [true])[..|oks|] == oks;
    LiveMeaning(n, now, oks + [true], who, r);
    JoinSnoc(now, oks + [true], who, r);
  }

  /** Descriptors that are in use are no more than the registrations that have one. */
  lemma {:induction false} FdsAreFew(fds: seq<nat>, used: set<nat>, live: Live)
    requires |live| == |fds| && forall k :: 0 <= k < |fds| && fds[k] in used ==> live[k].Some?
    requires forall x :: x in used ==> x in fds
    ensures |used| <= CountLive(live)
  {
    if fds == [] {
      assert used == {};
    } else {
      var n := |fds| - 1;
      FdsAreFew(fds[..n], used - {fds[n]}, live[..n]);
    }
  }

  lemma ItemsAreFew(poll: UserPoll, regs: seq<UserRegistration>, live: Live)
    requires Tracks(poll, regs, live)
    ensures |poll.items| <= CountLive(live)
  {
    var fds := seq(|regs|, k requires 0 <= k < |regs| reads regs => regs[k].fd);
    forall x | x in poll.items.Keys ensures x in fds {
      var r :| r in SetOf(regs) && r.fd == x;
      var k :| 0 <= k < |regs| && regs[k] == r;
      assert fds[k] == x;
    }
    FdsAreFew(fds, poll.items.Keys, live);
    assert |poll.items| == |poll.items.Keys|;
  }

  /** Registration number `who` got the item `item`, and everything else is as it was. */
  lemma TracksJoined(poll: UserPoll, regs: seq<UserRegistration>, who: nat, live: Live, fds: seq<nat>,
                     before: map<nat, UserItem>, item: UserItem)
    requires NoDup(regs) && who < |regs| == |live| == |fds| && poll.Consistent(SetOf(regs))
    requires regs[who].fd != FD_UNDEFINED && poll.items == before[regs[who].fd := item]
    requires forall k :: 0 <= k < |regs| && k != who ==>
               regs[k].fd == fds[k] && live[k] == if fds[k] in before then Some(before[fds[k]]) else None
    ensures Tracks(poll, regs, live[who := Some(item)])
  {
    forall k | 0 <= k < |regs| && k != who ensures poll.ItemAt(regs[k].fd) == live[k] {
      assert regs[k] in SetOf(regs) && regs[who] in SetOf(regs) && regs[k] != regs[who];
    }
  }

  /** Registration number `who` registers, and is ready at once if `ready`. */
  method Join(poll: UserPoll, regs: seq<UserRegistration>, who: nat, t: nat, r: Ready, ready: bool, ghost live: Live)
    returns (ok: bool)
    requires Tracks(poll, regs, live) && who < |regs|
    modifies poll, regs[who]
    ensures Tracks(poll, regs, if ok then live[who := Some(Joined(live[who], t, r))] else live)
    ensures poll.Queued() == old(poll.Queued()) + if ok && ready then [Event(r, Joined(live[who], t, r).token)] else []
    ensures !ok ==> CountLive(live) >= MAX_USIZE - 1
  {
    hide FullAfter, Joined, CountLive, UserPoll.Consistent;
    ItemsAreFew(poll, regs, live);
    ghost var fds := seq(|regs|, k requires 0 <= k < |regs| reads regs => regs[k].fd);
    ghost var before := poll.items;
    if ready {
      ok := poll.Register(regs[who], t, r, SetOf(regs));
    } else {
      ok := poll.CtlAdd(regs[who], t, r, SetOf(regs));
    }
    if ok {
      TracksJoined(poll, regs, who, live, fds, before, Joined(live[who], t, r));
    }
  }

  /** Registration number `who` deregisters. */
  method Leave(poll: UserPoll, regs: seq<UserRegistration>, who: nat, ghost live: Live)
    requires Tracks(poll, regs, live) && who < |regs|
    modifies poll`items, regs[who]
    ensures Tracks(poll, regs, live[who := None])
  {
    ghost var fds := seq(|regs|, k requires 0 <= k < |regs| reads regs => regs[k].fd);
    poll.CtlRem(regs[who], SetOf(regs));
    forall k | 0 <= k < |regs| && k != who ensures regs[k].fd == fds[k] && poll.ItemAt(regs[k].fd) == live[k] {
      assert regs[k] in SetOf(regs);
    }
  }

  /** One action of a run. It fails only when as many registrations are live as there are numbers,
      but one. */
  method Act(poll: UserPoll, events: UserEvents, regs: seq<UserRegistration>, a: Action, ghost live: Live)
    returns (ok: bool, batch: seq<Event>)
    requires Tracks(poll, regs, live) && About(|regs|, a) && events.Pending() == []
    modifies poll, events`content, regs
    ensures Tracks(poll, regs, LiveStep(live, a, ok)) && events.Pending() == []
    ensures batch + poll.Queued() == old(poll.Queued()) + FiredBy(live, a, ok)
    ensures !ok ==> FailsFull(live, a)
  {
    hide Joined, EventOf, CountLive;
    ok, batch := true, [];
    match a {
      case Register(who, t, r) =>
        ok := Join(poll, regs, who, t, r, true, live);
      case Reregister(who, t, r) =>
        ok := Join(poll, regs, who, t, r, false, live);
      case Deregister(who) =>
        Leave(poll, regs, who, live);
      case SetReady(who, r) =>
        poll.SetReadiness(regs[who], r);
      case PollAll =>
        var _ := poll.Poll(events);
        batch := Drain(events);
    }
  }

  /** The action is a registration that finds the poll full. */
  predicate FailsFull(live: Live, a: Action) {
    (a.Register? || a.Reregister?) && CountLive(live) >= MAX_USIZE - 1
  }

  /** Every action that failed found the poll full. */
  ghost predicate FailOnlyFull(n: nat, actions: seq<Action>, oks: seq<bool>)
    requires AllAbout(n, actions) && |oks| == |actions|
  {
    forall i :: 0 <= i < |actions| && !oks[i] ==> FailsFull(LiveAfter(n, actions[..i], oks[..i]), actions[i])
  }

  /** One more action at the end of a run. */
  lemma RunSnoc(n: nat, actions: seq<Action>, oks: seq<bool>, ok: bool)
    requires |oks| < |actions| && AllAbout(n, actions)
    ensures var k := |oks|;
            var before := actions[..k];
            var live := LiveAfter(n, before, oks);
            && About(n, actions[k])
            && LiveAfter(n, actions[..k + 1], oks + [ok]) == LiveStep(live, actions[k], ok)
            && Triggered(n, actions[..k + 1], oks + [ok]) == Triggered(n, before, oks) + FiredBy(live, actions[k], ok)
            && (FailOnlyFull(n, before, oks) && (!ok ==> FailsFull(live, actions[k])) ==>
                  FailOnlyFull(n, actions[..k + 1], oks + [ok]))
  {
    hide LiveStep, FiredBy, FailsFull, About;
    var k := |oks|;
    assert actions[..k + 1][..k] == actions[..k] && (oks + [ok])[..k] == oks;
    forall i | 0 <= i < k ensures actions[..k + 1][..i] == actions[..k][..i] && (oks + [ok])[..i] == oks[..i] {
    }
  }

  /** Over every run of registering, deregistering, becoming ready and polling on a new poll, where
      each batch is drained before the next poll: the events delivered, followed by those still
      queued, are exactly the events triggered, in order; live descriptors are never 0 and all
      different; and an action fails only when the poll is full. */
  method RunEvents(poll: UserPoll, events: UserEvents, regs: seq<UserRegistration>, actions: seq<Action>)
    returns (delivered: seq<Event>, oks: seq<bool>)
    requires NoDup(regs) && (forall r :: r in regs ==> r.fd == FD_UNDEFINED) && AllAbout(|regs|, actions)
    requires poll.Valid() && poll.items == map[] && poll.Queued() == [] && events.Pending() == []
    modifies poll, events`content, regs
    ensures |oks| == |actions| && events.Pending() == []
    ensures delivered + poll.Queued() == Triggered(|regs|, actions, oks)
    ensures Tracks(poll, regs, LiveAfter(|regs|, actions, oks)) && FailOnlyFull(|regs|, actions, oks)
  {
    delivered, oks := [], [];
    assert Tracks(poll, regs, LiveAfter(|regs|, [], []));
    hide Tracks, LiveAfter, Triggered, LiveStep, FiredBy, FailsFull, About, FailOnlyFull;
    for i := 0 to |actions|
      invariant |oks| == i && events.Pending() == [] && AllAbout(|regs|, actions[..i])
      invariant Tracks(poll, regs, LiveAfter(|regs|, actions[..i], oks)) && FailOnlyFull(|regs|, actions[..i], oks)
      invariant delivered + poll.Queued() == Triggered(|regs|, actions[..i], oks)
    {
      ghost var live := LiveAfter(|regs|, actions[..i], oks);
      RunSnoc(|regs|, actions, oks, true);
      ghost var queued := poll.Queued();
      var ok, batch := Act(poll, events, regs, actions[i], live);
      RunSnoc(|regs|, actions, oks, ok);
      Associative(delivered, batch, poll.Queued());
      Associative(delivered, queued, FiredBy(live, actions[i], ok));
      delivered, oks := delivered + batch, oks + [ok];
    }
    assert actions[..|actions|] == actions;
  }

  /** Take all events of a batch. */
  method Drain(events: UserEvents) returns (batch: seq<Event>)
    modifies events`content
    ensures batch == old(events.Pending()) && events.Pending() == []
  {
    batch := [];
    var more := true;
    while more
      invariant batch + events.Pending() == old(events.Pending())
      invariant !more ==> events.Pending() == []
      decreases more, |events.Pending()|
    {
      var e := events.Next();
      match e {
        case Some(x) => batch := batch + [x];
        case None => more := false;
      }
    }
  }

  /** A poll conserves events exactly when the batch before it was drained, or when it yields and so
      leaves that batch alone. */
  method PollConserves(poll: UserPoll, events: UserEvents) returns (kept: bool)
    requires poll.Valid()
    modifies poll`evQueue, events`content
    ensures kept <==> old(events.Pending()) == [] || (poll.suspendable && old(poll.Queued()) == [])
    ensures kept <==> events.Pending() + poll.Queued() == old(events.Pending() + poll.Queued())
  {
    kept := events.content == [] || (poll.suspendable && poll.evQueue == []);
    ghost var had := events.Pending();
    var _ := poll.Poll(events);
    assert |had + old(poll.Queued())| == |had| + |old(poll.Queued())|;
  }

  /** Two events, and two polls for one event each without draining the first: the first event is
      neither pending nor queued any more. */
  method PollLosesEvent() returns (poll: UserPoll, events: UserEvents)
    ensures poll.Queued() == [] && events.Pending() == [Event(Writable, 7)]
  {
    poll := new UserPoll(false);
    events := new UserEvents(1);
    var e := new UserRegistration();
    assert !FullAfter(poll.items, 0) by {
      assert Candidate(0, 1) !in poll.items;
    }
    var ok := poll.Register(e, 7, Readable, {e});
    ok := poll.Register(e, 7, Writable, {e});
    assert poll.Queued() == [Event(Readable, 7), Event(Writable, 7)];
    var _ := poll.Poll(events);
    assert poll.Queued() == [Event(Readable, 7), Event(Writable, 7)][1..];
    var _ := poll.Poll(events);
    assert events.Pending() + poll.Queued() == [Event(Writable, 7)];
  }
}
