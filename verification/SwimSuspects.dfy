/**
 The suspect list of a SWIM node over a whole run, and when the suspicion timer declares a member
 dead (swim_member_update_suspected).

 crt_swim_cli_cb writes DEAD without touching the list.  So the time a member has spent on the
 list is what the timer guarantees; that it was SUSPECT all that time holds exactly when no
 acknowledged message to it failed.
 */
module SwimSuspects {
  import opened SwimMember
  import opened SwimContext
  import opened SwimNode

  ghost predicate TimerInv(n: Node) {
    NodeInv(n) && n.context.book.pingTimeout >= PING_TIMEOUT
  }

  ghost function At(n: Node, events: seq<Event>, i: nat): Context
    requires i <= |events|
  {
    Run(n, events[..i]).context
  }

  predicate MarkedDead(before: Context, after: Context, x: nat) {
    && x in before.book.members && before.book.members[x].status != Dead
    && x in after.book.members && after.book.members[x].status == Dead
  }

  // ---- the suspect list ----

  /** The deadline of the suspicion of x, or -1 if it is not on the list. */
  function DeadlineOf(items: seq<Item>, x: nat): int {
    if items == [] then -1 else if items[0].id == x then items[0].deadline else DeadlineOf(items[1..], x)
  }

  lemma {:induction false} DeadlineAt(items: seq<Item>, k: nat)
    requires DistinctItems(items) && k < |items|
    ensures DeadlineOf(items, items[k].id) == items[k].deadline
    decreases |items|
  {
    if k > 0 {
      assert items[0].id != items[k].id;
      DeadlineAt(items[1..], k - 1);
    }
  }

  lemma {:induction false} DeadlineNone(items: seq<Item>, x: nat)
    ensures DeadlineOf(items, x) >= 0 <==> Listed(items, x)
    ensures DeadlineOf(items, x) >= -1
    decreases |items|
  {
    if items != [] {
      DeadlineNone(items[1..], x);
      ListedSplit(items, x);
    }
  }

  lemma {:induction false} DeadlineWithout(items: seq<Item>, id: nat, x: nat)
    requires DistinctItems(items)
    ensures DeadlineOf(Without(items, id), x) == if x == id then -1 else DeadlineOf(items, x)
    decreases |items|
  {
    if items != [] {
      ListedSplit(items, id);
      if items[0].id == id {
        DeadlineNone(items[1..], id);
      } else {
        DeadlineWithout(items[1..], id, x);
        assert Without(items, id)[1..] == Without(items[1..], id);
      }
    }
  }

  lemma {:induction false} DeadlineAppend(items: seq<Item>, item: Item, x: nat)
    ensures DeadlineOf(items + [item], x) ==
            if Listed(items, x) then DeadlineOf(items, x) else if item.id == x then item.deadline else -1
    decreases |items|
  {
    if items != [] {
      ListedSplit(items, x);
      DeadlineAppend(items[1..], item, x);
      assert (items + [item])[1..] == items[1..] + [item];
    }
  }

  /** On the list although it is on record as DEAD. */
  predicate Stale(b: Book, x: nat) {
    Listed(b.suspects, x) && HasStatus(b, x, Dead)
  }

  /**
   What updates at time now may do to the suspicion of x: leave it, end it, or start it with a full
   timeout ahead.  They never make an entry stale.
   */
  predicate Fair(b: Book, r: Book, now: nat, x: nat) {
    var d, d' := DeadlineOf(b.suspects, x), DeadlineOf(r.suspects, x);
    && (d' == -1 || d' == d || d' == now + SUSPECT_TIMEOUT)
    && (Stale(r, x) ==> Stale(b, x) && d' == d)
    && r.pingTimeout >= b.pingTimeout
  }

  lemma ApplyFair(b: Book, from: nat, g: Gossip, now: nat, x: nat)
    requires DistinctItems(b.suspects)
    ensures Fair(b, Apply(b, from, g, now), now, x)
  {
    hide DeadlineOf, Without, Notified, DistinctItems, Listed;
    DeadlineWithout(b.suspects, g.id, x);
    DeadlineAppend(b.suspects, Item(g.id, from, now + SUSPECT_TIMEOUT), x);
    DeadlineNone(b.suspects, x);
    WithoutExact(b.suspects, g.id, x);
    SuspectedExact(b.suspects, from, g.id, now, x);
  }

  lemma {:induction false} HearAllFair(b: Book, self: nat, txMax: nat, from: nat, upds: seq<Gossip>, now: nat, x: nat)
    requires BookInv(b, self, txMax)
    ensures Fair(b, HearAll(b, self, from, upds, now), now, x)
    decreases |upds|
  {
    hide DeadlineOf, Apply, Notified, SuspectsOk, NewsExact, DistinctItems, Listed;
    if upds != [] && !KillsSelf(self, upds[0]) {
      var g := upds[0];
      if g.id != self {
        assert DistinctItems(b.suspects) by { SuspectsApart(b, self, txMax); }
        ApplyFair(b, from, g, now, x);
        ApplyKeeps(b, self, txMax, from, g, now);
      } else {
        RefuteKeeps(b, self, txMax, g.state.incarnation);
      }
      HearAllFair(Hear(b, self, from, g, now), self, txMax, from, upds[1..], now, x);
    }
  }

  lemma SuspectsApart(b: Book, self: nat, txMax: nat)
    requires BookInv(b, self, txMax)
    ensures DistinctItems(b.suspects)
  {
  }

  lemma {:induction false} DeadlineRetime(items: seq<Item>, k: nat, item: Item, x: nat)
    requires DistinctItems(items) && k < |items| && item.id == items[k].id && item.deadline >= items[k].deadline
    ensures DeadlineOf(items, x) <= DeadlineOf(items[k := item], x)
    ensures DeadlineOf(items, x) >= 0 <==> DeadlineOf(items[k := item], x) >= 0
    ensures x != item.id ==> DeadlineOf(items[k := item], x) == DeadlineOf(items, x)
    decreases |items|
  {
    if k == 0 {
      assert items[k := item][1..] == items[1..];
    } else {
      assert items[k := item][1..] == items[1..][k - 1 := item];
      DeadlineRetime(items[1..], k - 1, item, x);
    }
  }

  /** What a pass at time now may do to the suspicion of x: prolong it, or end it by death if it is overdue. */
  predicate Passed(b: Book, r: Book, now: nat, x: nat) {
    var d, d' := DeadlineOf(b.suspects, x), DeadlineOf(r.suspects, x);
    && (d' == -1 || d' >= d >= 0)
    && (Stale(r, x) ==> Stale(b, x))
    && (x in b.members && b.members[x].status != Dead && HasStatus(r, x, Dead) ==> 0 <= d < now)
    && r.pingTimeout == b.pingTimeout
  }

  lemma {:induction false} ExpirePassed(b: Book, self: nat, txMax: nat, now: nat, k: nat, x: nat)
    requires BookInv(b, self, txMax) && k <= |b.suspects|
    ensures Passed(b, Expire(b, self, now, k).book, now, x)
    decreases |b.suspects| - k
  {
    hide BookInv, Apply, DeadlineOf, Listed;
    DeadlineNone(b.suspects, x);
    if k < |b.suspects| {
      var item := b.suspects[k];
      SuspectIsOther(b, self, txMax, k);
      assert DistinctItems(b.suspects) by { SuspectsApart(b, self, txMax); }
      DeadlineAt(b.suspects, k);
      if now <= item.deadline {
        ExpirePassed(b, self, txMax, now, k + 1, x);
      } else if item.from != self {
        var kept := Item(item.id, self, item.deadline + b.pingTimeout);
        var b1 := b.(suspects := b.suspects[k := kept]);
        RetimeKeeps(b, self, txMax, k, kept);
        DeadlineRetime(b.suspects, k, kept, x);
        DeadlineNone(b1.suspects, x);
        ExpirePassed(b1, self, txMax, now, k + 1, x);
      } else {
        var b1 := Kill(b, self, item.id, now);
        KillPassed(b, self, txMax, item.id, now, x);
        DeadlineNone(b1.suspects, x);
        ApplyKeeps(b, self, txMax, self, Gossip(item.id, State(b.members[item.id].incarnation, Dead)), now);
        ExpirePassed(b1, self, txMax, now, if |b1.suspects| < |b.suspects| then k else k + 1, x);
      }
    }
  }

  lemma KillPassed(b: Book, self: nat, txMax: nat, id: nat, now: nat, x: nat)
    requires BookInv(b, self, txMax) && id in b.members
    ensures
      var b1 := Kill(b, self, id, now);
      && b1.pingTimeout == b.pingTimeout && b1.members.Keys == b.members.Keys
      && (x != id ==> DeadlineOf(b1.suspects, x) == DeadlineOf(b.suspects, x)
                      && (x in b.members ==> b1.members[x] == b.members[x]))
      && (x == id ==> DeadlineOf(b1.suspects, x) == -1 || b1 == b)
  {
    hide Without, Notified, DeadlineOf;
    DeadlineWithout(b.suspects, id, x);
  }

  /** The time an event reads from the clock. */
  function Clock(e: Event): nat {
    match e
    case CheckSuspects(now) => now
    case CheckIpings(now) => now
    case Progress(now) => now
    case Hears(_, _, now) => now
    case Send(_) => 0
    case Forwards(_) => 0
    case Fails(_) => 0
  }

  /** Everything an event can do to the suspicion of x. */
  lemma StepFair(n: Node, e: Event, x: nat)
    requires NodeInv(n)
    ensures
      var b, r := n.context.book, Step(n, e).context.book;
      && (e.Hears? || e.Progress? ==> Fair(b, r, Clock(e), x))
      && (e.CheckSuspects? ==> Passed(b, r, Clock(e), x) || r == b)
      && (!e.Hears? && !e.Progress? && !e.CheckSuspects? ==> r.suspects == b.suspects)
      && (!e.Hears? && !e.Progress? && !e.CheckSuspects? && e != Fails(x) ==> (Stale(r, x) ==> Stale(b, x)))
      && r.pingTimeout >= b.pingTimeout
  {
    hide BookInv, HearAll, Expire, Tick, DeadlineOf, Piggyback, Without, Listed;
    var c := n.context;
    match e
    case CheckSuspects(now) => ExpirePassed(c.book, c.self, c.txMax, now, 0, x);
    case CheckIpings(_) =>
    case Progress(now) => TickFair(n, now, x);
    case Send(_) =>
    case Hears(from, upds, now) => HearAllFair(c.book, c.self, c.txMax, from, upds, now, x);
    case Forwards(_) =>
    case Fails(_) =>
  }

  lemma TickFair(n: Node, now: nat, x: nat)
    requires NodeInv(n)
    ensures Fair(n.context.book, Tick(n.context, now).context.book, now, x)
  {
    hide Apply, Seek, Gather, DeadlineOf, DistinctItems, Listed;
    var c := n.context;
    var p, b := c.probe, c.book;
    if p.target in b.members {
      ApplyFair(b, c.self, Gossip(p.target, State(b.members[p.target].incarnation, Suspect)), now, x);
      ApplyFair(b, c.self, Gossip(p.target, State(b.members[p.target].incarnation, Dead)), now, x);
    }
  }

  lemma RunTimers(n: Node, events: seq<Event>)
    requires TimerInv(n)
    ensures TimerInv(Run(n, events))
  {
    hide Run, NodeInv;
    RunKeeps(n, events);
  }

  // ---- who is on the list ----

  ghost predicate ListedAt(n: Node, events: seq<Event>, i: nat, x: nat)
    requires i <= |events|
  {
    Listed(At(n, events, i).book.suspects, x)
  }

  ghost predicate SuspectAt(n: Node, events: seq<Event>, i: nat, x: nat)
    requires i <= |events|
  {
    HasStatus(At(n, events, i).book, x, Suspect)
  }

  /** No event after lo and before hi is the failure of an acknowledged message to x. */
  predicate NoFailure(events: seq<Event>, lo: int, hi: int, x: nat) {
    forall k :: 0 <= k < |events| && lo < k < hi ==> events[k] != Fails(x)
  }

  lemma StepNotStale(n: Node, e: Event, x: nat)
    requires NodeInv(n) && e != Fails(x) && !Stale(n.context.book, x)
    ensures !Stale(Step(n, e).context.book, x)
  {
    hide NodeInv, Step, DeadlineOf, Listed;
    StepFair(n, e, x);
  }

  lemma {:induction false} RunNotStale(n: Node, events: seq<Event>, i: nat, k: nat, x: nat)
    requires TimerInv(n) && i <= k <= |events| && !Stale(At(n, events, i).book, x)
    requires NoFailure(events, i - 1, k, x)
    ensures !Stale(At(n, events, k).book, x)
    decreases k
  {
    hide NodeInv, Step, Stale;
    if i < k {
      RunNotStale(n, events, i, k - 1, x);
      RunTimers(n, events[..k - 1]);
      assert events[..k][..k - 1] == events[..k - 1];
      StepNotStale(Run(n, events[..k - 1]), events[k - 1], x);
    }
  }

  lemma ListedUnlessStale(n: Node, x: nat)
    requires NodeInv(n)
    ensures HasStatus(n.context.book, x, Suspect) ==> Listed(n.context.book.suspects, x)
    ensures Listed(n.context.book.suspects, x) && !Stale(n.context.book, x) ==> HasStatus(n.context.book, x, Suspect)
    ensures Listed(n.context.book.suspects, x) ==> x != n.context.self && x in n.context.book.members
  {
    hide Listed, DistinctItems;
  }

  /**
   In every run of a new node, a member to which no acknowledged message failed is on the suspect
   list if and only if its record says SUSPECT.
   */
  lemma SuspectListExact(n: Node, events: seq<Event>, x: nat)
    requires TimerInv(n) && n.context.book.suspects == [] && NoFailure(events, -1, |events|, x)
    ensures
      var b := Run(n, events).context.book;
      Listed(b.suspects, x) <==> HasStatus(b, x, Suspect)
  {
    hide NodeInv, Step;
    assert events[..|events|] == events && events[..0] == [];
    assert Run(n, []) == n;
    RunNotStale(n, events, 0, |events|, x);
    RunTimers(n, events);
    ListedUnlessStale(Run(n, events), x);
  }

  // ---- how long ----

  /**
   Event j put x on the list as SUSPECT, x has been on it in every state since, and its deadline is
   a full timeout after event j.
   */
  ghost predicate ListedSince(n: Node, events: seq<Event>, j: nat, x: nat)
    requires j < |events|
  {
    && (events[j].Hears? || events[j].Progress?) && SuspectAt(n, events, j + 1, x)
    && (forall i: nat :: j < i <= |events| ==> ListedAt(n, events, i, x))
    && DeadlineOf(At(n, events, |events|).book.suspects, x) >= Clock(events[j]) + SUSPECT_TIMEOUT
  }

  lemma {:induction false} SuspicionHasStart(n: Node, events: seq<Event>, x: nat) returns (j: nat)
    requires TimerInv(n) && n.context.book.suspects == []
    requires ListedAt(n, events, |events|, x)
    ensures j < |events| && ListedSince(n, events, j, x)
    decreases |events|
  {
    hide Step, NodeInv, DeadlineOf, Listed;
    assert events[..|events|] == events;
    assert events != [] by { NothingListed(n, x); }
    var init, e := events[..|events| - 1], events[|events| - 1];
    var before, after := Run(n, init), Run(n, events);
    RunTimers(n, init);
    RunTimers(n, events);
    StepFair(before, e, x);
    DeadlineNone(before.context.book.suspects, x);
    DeadlineNone(after.context.book.suspects, x);
    assert init[..|init|] == init;
    var d, d' := DeadlineOf(before.context.book.suspects, x), DeadlineOf(after.context.book.suspects, x);
    if d' >= d >= 0 {
      j := SuspicionHasStart(n, init, x);
      SinceOn(n, events, j, x);
    } else {
      j := |events| - 1;
      ListedUnlessStale(after, x);
    }
  }

  lemma NothingListed(n: Node, x: nat)
    requires n.context.book.suspects == []
    ensures !ListedAt(n, [], 0, x)
  {
  }

  lemma SinceOn(n: Node, events: seq<Event>, j: nat, x: nat)
    requires j < |events| - 1 && ListedSince(n, events[..|events| - 1], j, x) && ListedAt(n, events, |events|, x)
    requires DeadlineOf(At(n, events, |events|).book.suspects, x)
          >= DeadlineOf(At(n, events[..|events| - 1], |events| - 1).book.suspects, x)
    ensures ListedSince(n, events, j, x)
  {
    hide Run, DeadlineOf, Listed;
    var init := events[..|events| - 1];
    assert init[..j + 1] == events[..j + 1];
    forall i: nat | j < i <= |events| ensures ListedAt(n, events, i, x) {
      if i < |events| {
        assert ListedAt(n, init, i, x);
        assert init[..i] == events[..i];
      }
    }
  }

  /** SUSPECT in every state after event j, or somewhere an acknowledged message failed. */
  lemma SuspectIffNoFailure(n: Node, events: seq<Event>, j: nat, x: nat)
    requires TimerInv(n) && j < |events| && ListedSince(n, events, j, x)
    ensures (forall i: nat :: j < i <= |events| ==> SuspectAt(n, events, i, x)) <==> NoFailure(events, j, |events|, x)
  {
    hide NodeInv, Run, DeadlineOf, Listed;
    if NoFailure(events, j, |events|, x) {
      forall i: nat | j < i <= |events| ensures SuspectAt(n, events, i, x) {
        RunNotStale(n, events, j + 1, i, x);
        RunTimers(n, events[..i]);
        ListedUnlessStale(Run(n, events[..i]), x);
        assert ListedAt(n, events, i, x);
      }
    } else {
      var k :| 0 <= k < |events| && j < k && events[k] == Fails(x);
      assert ListedAt(n, events, k, x);
      FailureEndsSuspicion(n, events, k, x);
    }
  }

  lemma FailureEndsSuspicion(n: Node, events: seq<Event>, k: nat, x: nat)
    requires TimerInv(n) && k < |events| && events[k] == Fails(x) && ListedAt(n, events, k, x)
    ensures !SuspectAt(n, events, k + 1, x)
  {
    hide NodeInv, Listed;
    RunTimers(n, events[..k]);
    ListedUnlessStale(Run(n, events[..k]), x);
    assert events[..k + 1][..k] == events[..k];
  }

  /**
   In every run, when the suspicion timer marks x dead, x has been on the suspect list without a
   break since some event j put it there as SUSPECT more than three protocol periods before; and it
   was SUSPECT all that time if and only if no acknowledged message to x failed in between.
   */
  lemma SuspicionRunsOut(n: Node, events: seq<Event>, x: nat) returns (j: nat)
    requires TimerInv(n) && n.context.book.suspects == []
    requires events != [] && events[|events| - 1].CheckSuspects?
    requires MarkedDead(At(n, events, |events| - 1), At(n, events, |events|), x)
    ensures j < |events| - 1 && (events[j].Hears? || events[j].Progress?) && SuspectAt(n, events, j + 1, x)
    ensures forall i: nat :: j < i < |events| ==> ListedAt(n, events, i, x)
    ensures (forall i: nat :: j < i < |events| ==> SuspectAt(n, events, i, x))
       <==> NoFailure(events, j, |events| - 1, x)
    ensures Clock(events[|events| - 1]) > Clock(events[j]) + SUSPECT_TIMEOUT
  {
    hide NodeInv, DeadlineOf, Expire, Listed, Step;
    var init, e := events[..|events| - 1], events[|events| - 1];
    assert events[..|events|] == events && init[..|init|] == init;
    RunTimers(n, init);
    CheckKills(Run(n, init), e, x);
    DeadlineNone(Run(n, init).context.book.suspects, x);
    j := SuspicionHasStart(n, init, x);
    SuspectIffNoFailure(n, init, j, x);
    forall i: nat | j < i < |events|
      ensures ListedAt(n, events, i, x) && (SuspectAt(n, events, i, x) <==> SuspectAt(n, init, i, x))
    {
      assert ListedAt(n, init, i, x);
      assert init[..i] == events[..i];
    }
    assert init[..j + 1] == events[..j + 1];
  }

  lemma CheckKills(n: Node, e: Event, x: nat)
    requires NodeInv(n) && e.CheckSuspects? && MarkedDead(n.context, Step(n, e).context, x)
    ensures 0 <= DeadlineOf(n.context.book.suspects, x) < e.now
  {
    hide BookInv, DeadlineOf, Expire, Listed;
    ExpirePassed(n.context.book, n.context.self, n.context.txMax, e.now, 0, x);
  }

  // ---- a failed acknowledgement shortens the suspicion ----

  lemma HearsOne(n: Node, from: nat, g: Gossip, now: nat)
    requires NodeInv(n) && n.context.active && g.id != n.context.self
    ensures
      var m := Step(n, Hears(from, [g], now));
      NodeInv(m) && m.context.active && m.context.self == n.context.self
      && m.context.book == Apply(n.context.book, from, g, now)
  {
    StepKeeps(n, Hears(from, [g], now));
    assert [g][1..] == [];
    hide Apply, BookInv, Without;
    assert HearAll(n.context.book, n.context.self, from, [g], now) == Apply(n.context.book, from, g, now);
  }

  lemma Checks(n: Node, now: nat)
    requires NodeInv(n) && n.context.active
    ensures
      var m := Step(n, CheckSuspects(now));
      NodeInv(m) && m.context.active && m.context.self == n.context.self
      && m.context.book == Expire(n.context.book, n.context.self, now, 0).book
  {
    StepKeeps(n, CheckSuspects(now));
    hide BookInv, Expire;
  }

  /** A pass that finds one gossiped suspicion overdue prolongs it. */
  lemma ExpireProlongs(b: Book, self: nat, now: nat, item: Item)
    requires b.suspects == [item] && now > item.deadline && item.from != self
    ensures Expire(b, self, now, 0).book == b.(suspects := [Item(item.id, self, item.deadline + b.pingTimeout)])
  {
    var kept := Item(item.id, self, item.deadline + b.pingTimeout);
    var b1 := b.(suspects := b.suspects[0 := kept]);
    assert b1.suspects == [kept];
    assert Expire(b1, self, now, 1).book == b1;
  }

  /** A pass that finds one own suspicion overdue kills. */
  lemma ExpireKills(b: Book, self: nat, now: nat, item: Item)
    requires b.suspects == [item] && now > item.deadline && item.from == self && HasStatus(b, item.id, Suspect)
    ensures HasStatus(Expire(b, self, now, 0).book, item.id, Dead)
  {
    var b1 := Kill(b, self, item.id, now);
    assert Without([item], item.id) == [] && b1.suspects == [];
    assert Expire(b1, self, now, 0).book == b1;
  }

  lemma RunPrefix(n: Node, events: seq<Event>, k: nat)
    requires k < |events|
    ensures Run(n, events[..k + 1]) == Step(Run(n, events[..k]), events[k])
  {
    assert events[..k + 1][..k] == events[..k];
  }

  /** A suspicion of node 1 is heard from node 2 and prolonged, then a message to node 1 fails. */
  lemma SuspectedThenFailed(n: Node)
    requires NodeInv(n) && n.context.active && n.context.self == 0 && n.context.book.suspects == []
    requires 1 in n.context.book.members && n.context.book.members[1] == State(0, Inactive)
    requires n.context.book.pingTimeout == PING_TIMEOUT
    ensures
      var n1 := Step(n, Hears(2, [Gossip(1, State(0, Suspect))], 0));
      var n3 := Step(Step(n1, CheckSuspects(7201)), Fails(1));
      && NodeInv(n3) && n3.context.active && n3.context.self == 0
      && n3.context.book.suspects == [Item(1, 0, 8000)]
      && 1 in n3.context.book.members && n3.context.book.members[1] == State(1, Dead)
  {
    var g := Gossip(1, State(0, Suspect));
    HearsOne(n, 2, g, 0);
    FirstSuspicion(n.context.book, g);
    hide NodeInv, Apply, Expire;
    var n1 := Step(n, Hears(2, [g], 0));
    Checks(n1, 7201);
    ExpireProlongs(n1.context.book, 0, 7201, Item(1, 2, SUSPECT_TIMEOUT));
    StepKeeps(Step(n1, CheckSuspects(7201)), Fails(1));
  }

  /** A suspicion of node 1 at a higher incarnation finds the old deadline. */
  lemma SuspectedAndKilled(n: Node)
    requires NodeInv(n) && n.context.active && n.context.self == 0 && n.context.book.suspects == [Item(1, 0, 8000)]
    requires 1 in n.context.book.members && n.context.book.members[1] == State(1, Dead)
    ensures
      var n1 := Step(n, Hears(2, [Gossip(1, State(2, Suspect))], 8000));
      HasStatus(n1.context.book, 1, Suspect) && HasStatus(Step(n1, CheckSuspects(8001)).context.book, 1, Dead)
  {
    var g := Gossip(1, State(2, Suspect));
    HearsOne(n, 2, g, 8000);
    assert n.context.book.suspects[0].id == 1;
    AgainSuspected(n.context.book, 2, g, 8000);
    hide NodeInv, Apply, Expire;
    var n1 := Step(n, Hears(2, [g], 8000));
    Checks(n1, 8001);
    ExpireKills(n1.context.book, 0, 8001, Item(1, 0, 8000));
  }

  /**
   With a failed acknowledgement in between, the timer may kill a member one millisecond after it
   became SUSPECT: node 0 of three hears a suspicion of node 1 and prolongs it, a message to node 1
   fails, and a suspicion at a higher incarnation finds the old deadline still on the list.
   */
  lemma KilledAfterOneMillisecond() returns (n: Node, events: seq<Event>)
    ensures TimerInv(n) && n.context.book.suspects == [] && |events| == 5 && events[2] == Fails(1)
    ensures MarkedDead(At(n, events, 4), At(n, events, 5), 1)
    ensures events[4].CheckSuspects? && Clock(events[4]) == Clock(events[3]) + 1
    ensures !SuspectAt(n, events, 3, 1) && SuspectAt(n, events, 4, 1)
  {
    hide NodeInv, Step, Run, Start;
    n := Start(0, [0, 1, 2], 0);
    StartOfThree();
    events := [Hears(2, [Gossip(1, State(0, Suspect))], 0), CheckSuspects(7201), Fails(1),
               Hears(2, [Gossip(1, State(2, Suspect))], 8000), CheckSuspects(8001)];
    SuspectedThenFailed(n);
    RunFive(n, events);
    SuspectedAndKilled(Run(n, events[..3]));
  }

  lemma StartOfThree()
    ensures
      var c := Start(0, [0, 1, 2], 0).context;
      && NodeInv(Start(0, [0, 1, 2], 0)) && c.active && c.self == 0 && c.book.suspects == []
      && c.book.pingTimeout == PING_TIMEOUT && 1 in c.book.members && c.book.members[1] == State(0, Inactive)
  {
    StartInv(0, [0, 1, 2], 0);
  }

  lemma FirstSuspicion(b: Book, g: Gossip)
    requires b.suspects == [] && HasStatus(b, g.id, Inactive) && g.state.status == Suspect
    requires b.members[g.id].incarnation <= g.state.incarnation
    ensures
      var r := Apply(b, 2, g, 0);
      r.suspects == [Item(g.id, 2, SUSPECT_TIMEOUT)] && r.members == b.members[g.id := g.state]
      && r.pingTimeout == b.pingTimeout
  {
    hide Notified;
  }

  lemma AgainSuspected(b: Book, from: nat, g: Gossip, now: nat)
    requires g.id in b.members && g.state.status == Suspect && g.state.incarnation > b.members[g.id].incarnation
    requires Listed(b.suspects, g.id)
    ensures Apply(b, from, g, now).suspects == b.suspects && HasStatus(Apply(b, from, g, now), g.id, Suspect)
  {
    hide Notified;
  }

  lemma RunFive(n: Node, events: seq<Event>)
    requires |events| == 5
    ensures
      && Run(n, events[..3]) == Step(Step(Step(n, events[0]), events[1]), events[2])
      && Run(n, events[..4]) == Step(Run(n, events[..3]), events[3])
      && Run(n, events[..5]) == Step(Run(n, events[..4]), events[4])
  {
    assert events[..0] == [];
    assert Run(n, []) == n;
    hide Step, Run;
    RunPrefix(n, events, 0);
    RunPrefix(n, events, 1);
    RunPrefix(n, events, 2);
    RunPrefix(n, events, 3);
    RunPrefix(n, events, 4);
  }
}
