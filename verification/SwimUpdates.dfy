/**
 The update list of a SWIM node (sc_updates in src/swim/swim.c): exactly what a message takes from
 it, and exactly how long an update stays on it.
 */
module SwimUpdates {
  import opened SwimMember
  import opened SwimContext
  import opened SwimNode
  import opened SwimGossip

  // ---- what one message takes ----

  /** The listed updates that are not about the subject or the sender, which every message names anyway. */
  function Others(news: seq<News>, id: nat, self: nat): seq<News> {
    if news == [] then []
    else (if news[0].id == id || news[0].id == self then [] else [news[0]]) + Others(news[1..], id, self)
  }

  /** x is listed, and fewer than room updates that go into the message are listed before it. */
  predicate RoomFor(news: seq<News>, id: nat, self: nat, room: nat, x: nat) {
    exists i :: 0 <= i < |news| && news[i].id == x && |Others(news[..i], id, self)| < room
  }

  lemma RoomLater(news: seq<News>, id: nat, self: nat, room: nat, x: nat)
    requires news != [] && news[0].id != x && room > 0
    ensures
      var left := if news[0].id == id || news[0].id == self then room else room - 1;
      RoomFor(news, id, self, room, x) <==> RoomFor(news[1..], id, self, left, x)
  {
    var t := news[1..];
    var left := if news[0].id == id || news[0].id == self then room else room - 1;
    forall i | 0 <= i < |t|
      ensures t[i] == news[i + 1]
      ensures |Others(news[..i + 1], id, self)| < room <==> |Others(t[..i], id, self)| < left
    {
      assert news[..i + 1][1..] == t[..i] && news[..i + 1][0] == news[0];
    }
    if RoomFor(news, id, self, room, x) {
      var i :| 0 <= i < |news| && news[i].id == x && |Others(news[..i], id, self)| < room;
      assert t[i - 1].id == x && |Others(t[..i - 1], id, self)| < left;
    }
    if RoomFor(t, id, self, left, x) {
      var i :| 0 <= i < |t| && t[i].id == x && |Others(t[..i], id, self)| < left;
      assert news[i + 1].id == x && |Others(news[..i + 1], id, self)| < room;
    }
  }

  lemma RoomFirst(news: seq<News>, id: nat, self: nat, room: nat)
    requires news != [] && room > 0
    ensures RoomFor(news, id, self, room, news[0].id)
  {
    assert news[..0] == [];
  }

  lemma NoRoom(news: seq<News>, id: nat, self: nat, room: nat, x: nat)
    requires news == [] || room == 0
    ensures !RoomFor(news, id, self, room, x)
  {
  }

  /** A message carries the records of the first updates it has room for, in list order. */
  lemma {:induction false} CarriesFirst(news: seq<News>, members: map<nat, State>, id: nat, self: nat,
                                        txMax: nat, room: nat)
    requires forall i :: 0 <= i < |news| ==> news[i].id in members
    ensures
      var upds, others := Piggyback(news, members, id, self, txMax, room).upds, Others(news, id, self);
      && |upds| == (if |others| < room then |others| else room)
      && forall i :: 0 <= i < |upds| ==>
           others[i].id in members && upds[i] == Gossip(others[i].id, members[others[i].id])
    decreases |news|
  {
    if news != [] && room != 0 {
      var header := news[0].id == id || news[0].id == self;
      CarriesFirst(news[1..], members, id, self, txMax, if header then room else room - 1);
    }
  }

  /**
   A message leaves exactly the updates it has room for on the list, each counted once more, as long
   as they have not been counted too often; it carries those that are not its subject or sender.
   */
  lemma {:induction false} KeepsCarried(news: seq<News>, members: map<nat, State>, id: nat, self: nat,
                                        txMax: nat, room: nat, x: nat)
    requires DistinctNews(news) && forall i :: 0 <= i < |news| ==> news[i].id in members
    ensures
      var p, fits := Piggyback(news, members, id, self, txMax, room), RoomFor(news, id, self, room, x);
      && CountOf(p.news, x) == (if fits && CountOf(news, x) < txMax then CountOf(news, x) + 1 else -1)
      && ((exists g <- p.upds :: g.id == x) <==> fits && x != id && x != self)
    decreases |news|
  {
    hide RoomFor;
    if news == [] || room == 0 {
      NoRoom(news, id, self, room, x);
    } else {
      var n, header := news[0], news[0].id == id || news[0].id == self;
      var left := if header then room else room - 1;
      var p := Piggyback(news, members, id, self, txMax, room);
      var rest := Piggyback(news[1..], members, id, self, txMax, left);
      KeepsCarried(news[1..], members, id, self, txMax, left, x);
      assert if n.count + 1 <= txMax then p.news[1..] == rest.news else p.news == rest.news;
      assert !header ==> p.upds[0].id == n.id && p.upds[1..] == rest.upds;
      CarriedOrRest(p.upds, rest.upds, header, x);
      if n.id == x {
        RoomFirst(news, id, self, room);
        TailLacks(news);
        TailHasNoRoom(news, id, self, left);
      } else {
        RoomLater(news, id, self, room, x);
      }
    }
  }

  lemma CarriedOrRest(upds: seq<Gossip>, rest: seq<Gossip>, header: bool, x: nat)
    requires if header then upds == rest else upds != [] && upds[1..] == rest
    ensures (exists g <- upds :: g.id == x) <==> (!header && upds[0].id == x) || exists g <- rest :: g.id == x
  {
    if !header {
      assert upds == [upds[0]] + rest;
    }
  }

  lemma TailHasNoRoom(news: seq<News>, id: nat, self: nat, room: nat)
    requires DistinctNews(news) && news != []
    ensures !RoomFor(news[1..], id, self, room, news[0].id)
  {
  }

  function PosOf(news: seq<News>, x: nat): nat {
    if news == [] || news[0].id == x then 0 else 1 + PosOf(news[1..], x)
  }

  lemma PosLater(news: seq<News>, x: nat)
    requires DistinctNews(news) && news != [] && Told(news[1..], x)
    ensures PosOf(news, x) == 1 + PosOf(news[1..], x)
  {
    var k :| 0 <= k < |news| - 1 && news[1..][k].id == x;
    assert news[k + 1].id == x;
  }

  ghost predicate InListOrder(kept: seq<News>, news: seq<News>) {
    forall i, j :: 0 <= i < j < |kept| ==> PosOf(news, kept[i].id) < PosOf(news, kept[j].id)
  }

  lemma OneMoreKept(n: News, rest: seq<News>, news: seq<News>)
    requires DistinctNews(news) && news != [] && n.id == news[0].id && InListOrder(rest, news[1..])
    requires forall i :: 0 <= i < |rest| ==> Told(news[1..], rest[i].id)
    ensures InListOrder(rest, news) && InListOrder([n] + rest, news)
  {
    forall i | 0 <= i < |rest| ensures PosOf(news, rest[i].id) == 1 + PosOf(news[1..], rest[i].id) {
      PosLater(news, rest[i].id);
    }
  }

  lemma PiggybackRest(news: seq<News>, members: map<nat, State>, id: nat, self: nat, txMax: nat, room: nat)
    requires news != [] && room != 0 && news[0].id in members
    ensures
      var n, left := news[0], if news[0].id == id || news[0].id == self then room else room - 1;
      var rest := Piggyback(news[1..], members, id, self, txMax, left).news;
      Piggyback(news, members, id, self, txMax, room).news ==
        if n.count + 1 > txMax then rest else [n.(count := n.count + 1)] + rest
  {
  }

  /** What stays on the list stays in order. */
  lemma {:induction false} KeepsOrder(news: seq<News>, members: map<nat, State>, id: nat, self: nat,
                                      txMax: nat, room: nat)
    requires DistinctNews(news) && forall i :: 0 <= i < |news| ==> news[i].id in members && news[i].count <= txMax
    ensures InListOrder(Piggyback(news, members, id, self, txMax, room).news, news)
    decreases |news|
  {
    if news != [] && room != 0 {
      var n, left := news[0], if news[0].id == id || news[0].id == self then room else room - 1;
      var rest := Piggyback(news[1..], members, id, self, txMax, left).news;
      KeepsOrder(news[1..], members, id, self, txMax, left);
      PiggybackNews(news[1..], members, id, self, txMax, left);
      OneMoreKept(n.(count := n.count + 1), rest, news);
      PiggybackRest(news, members, id, self, txMax, room);
      hide *;
    }
  }

  /** A listed update that a message has no room for is not in it, because it is full. */
  lemma {:induction false} NoRoomIsFull(news: seq<News>, members: map<nat, State>, id: nat, self: nat,
                                        txMax: nat, room: nat, x: nat)
    requires (forall i :: 0 <= i < |news| ==> news[i].id in members) && Told(news, x)
    requires !RoomFor(news, id, self, room, x)
    ensures |Piggyback(news, members, id, self, txMax, room).upds| == room
  {
    CarriesFirst(news, members, id, self, txMax, room);
    var i :| 0 <= i < |news| && news[i].id == x;
    OthersPrefix(news, id, self, i);
  }

  lemma {:induction false} OthersPrefix(news: seq<News>, id: nat, self: nat, i: nat)
    requires i <= |news|
    ensures |Others(news[..i], id, self)| <= |Others(news, id, self)|
    decreases |news|
  {
    if i > 0 {
      assert news[..i][1..] == news[1..][..i - 1];
      OthersPrefix(news[1..], id, self, i - 1);
    }
  }

  /**
   Whom a message names: its subject, its sender, and the listed members it has room for, each with
   the sender's record.
   */
  lemma MessageNames(c: Context, call: Call, x: nat)
    requires WellFormed(c) && BookInv(c.book, c.self, c.txMax) && CanSend(c, call)
    ensures (exists g <- Message(c, call) :: g.id == x) <==>
              x == call.id || x == c.self || RoomFor(c.book.news, call.id, c.self, PIGGYBACK_ENTRIES, x)
    ensures Message(c, call)[0].id == call.id
    ensures Message(c, call)[|Header(c.book.members, call.id, c.self)|..] == PackFor(c, call).upds
  {
    var h, p := Header(c.book.members, call.id, c.self), PackFor(c, call).upds;
    KeepsCarried(c.book.news, c.book.members, call.id, c.self, c.txMax, PIGGYBACK_ENTRIES, x);
    hide Piggyback, RoomFor, SuspectsOk;
    assert h[0].id == call.id && (call.id != c.self ==> h[1].id == c.self);
    assert forall g :: g in h + p <==> g in h || g in p;
  }

  /** An accepted update about a member that was not listed goes first, and the others stay in order behind it. */
  lemma NewsGoesFirst(b: Book, from: nat, g: Gossip, now: nat)
    requires Apply(b, from, g, now) != b && !Told(b.news, g.id)
    ensures Apply(b, from, g, now).news == [News(g.id, from, 0)] + b.news
  {
    hide Without, Suspected;
  }

  /** The next message, unless it is about that member anyway, carries it before all others. */
  lemma NewsGoesOut(c: Context, from: nat, g: Gossip, now: nat, call: Call)
    requires WellFormed(c) && BookInv(c.book, c.self, c.txMax) && CanSend(c, call)
    requires Apply(c.book, from, g, now) != c.book && !Told(c.book.news, g.id) && g.id != c.self && g.id != call.id
    ensures
      var c' := c.(book := Apply(c.book, from, g, now));
      CanSend(c', call) && PackFor(c', call).upds != [] && PackFor(c', call).upds[0] == g
  {
    NewsGoesFirst(c.book, from, g, now);
    ApplyDomain(c.book, from, g, now);
    hide Without, Suspected, Notified, SuspectsOk;
  }

  // ---- how long an update stays ----

  /** A notification puts x on the list, or back to the start. */
  lemma {:induction false} HearAllFresh(b: Book, self: nat, txMax: nat, from: nat, upds: seq<Gossip>, now: nat, x: nat)
    requires BookInv(b, self, txMax) && x in b.members
    requires HeardAbout(b, self, from, upds, now, x)
    ensures CountOf(HearAll(b, self, from, upds, now).news, x) == 0
    decreases |upds|
  {
    hide SuspectsOk, NewsExact, Apply, Refute, CountOf;
    var g := upds[0];
    var b1 := Hear(b, self, from, g, now);
    if g.id != self {
      ApplyKeeps(b, self, txMax, from, g, now);
      ApplyDomain(b, from, g, now);
    } else {
      RefuteKeeps(b, self, txMax, g.state.incarnation);
      RefuteDomain(b, self, g.state.incarnation);
    }
    if HeardAbout(b1, self, from, upds[1..], now, x) {
      HearAllFresh(b1, self, txMax, from, upds[1..], now, x);
    } else {
      HearFresh(b, self, txMax, from, g, now, x);
      HearAllCount(b1, self, txMax, from, upds[1..], now, x);
    }
  }

  lemma RefuteDomain(b: Book, self: nat, incarnation: nat)
    requires self in b.members
    ensures Refute(b, self, incarnation).members.Keys == b.members.Keys
  {
    hide Notified;
  }

  lemma HearFresh(b: Book, self: nat, txMax: nat, from: nat, g: Gossip, now: nat, x: nat)
    requires BookInv(b, self, txMax) && x in b.members
    requires x in Hear(b, self, from, g, now).members && Hear(b, self, from, g, now).members[x] != b.members[x]
    ensures CountOf(Hear(b, self, from, g, now).news, x) == 0
  {
    hide Without, Suspected, Notified, CountOf, SuspectsOk;
    NotifiedCount(b.news, if g.id == self then self else from, g.id, x);
  }

  lemma {:induction false} ExpireFresh(b: Book, self: nat, txMax: nat, now: nat, k: nat, x: nat)
    requires BookInv(b, self, txMax) && k <= |b.suspects| && x in b.members
    requires
      var r := Expire(b, self, now, k).book;
      x in r.members && r.members[x] != b.members[x]
    ensures CountOf(Expire(b, self, now, k).book.news, x) == 0
    decreases |b.suspects| - k
  {
    hide BookInv, Apply, CountOf;
    var item := b.suspects[k];
    SuspectIsOther(b, self, txMax, k);
    if now <= item.deadline {
      ExpireFresh(b, self, txMax, now, k + 1, x);
    } else if item.from != self {
      var kept := Item(item.id, self, item.deadline + b.pingTimeout);
      RetimeKeeps(b, self, txMax, k, kept);
      ExpireFresh(b.(suspects := b.suspects[k := kept]), self, txMax, now, k + 1, x);
    } else {
      var b1 := Kill(b, self, item.id, now);
      var next := if |b1.suspects| < |b.suspects| then k else k + 1;
      var g := Gossip(item.id, State(b.members[item.id].incarnation, Dead));
      ApplyKeeps(b, self, txMax, self, g, now);
      KillOnly(b, self, txMax, item.id, now, x);
      if b1.members[x] == b.members[x] {
        ExpireFresh(b1, self, txMax, now, next, x);
      } else {
        HearFresh(b, self, txMax, self, g, now, x);
        ExpireLeavesDead(b1, self, now, next, x);
        ExpireCount(b1, self, txMax, now, next, x);
      }
    }
  }

  lemma TickFresh(n: Node, now: nat, x: nat)
    requires NodeInv(n) && x in n.context.book.members
    requires
      var b := Tick(n.context, now).context.book;
      x in b.members && b.members[x] != n.context.book.members[x]
    ensures CountOf(Tick(n.context, now).context.book.news, x) == 0
  {
    hide Apply, Seek, Gather, CountOf, BookInv;
    var c := n.context;
    var p, b := c.probe, c.book;
    if p.target in b.members {
      var g := Gossip(p.target, State(b.members[p.target].incarnation, if p.phase == DPinged then Suspect else Dead));
      ApplyDomain(b, c.self, g, now);
      if Apply(b, c.self, g, now).members[x] != b.members[x] {
        HearFresh(b, c.self, c.txMax, c.self, g, now, x);
      }
    }
  }

  lemma NotifiedIsFresh(n: Node, e: Event, x: nat)
    requires NodeInv(n) && x in n.context.book.members && Notifies(n, e, x)
    ensures CountOf(Step(n, e).context.book.news, x) == 0
  {
    hide BookInv, HearAll, Expire, Tick, CountOf, HeardAbout, Without, Piggyback;
    var c := n.context;
    match e
    case CheckSuspects(now) => ExpireFresh(c.book, c.self, c.txMax, now, 0, x);
    case CheckIpings(_) =>
    case Progress(now) => TickFresh(n, now, x);
    case Send(_) =>
    case Hears(from, upds, now) =>
      assert upds != [] by { HeardNothing(c.book, c.self, from, upds, now, x); }
      HearAllFresh(c.book, c.self, c.txMax, from, upds, now, x);
    case Forwards(_) =>
    case Fails(_) =>
  }

  lemma HeardNothing(b: Book, self: nat, from: nat, upds: seq<Gossip>, now: nat, x: nat)
    requires self in b.members && x in b.members && HeardAbout(b, self, from, upds, now, x)
    ensures upds != []
  {
  }

  /** Event e sends a message. */
  predicate Sends(n: Node, e: Event) {
    e.Send? && e.i < |n.calls| && CanSend(n.context, n.calls[e.i])
  }

  /** The message that event e sends has room for x. */
  predicate HasRoom(n: Node, e: Event, x: nat)
    requires Sends(n, e)
  {
    RoomFor(n.context.book.news, n.calls[e.i].id, n.context.self, PIGGYBACK_ENTRIES, x)
  }

  /** How many events after the first lo sent a message. */
  ghost function SendsAfter(n: Node, events: seq<Event>, lo: nat): nat {
    if |events| <= lo then 0
    else
      var init, e := events[..|events| - 1], events[|events| - 1];
      SendsAfter(n, init, lo) + if Sends(Run(n, init), e) then 1 else 0
  }

  /** All of these had room for x. */
  ghost predicate RoomAfter(n: Node, events: seq<Event>, lo: nat, x: nat) {
    forall i: nat :: lo <= i < |events| && Sends(Run(n, events[..i]), events[i]) ==>
      HasRoom(Run(n, events[..i]), events[i], x)
  }

  ghost predicate NotifiesAt(n: Node, events: seq<Event>, i: nat, x: nat)
    requires NodeInv(n) && x in n.context.book.members && i < |events|
  {
    RunKeeps(n, events[..i]);
    Notifies(Run(n, events[..i]), events[i], x)
  }

  ghost predicate QuietAfter(n: Node, events: seq<Event>, lo: nat, x: nat)
    requires NodeInv(n) && x in n.context.book.members
  {
    forall i: nat :: lo <= i < |events| ==> !NotifiesAt(n, events, i, x)
  }

  /** How often x has been counted, given that it was counted `count` times at first, or -1 when it is off the list. */
  function Remaining(count: int, sends: nat, room: bool, txMax: nat): int {
    if count >= 0 && room && count + sends <= txMax then count + sends else -1
  }

  lemma SendStep(n: Node, e: Event, x: nat)
    requires NodeInv(n) && Sends(n, e)
    ensures CountOf(Step(n, e).context.book.news, x) ==
            if HasRoom(n, e, x) && CountOf(n.context.book.news, x) < n.context.txMax
            then CountOf(n.context.book.news, x) + 1 else -1
    ensures HasRoom(n, e, x) ==> CountOf(n.context.book.news, x) >= 0
  {
    ToldIffCount(n.context.book.news, x);
    var c, call := n.context, n.calls[e.i];
    KeepsCarried(c.book.news, c.book.members, call.id, c.self, c.txMax, PIGGYBACK_ENTRIES, x);
    hide Piggyback, CountOf, SuspectsOk;
  }

  lemma NoSendStep(n: Node, e: Event, x: nat)
    requires NodeInv(n) && x in n.context.book.members && !Sends(n, e) && !Notifies(n, e, x)
    ensures CountOf(Step(n, e).context.book.news, x) == CountOf(n.context.book.news, x)
  {
    if !e.Send? {
      QuietCount(n, e, x);
    }
    hide BookInv;
  }

  lemma RoomPrefix(n: Node, events: seq<Event>, lo: nat, x: nat)
    requires lo < |events|
    ensures
      var init, e := events[..|events| - 1], events[|events| - 1];
      RoomAfter(n, events, lo, x) <==>
        RoomAfter(n, init, lo, x) && (Sends(Run(n, init), e) ==> HasRoom(Run(n, init), e, x))
  {
    hide Run, HasRoom;
    var init := events[..|events| - 1];
    forall i: nat | lo <= i < |init|
      ensures init[..i] == events[..i] && init[i] == events[i]
    {
    }
    if RoomAfter(n, init, lo, x) && (Sends(Run(n, init), events[|init|]) ==> HasRoom(Run(n, init), events[|init|], x)) {
      forall i: nat | lo <= i < |events| && Sends(Run(n, events[..i]), events[i])
        ensures HasRoom(Run(n, events[..i]), events[i], x)
      {
        if i < |init| {
          assert init[..i] == events[..i];
        }
      }
    }
    if RoomAfter(n, events, lo, x) {
      forall i: nat | lo <= i < |init| && Sends(Run(n, init[..i]), init[i])
        ensures HasRoom(Run(n, init[..i]), init[i], x)
      {
        assert init[..i] == events[..i];
      }
    }
  }

  lemma {:induction false} CountsOn(n: Node, events: seq<Event>, lo: nat, x: nat)
    requires NodeInv(n) && x in n.context.book.members && lo <= |events| && QuietAfter(n, events, lo, x)
    ensures CountOf(Run(n, events).context.book.news, x) ==
            Remaining(CountOf(Run(n, events[..lo]).context.book.news, x), SendsAfter(n, events, lo),
                      RoomAfter(n, events, lo, x), n.context.txMax)
    decreases |events|
  {
    hide NodeInv, Step, CountOf, Notifies, HasRoom;
    if |events| == lo {
      assert events[..lo] == events;
      RunKeeps(n, events);
      AtMostMax(Run(n, events), x);
    } else {
      var init, e := events[..|events| - 1], events[|events| - 1];
      assert init[..lo] == events[..lo];
      forall i: nat | lo <= i < |init| ensures !NotifiesAt(n, init, i, x) {
        assert !NotifiesAt(n, events, i, x);
        assert init[..i] == events[..i];
      }
      CountsOn(n, init, lo, x);
      RunKeeps(n, init);
      RoomPrefix(n, events, lo, x);
      assert !NotifiesAt(n, events, |init|, x);
      assert Run(n, events) == Step(Run(n, init), e);
      hide RoomAfter, Run;
      CountLeast(Run(n, events[..lo]).context.book.news, x);
      if Sends(Run(n, init), e) {
        SendStep(Run(n, init), e, x);
      } else {
        NoSendStep(Run(n, init), e, x);
      }
    }
  }

  lemma AtMostMax(n: Node, x: nat)
    requires NodeInv(n)
    ensures -1 <= CountOf(n.context.book.news, x) <= n.context.txMax
  {
    CountBound(n.context.book.news, n.context.txMax, x);
    CountLeast(n.context.book.news, x);
  }

  /**
   In every run, an update stays on the list, counted once for every message sent, exactly as long as
   every message since its last notification (event k) had room for it and there were at most
   sc_piggyback_tx_max of them.
   */
  lemma StaysListedIff(n: Node, events: seq<Event>, k: nat, x: nat)
    requires NodeInv(n) && x in n.context.book.members && k < |events|
    requires NotifiesAt(n, events, k, x) && QuietAfter(n, events, k + 1, x)
    ensures
      var sends := SendsAfter(n, events, k + 1);
      CountOf(Run(n, events).context.book.news, x) ==
        if sends <= n.context.txMax && RoomAfter(n, events, k + 1, x) then sends else -1
  {
    hide NodeInv, Step, CountOf, Notifies, RoomAfter, SendsAfter;
    CountsOn(n, events, k + 1, x);
    RunKeeps(n, events[..k]);
    NotifiedIsFresh(Run(n, events[..k]), events[k], x);
    assert events[..k + 1][..k] == events[..k];
  }

  /** A member that was never notified is never listed. */
  lemma ListedAfterNotice(n: Node, events: seq<Event>, x: nat)
    requires NodeInv(n) && x in n.context.book.members && QuietAfter(n, events, 0, x) && !Told(n.context.book.news, x)
    ensures !Told(Run(n, events).context.book.news, x)
  {
    hide NodeInv, Step, CountOf, Notifies, RoomAfter, SendsAfter;
    assert events[..0] == [] && Run(n, []) == n;
    CountsOn(n, events, 0, x);
    ToldIffCount(n.context.book.news, x);
    CountLeast(n.context.book.news, x);
    ToldIffCount(Run(n, events).context.book.news, x);
  }
}
