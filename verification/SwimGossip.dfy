/**
 What a SWIM node does with gossip over a whole run: records about a member absorb every update
 received about it, and an update is piggybacked a bounded number of times.
 */
module SwimGossip {
  import opened SwimMember
  import opened SwimContext
  import opened SwimNode

  // ---- records absorb what is received ----

  /** The states a message gives for member x, up to an entry that declares the receiver dead. */
  function About(upds: seq<Gossip>, self: nat, x: nat): seq<State> {
    if upds == [] || KillsSelf(self, upds[0]) then []
    else (if upds[0].id == x then [upds[0].state] else []) + About(upds[1..], self, x)
  }

  lemma {:induction false} AbsorbAppend(s: State, us: seq<State>, vs: seq<State>)
    ensures AbsorbAll(s, us + vs) == AbsorbAll(AbsorbAll(s, us), vs)
    decreases |vs|
  {
    if vs == [] {
      assert us + vs == us;
    } else {
      var init := vs[..|vs| - 1];
      AbsorbAppend(s, us, init);
      assert (us + vs)[..|us + vs| - 1] == us + init;
    }
  }

  lemma AbsorbOne(s: State, u: State)
    ensures AbsorbAll(s, [u]) == Absorb(s, u)
  {
    assert [u][..0] == [];
    assert AbsorbAll(s, []) == s;
  }

  /** One message moves the record of another member exactly as its entries say. */
  lemma {:induction false} HearAllAbsorbs(b: Book, self: nat, from: nat, upds: seq<Gossip>, now: nat, x: nat)
    requires self in b.members && x in b.members && x != self
    ensures HearAll(b, self, from, upds, now).members[x] == AbsorbAll(b.members[x], About(upds, self, x))
    decreases |upds|
  {
    hide Without, Suspected, Notified;
    if upds == [] || KillsSelf(self, upds[0]) {
      assert AbsorbAll(b.members[x], []) == b.members[x];
    } else {
      var g := upds[0];
      var b1 := Hear(b, self, from, g, now);
      HearAllAbsorbs(b1, self, from, upds[1..], now, x);
      var rest := About(upds[1..], self, x);
      if g.id == x {
        AbsorbOne(b.members[x], g.state);
        AbsorbAppend(b.members[x], [g.state], rest);
      } else {
        assert [] + rest == rest;
      }
    }
  }

  /** Messages received one after another, each with its sender. */
  datatype Delivery = Delivery(from: nat, upds: seq<Gossip>, now: nat)

  ghost function DeliverAll(c: Context, ds: seq<Delivery>): Context
    requires c.self in c.book.members
    ensures DeliverAll(c, ds).self == c.self && DeliverAll(c, ds).book.members.Keys == c.book.members.Keys
  {
    if ds == [] then c
    else
      var d, before := ds[|ds| - 1], DeliverAll(c, ds[..|ds| - 1]);
      Receive(before, d.from, d.upds, d.now).context
  }

  /** Everything the deliveries say about x. */
  function AllAbout(ds: seq<Delivery>, self: nat, x: nat): seq<State> {
    if ds == [] then [] else AllAbout(ds[..|ds| - 1], self, x) + About(ds[|ds| - 1].upds, self, x)
  }

  predicate Harmless(ds: seq<Delivery>, self: nat) {
    forall d <- ds :: forall g <- d.upds :: !KillsSelf(self, g)
  }

  lemma {:induction false} DeliverAllAbsorbs(c: Context, ds: seq<Delivery>, x: nat)
    requires c.self in c.book.members && x in c.book.members && x != c.self
    requires c.active && Harmless(ds, c.self)
    ensures DeliverAll(c, ds).active
    ensures DeliverAll(c, ds).book.members[x] == AbsorbAll(c.book.members[x], AllAbout(ds, c.self, x))
    decreases |ds|
  {
    hide HearAll, About;
    if ds != [] {
      var d, init := ds[|ds| - 1], ds[..|ds| - 1];
      assert d in ds && forall e <- init :: e in ds;
      DeliverAllAbsorbs(c, init, x);
      var before := DeliverAll(c, init);
      HearAllAbsorbs(before.book, c.self, d.from, d.upds, d.now, x);
      AbsorbAppend(c.book.members[x], AllAbout(init, c.self, x), About(d.upds, c.self, x));
      assert d.upds == [] ==> About(d.upds, c.self, x) == [] by { AboutNothing(c.self, x); }
      assert AbsorbAll(before.book.members[x], []) == before.book.members[x];
    }
  }

  lemma AboutNothing(self: nat, x: nat)
    ensures About([], self, x) == []
  {
  }

  /**
   Two nodes that start with the same record of a third member and receive the same set of
   updates about it, in different messages, orders and numbers, end with the same incarnation
   and agree whether it is dead.
   */
  lemma NodesConverge(c: Context, ds: seq<Delivery>, d: Context, es: seq<Delivery>, x: nat)
    requires c.self in c.book.members && d.self in d.book.members && c.active && d.active
    requires x in c.book.members && x in d.book.members && x != c.self && x != d.self
    requires c.book.members[x] == d.book.members[x]
    requires Harmless(ds, c.self) && Harmless(es, d.self)
    requires Covers(AllAbout(ds, c.self, x), AllAbout(es, d.self, x))
    requires Covers(AllAbout(es, d.self, x), AllAbout(ds, c.self, x))
    ensures KeyOf(DeliverAll(c, ds).book.members[x]) == KeyOf(DeliverAll(d, es).book.members[x])
  {
    hide DeliverAll, AllAbout, AbsorbAll;
    DeliverAllAbsorbs(c, ds, x);
    DeliverAllAbsorbs(d, es, x);
    GossipConverges(c.book.members[x], AllAbout(ds, c.self, x), AllAbout(es, d.self, x));
  }

  // ---- how often an update is piggybacked ----

  /** Some entry of the message changed the record of x, so the update about it starts afresh. */
  predicate HeardAbout(b: Book, self: nat, from: nat, upds: seq<Gossip>, now: nat, x: nat)
    requires self in b.members && x in b.members
    decreases |upds|
  {
    upds != [] && !KillsSelf(self, upds[0]) &&
    var b1 := Hear(b, self, from, upds[0], now);
    b1.members[x] != b.members[x] || HeardAbout(b1, self, from, upds[1..], now, x)
  }

  /** Event e is a notification about x. */
  ghost predicate Notifies(n: Node, e: Event, x: nat)
    requires NodeInv(n) && x in n.context.book.members
  {
    if e.Hears? then
      n.context.active && HeardAbout(n.context.book, n.context.self, e.from, e.upds, e.now, x)
    else if e.Fails? then
      false
    else
      x in Step(n, e).context.book.members && Step(n, e).context.book.members[x] != n.context.book.members[x]
  }

  /** Event e sends a message that piggybacks the update about x. */
  ghost predicate Piggybacks(n: Node, e: Event, x: nat) {
    && e.Send? && e.i < |n.calls| && CanSend(n.context, n.calls[e.i])
    && exists g <- PackFor(n.context, n.calls[e.i]).upds :: g.id == x
  }

  /** How many messages have piggybacked x since it was last notified. */
  ghost function Tally(n: Node, events: seq<Event>, x: nat): nat
    requires NodeInv(n) && x in n.context.book.members
  {
    if events == [] then 0
    else
      var before, e := Run(n, events[..|events| - 1]), events[|events| - 1];
      RunKeeps(n, events[..|events| - 1]);
      if Notifies(before, e, x) then 0
      else Tally(n, events[..|events| - 1], x) + if Piggybacks(before, e, x) then 1 else 0
  }

  lemma ApplyCount(b: Book, from: nat, g: Gossip, now: nat, x: nat)
    requires DistinctNews(b.news) && x in b.members
    requires Apply(b, from, g, now).members[x] == b.members[x]
    ensures CountOf(Apply(b, from, g, now).news, x) == CountOf(b.news, x)
  {
    hide Without, Suspected, Notified;
    NotifiedCount(b.news, from, g.id, x);
  }

  lemma {:induction false} HearAllCount(b: Book, self: nat, txMax: nat, from: nat, upds: seq<Gossip>, now: nat, x: nat)
    requires BookInv(b, self, txMax) && x in b.members
    requires !HeardAbout(b, self, from, upds, now, x)
    ensures CountOf(HearAll(b, self, from, upds, now).news, x) == CountOf(b.news, x)
    decreases |upds|
  {
    if upds != [] && !KillsSelf(self, upds[0]) {
      var g := upds[0];
      var b1 := Hear(b, self, from, g, now);
      if g.id != self {
        ApplyCount(b, from, g, now, x);
        ApplyKeeps(b, self, txMax, from, g, now);
      } else {
        NotifiedCount(b.news, self, self, x);
        RefuteKeeps(b, self, txMax, g.state.incarnation);
      }
      hide Apply, Refute, BookInv;
      HearAllCount(b1, self, txMax, from, upds[1..], now, x);
    }
  }

  lemma {:induction false} ExpireLeavesDead(b: Book, self: nat, now: nat, k: nat, x: nat)
    requires k <= |b.suspects| && x in b.members && b.members[x].status == Dead
    ensures
      var r := Expire(b, self, now, k).book;
      x in r.members && r.members[x] == b.members[x]
    decreases |b.suspects| - k
  {
    hide Without, Suspected, Notified;
    if k < |b.suspects| {
      var item := b.suspects[k];
      if now <= item.deadline {
        ExpireLeavesDead(b, self, now, k + 1, x);
      } else if item.from != self {
        ExpireLeavesDead(b.(suspects := b.suspects[k := Item(item.id, self, item.deadline + b.pingTimeout)]),
                         self, now, k + 1, x);
      } else if item.id in b.members {
        var b1 := Kill(b, self, item.id, now);
        assert b1.members[x] == b.members[x];
        ExpireLeavesDead(b1, self, now, if |b1.suspects| < |b.suspects| then k else k + 1, x);
      } else {
        ExpireLeavesDead(b.(suspects := b.suspects[..k] + b.suspects[k + 1..]), self, now, k, x);
      }
    }
  }

  lemma {:induction false} ExpireCount(b: Book, self: nat, txMax: nat, now: nat, k: nat, x: nat)
    requires BookInv(b, self, txMax) && k <= |b.suspects| && x in b.members
    requires
      var r := Expire(b, self, now, k).book;
      x in r.members && r.members[x] == b.members[x]
    ensures CountOf(Expire(b, self, now, k).book.news, x) == CountOf(b.news, x)
    decreases |b.suspects| - k
  {
    hide BookInv, Apply;
    if k < |b.suspects| {
      var item := b.suspects[k];
      SuspectIsOther(b, self, txMax, k);
      if now <= item.deadline {
        ExpireCount(b, self, txMax, now, k + 1, x);
      } else if item.from != self {
        var kept := Item(item.id, self, item.deadline + b.pingTimeout);
        RetimeKeeps(b, self, txMax, k, kept);
        ExpireCount(b.(suspects := b.suspects[k := kept]), self, txMax, now, k + 1, x);
      } else {
        var b1 := Kill(b, self, item.id, now);
        var next := if |b1.suspects| < |b.suspects| then k else k + 1;
        KillOnly(b, self, txMax, item.id, now, x);
        ApplyKeeps(b, self, txMax, self, Gossip(item.id, State(b.members[item.id].incarnation, Dead)), now);
        if b1.members[x].status == Dead {
          ExpireLeavesDead(b1, self, now, next, x);
        }
        ExpireCount(b1, self, txMax, now, next, x);
      }
    }
  }

  /** Marking one suspect dead. */
  lemma KillOnly(b: Book, self: nat, txMax: nat, id: nat, now: nat, x: nat)
    requires BookInv(b, self, txMax) && id in b.members && x in b.members
    ensures
      var b1 := Kill(b, self, id, now);
      && x in b1.members
      && (b1.members[x] != b.members[x] ==> b1.members[x].status == Dead)
      && (b1.members[x] == b.members[x] ==> CountOf(b1.news, x) == CountOf(b.news, x))
  {
    hide Without, Suspected, Notified;
    NotifiedCount(b.news, self, id, x);
  }

  lemma {:induction false} PiggybackCount(news: seq<News>, members: map<nat, State>, id: nat, self: nat,
                                          txMax: nat, room: nat, x: nat)
    requires DistinctNews(news) && forall i :: 0 <= i < |news| ==> news[i].id in members
    ensures
      var p := Piggyback(news, members, id, self, txMax, room);
      && (CountOf(p.news, x) == -1 || (CountOf(news, x) >= 0 && CountOf(p.news, x) == CountOf(news, x) + 1))
      && ((exists g <- p.upds :: g.id == x) ==> CountOf(news, x) >= 0)
    decreases |news|
  {
    if news != [] && room != 0 {
      var header := news[0].id == id || news[0].id == self;
      var left := if header then room else room - 1;
      PiggybackCount(news[1..], members, id, self, txMax, left, x);
      var rest := Piggyback(news[1..], members, id, self, txMax, left);
      var p := Piggyback(news, members, id, self, txMax, room);
      if news[0].count + 1 > txMax {
        assert p.news == rest.news;
        if news[0].id == x {
          TailLacks(news);
        }
      } else {
        assert p.news[1..] == rest.news;
      }
    }
  }

  lemma TailLacks(news: seq<News>)
    requires DistinctNews(news) && news != []
    ensures CountOf(news[1..], news[0].id) == -1
  {
    ToldIffCount(news[1..], news[0].id);
    CountLeast(news[1..], news[0].id);
  }

  lemma CountLeast(news: seq<News>, x: nat)
    ensures CountOf(news, x) >= -1
  {
  }

  lemma {:induction false} CountBound(news: seq<News>, txMax: nat, x: nat)
    requires forall i :: 0 <= i < |news| ==> news[i].count <= txMax
    ensures CountOf(news, x) <= txMax
    decreases |news|
  {
    if news != [] {
      CountBound(news[1..], txMax, x);
    }
  }

  predicate TallyOk(count: int, tally: nat, txMax: nat) {
    if count >= 0 then tally <= count else tally <= txMax + 1
  }

  lemma QuietCount(n: Node, e: Event, x: nat)
    requires NodeInv(n) && x in n.context.book.members && !e.Send? && !Notifies(n, e, x)
    ensures CountOf(Step(n, e).context.book.news, x) == CountOf(n.context.book.news, x)
  {
    hide BookInv, HearAll, Expire, Tick, CountOf, HeardAbout, Without;
    StepFrame(n, e);
    var c := n.context;
    if c.active {
      match e
      case CheckSuspects(now) => ExpireCount(c.book, c.self, c.txMax, now, 0, x);
      case CheckIpings(_) =>
      case Progress(now) => TickCount(n, now, x);
      case Hears(from, upds, now) => HearAllCount(c.book, c.self, c.txMax, from, upds, now, x);
      case Forwards(_) =>
      case Fails(_) =>
    }
  }

  lemma TickCount(n: Node, now: nat, x: nat)
    requires NodeInv(n) && x in n.context.book.members
    requires
      var b := Tick(n.context, now).context.book;
      x in b.members && b.members[x] == n.context.book.members[x]
    ensures CountOf(Tick(n.context, now).context.book.news, x) == CountOf(n.context.book.news, x)
  {
    hide Apply, Seek, Gather, CountOf;
    var c := n.context;
    var p, b := c.probe, c.book;
    if p.target in b.members {
      var g := Gossip(p.target, State(b.members[p.target].incarnation, if p.phase == DPinged then Suspect else Dead));
      ApplyDomain(b, c.self, g, now);
      if Apply(b, c.self, g, now).members[x] == b.members[x] {
        ApplyCount(b, c.self, g, now, x);
      }
    }
  }

  lemma SendCount(n: Node, e: Event, x: nat, tally: nat)
    requires NodeInv(n) && e.Send? && TallyOk(CountOf(n.context.book.news, x), tally, n.context.txMax)
    ensures TallyOk(CountOf(Step(n, e).context.book.news, x), tally + if Piggybacks(n, e, x) then 1 else 0,
                    n.context.txMax)
  {
    hide Piggyback, CountOf, SuspectsOk;
    var c := n.context;
    CountBound(c.book.news, c.txMax, x);
    CountLeast(c.book.news, x);
    if e.i < |n.calls| {
      PiggybackCount(c.book.news, c.book.members, n.calls[e.i].id, c.self, c.txMax, PIGGYBACK_ENTRIES, x);
    }
  }

  lemma {:induction false} TallyHolds(n: Node, events: seq<Event>, x: nat)
    requires NodeInv(n) && x in n.context.book.members
    ensures TallyOk(CountOf(Run(n, events).context.book.news, x), Tally(n, events, x), n.context.txMax)
    decreases |events|
  {
    hide NodeInv, Step, CountOf, Notifies, Piggybacks;
    CountLeast(n.context.book.news, x);
    if events != [] {
      var init, e := events[..|events| - 1], events[|events| - 1];
      TallyHolds(n, init, x);
      RunKeeps(n, init);
      var before := Run(n, init);
      CountLeast(Step(before, e).context.book.news, x);
      if !Notifies(before, e, x) {
        if e.Send? {
          SendCount(before, e, x, Tally(n, init, x));
        } else {
          QuietCount(before, e, x);
          NoPiggyback(before, e, x);
        }
      }
    }
  }

  lemma NoPiggyback(n: Node, e: Event, x: nat)
    requires !e.Send?
    ensures !Piggybacks(n, e, x)
  {
  }

  /** In every run an update is piggybacked at most sc_piggyback_tx_max + 1 times per notification. */
  lemma PiggybackedAtMost(n: Node, events: seq<Event>, x: nat)
    requires NodeInv(n) && x in n.context.book.members
    ensures Tally(n, events, x) <= n.context.txMax + 1
  {
    hide Tally, CountOf;
    TallyHolds(n, events, x);
    RunKeeps(n, events);
    CountBound(Run(n, events).context.book.news, n.context.txMax, x);
  }
}
