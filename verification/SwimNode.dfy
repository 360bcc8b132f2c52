/**
 Runs of one SWIM node: what every locked section keeps.

 A node is its context and the messages its threads have decided to send but not yet sent.  An
 event is one locked section; events of any threads interleave freely, and messages may hold
 anything.
 */
module SwimNode {
  import opened SwimMember
  import opened SwimContext

  datatype Node = Node(context: Context, calls: seq<Call>)

  datatype Event =
    | CheckSuspects(now: nat)
    | CheckIpings(now: nat)
    | Progress(now: nat)
    | Send(i: nat)
    | Hears(from: nat, upds: seq<Gossip>, now: nat)
    | Forwards(from: nat)
    // crt_swim_cli_cb: an acknowledged message to id failed
    | Fails(id: nat)

  function Start(rank: nat, ranks: seq<nat>, first: nat): Node {
    Node(Initial(rank, ranks, first), [])
  }

  function Add(n: Node, o: Outcome): Node {
    Node(o.context, n.calls + o.calls)
  }

  ghost function Step(n: Node, e: Event): Node {
    var c := n.context;
    if e.Fails? then (if e.id == c.self then n else n.(context := RpcFailed(c, e.id)))
    else if !WellFormed(c) || !c.active then n
    else
      match e
      case CheckSuspects(now) =>
        var x := Expire(c.book, c.self, now, 0);
        Node(c.(book := x.book), n.calls + x.calls)
      case CheckIpings(now) => n.(context := c.(ipings := Pending(c.ipings, now)))
      case Progress(now) => Add(n, Tick(c, now))
      case Send(i) => if i < |n.calls| then Node(AfterSend(c, n.calls[i]), n.calls[..i] + n.calls[i + 1..]) else n
      case Hears(from, upds, now) => Add(n, Receive(c, from, upds, now))
      case Forwards(from) => Add(n, Forward(c, from))
  }

  ghost function Run(n: Node, events: seq<Event>): Node {
    if events == [] then n else Step(Run(n, events[..|events| - 1]), events[|events| - 1])
  }

  // ---- lists without repetition ----

  ghost predicate DistinctItems(items: seq<Item>) {
    forall i, j :: 0 <= i < j < |items| ==> items[i].id != items[j].id
  }

  ghost predicate DistinctNews(news: seq<News>) {
    forall i, j :: 0 <= i < j < |news| ==> news[i].id != news[j].id
  }

  lemma ListedCons(h: Item, t: seq<Item>, x: nat)
    ensures Listed([h] + t, x) <==> h.id == x || Listed(t, x)
  {
    var s := [h] + t;
    assert s[0] == h;
    if Listed(t, x) {
      var i :| 0 <= i < |t| && t[i].id == x;
      assert s[i + 1].id == x;
    }
  }

  lemma DistinctCons(h: Item, t: seq<Item>)
    ensures DistinctItems([h] + t) <==> DistinctItems(t) && !Listed(t, h.id)
  {
    var s := [h] + t;
    if DistinctItems(s) {
      forall i, j | 0 <= i < j < |t| ensures t[i].id != t[j].id {
        assert s[i + 1].id != s[j + 1].id;
      }
      forall i | 0 <= i < |t| ensures t[i].id != h.id {
        assert s[0].id != s[i + 1].id;
      }
    }
  }

  lemma ListedSplit(items: seq<Item>, x: nat)
    requires items != []
    ensures Listed(items, x) <==> items[0].id == x || Listed(items[1..], x)
    ensures DistinctItems(items) <==> DistinctItems(items[1..]) && !Listed(items[1..], items[0].id)
  {
    ListedCons(items[0], items[1..], x);
    DistinctCons(items[0], items[1..]);
    assert [items[0]] + items[1..] == items;
  }

  lemma {:induction false} WithoutExact(items: seq<Item>, id: nat, x: nat)
    requires DistinctItems(items)
    ensures DistinctItems(Without(items, id))
    ensures Listed(Without(items, id), x) <==> Listed(items, x) && x != id
    decreases |items|
  {
    hide DistinctItems, Listed;
    if items == [] {
      assert !Listed([], x) by { ListedNone(x); }
    } else {
      var h, t := items[0], items[1..];
      ListedSplit(items, x);
      ListedSplit(items, id);
      if h.id != id {
        WithoutExact(t, id, x);
        WithoutExact(t, id, h.id);
        ListedCons(h, Without(t, id), x);
        DistinctCons(h, Without(t, id));
      }
    }
  }

  lemma ListedNone(x: nat)
    ensures !Listed([], x)
  {
  }

  lemma SuspectedExact(items: seq<Item>, from: nat, id: nat, now: nat, x: nat)
    requires DistinctItems(items)
    ensures DistinctItems(Suspected(items, from, id, now))
    ensures Listed(Suspected(items, from, id, now), x) <==> Listed(items, x) || x == id
  {
    var s := Suspected(items, from, id, now);
    if !Listed(items, id) {
      assert s[|items|].id == id;
      if Listed(items, x) {
        var i :| 0 <= i < |items| && items[i].id == x;
        assert s[i].id == x;
      }
    }
  }

  /** The number of times the entry for id has been sent, or -1 if there is none. */
  function CountOf(news: seq<News>, id: nat): int {
    if news == [] then -1 else if news[0].id == id then news[0].count else CountOf(news[1..], id)
  }

  lemma {:induction false} ToldIffCount(news: seq<News>, id: nat)
    ensures Told(news, id) <==> CountOf(news, id) >= 0
    decreases |news|
  {
    if news != [] {
      ToldIffCount(news[1..], id);
      if Told(news[1..], id) {
        var i :| 0 <= i < |news| - 1 && news[1..][i].id == id;
        assert news[i + 1].id == id;
      }
      if Told(news, id) && news[0].id != id {
        var i :| 0 <= i < |news| && news[i].id == id;
        assert news[1..][i - 1].id == id;
      }
    }
  }

  lemma {:induction false} RenewedCount(news: seq<News>, from: nat, id: nat, x: nat)
    ensures |Renewed(news, from, id)| == |news|
    ensures forall i :: 0 <= i < |news| ==> Renewed(news, from, id)[i].id == news[i].id
    ensures CountOf(Renewed(news, from, id), x) == if x == id && CountOf(news, id) >= 0 then 0 else CountOf(news, x)
    decreases |news|
  {
    if news != [] {
      RenewedCount(news[1..], from, id, x);
      if news[0].id != id {
        assert Renewed(news, from, id)[1..] == Renewed(news[1..], from, id);
      } else {
        assert Renewed(news, from, id)[1..] == news[1..];
      }
    }
  }

  /** A notification restarts the count of one member and leaves the others alone. */
  lemma NotifiedCount(news: seq<News>, from: nat, id: nat, x: nat)
    requires DistinctNews(news)
    ensures DistinctNews(Notified(news, from, id))
    ensures CountOf(Notified(news, from, id), x) == if x == id then 0 else CountOf(news, x)
  {
    ToldIffCount(news, id);
    RenewedCount(news, from, id, x);
    if !Told(news, id) {
      assert Notified(news, from, id)[1..] == news;
    }
  }

  // ---- what every locked section keeps ----

  predicate HasStatus(b: Book, id: nat, status: Status) {
    id in b.members && b.members[id].status == status
  }

  /**
   The suspect list holds each member on record as SUSPECT once, and of the others at most some
   that are DEAD, because a failed acknowledgement does not touch the list.
   */
  ghost predicate SuspectsOk(b: Book) {
    && DistinctItems(b.suspects)
    && (forall id: nat :: HasStatus(b, id, Suspect) ==> Listed(b.suspects, id))
    && (forall id: nat :: Listed(b.suspects, id) ==> HasStatus(b, id, Suspect) || HasStatus(b, id, Dead))
  }

  ghost predicate NewsExact(b: Book, txMax: nat) {
    && DistinctNews(b.news)
    && (forall i :: 0 <= i < |b.news| ==> b.news[i].id in b.members && b.news[i].count <= txMax)
  }

  predicate SelfAlive(b: Book, self: nat) {
    self in b.members && b.members[self].status == Alive && ID_INVALID !in b.members
  }

  ghost predicate BookInv(b: Book, self: nat, txMax: nat) {
    SuspectsOk(b) && NewsExact(b, txMax) && SelfAlive(b, self)
  }

  lemma ApplySuspects(b: Book, from: nat, g: Gossip, now: nat)
    requires SuspectsOk(b)
    ensures SuspectsOk(Apply(b, from, g, now))
  {
    hide Without, Suspected, Notified, DistinctItems, Listed;
    var r := Apply(b, from, g, now);
    if r != b {
      forall id: nat
        ensures HasStatus(r, id, Suspect) ==> Listed(r.suspects, id)
        ensures Listed(r.suspects, id) ==> HasStatus(r, id, Suspect) || HasStatus(r, id, Dead)
      {
        SuspectedExact(b.suspects, from, g.id, now, id);
        WithoutExact(b.suspects, g.id, id);
        assert id != g.id ==> forall t :: HasStatus(r, id, t) == HasStatus(b, id, t);
      }
      SuspectedExact(b.suspects, from, g.id, now, 0);
      WithoutExact(b.suspects, g.id, 0);
    }
  }

  lemma NotifyNews(b: Book, from: nat, id: nat, txMax: nat)
    requires NewsExact(b, txMax) && id in b.members
    ensures DistinctNews(Notified(b.news, from, id))
    ensures forall i :: 0 <= i < |Notified(b.news, from, id)| ==>
              Notified(b.news, from, id)[i].id in b.members && Notified(b.news, from, id)[i].count <= txMax
  {
    NotifiedCount(b.news, from, id, id);
    RenewedCount(b.news, from, id, id);
    RenewedBound(b.news, from, id, txMax);
  }

  lemma {:induction false} RenewedBound(news: seq<News>, from: nat, id: nat, txMax: nat)
    requires forall i :: 0 <= i < |news| ==> news[i].count <= txMax
    ensures forall i :: 0 <= i < |Renewed(news, from, id)| ==> Renewed(news, from, id)[i].count <= txMax
    decreases |news|
  {
    if news != [] {
      RenewedBound(news[1..], from, id, txMax);
    }
  }

  lemma ApplyKeeps(b: Book, self: nat, txMax: nat, from: nat, g: Gossip, now: nat)
    requires BookInv(b, self, txMax) && g.id != self
    ensures BookInv(Apply(b, from, g, now), self, txMax)
  {
    hide Without, Suspected, Notified, SuspectsOk, DistinctNews;
    ApplySuspects(b, from, g, now);
    if g.id in b.members {
      NotifyNews(b, from, g.id, txMax);
    }
  }

  lemma RefuteKeeps(b: Book, self: nat, txMax: nat, incarnation: nat)
    requires BookInv(b, self, txMax)
    ensures BookInv(Refute(b, self, incarnation), self, txMax)
  {
    hide Notified, DistinctItems, Listed, DistinctNews;
    NotifyNews(b, self, self, txMax);
  }

  lemma {:induction false} HearAllKeeps(b: Book, self: nat, txMax: nat, from: nat, upds: seq<Gossip>, now: nat)
    requires BookInv(b, self, txMax)
    ensures BookInv(HearAll(b, self, from, upds, now), self, txMax)
    decreases |upds|
  {
    hide Apply, Refute, SuspectsOk, NewsExact;
    if upds != [] && !KillsSelf(self, upds[0]) {
      var g := upds[0];
      if g.id != self {
        ApplyKeeps(b, self, txMax, from, g, now);
      } else {
        RefuteKeeps(b, self, txMax, g.state.incarnation);
      }
      HearAllKeeps(Hear(b, self, from, g, now), self, txMax, from, upds[1..], now);
    }
  }

  lemma RetimeKeeps(b: Book, self: nat, txMax: nat, k: nat, item: Item)
    requires BookInv(b, self, txMax) && k < |b.suspects| && item.id == b.suspects[k].id
    ensures BookInv(b.(suspects := b.suspects[k := item]), self, txMax)
  {
    hide DistinctNews;
    var s := b.suspects[k := item];
    assert forall i :: 0 <= i < |s| ==> s[i].id == b.suspects[i].id;
    forall id: nat ensures Listed(s, id) <==> Listed(b.suspects, id) {
      if Listed(b.suspects, id) {
        var i :| 0 <= i < |s| && b.suspects[i].id == id;
        assert s[i].id == id;
      }
    }
  }

  lemma SuspectIsOther(b: Book, self: nat, txMax: nat, k: nat)
    requires BookInv(b, self, txMax) && k < |b.suspects|
    ensures b.suspects[k].id in b.members && b.suspects[k].id != self
  {
    assert Listed(b.suspects, b.suspects[k].id);
  }

  lemma {:induction false} ExpireKeeps(b: Book, self: nat, txMax: nat, now: nat, k: nat)
    requires BookInv(b, self, txMax) && k <= |b.suspects|
    ensures BookInv(Expire(b, self, now, k).book, self, txMax)
    decreases |b.suspects| - k
  {
    hide Apply, BookInv;
    if k < |b.suspects| {
      var item := b.suspects[k];
      SuspectIsOther(b, self, txMax, k);
      if now <= item.deadline {
        ExpireKeeps(b, self, txMax, now, k + 1);
      } else if item.from != self {
        var kept := Item(item.id, self, item.deadline + b.pingTimeout);
        RetimeKeeps(b, self, txMax, k, kept);
        ExpireKeeps(b.(suspects := b.suspects[k := kept]), self, txMax, now, k + 1);
      } else {
        var b1 := Kill(b, self, item.id, now);
        ApplyKeeps(b, self, txMax, self, Gossip(item.id, State(b.members[item.id].incarnation, Dead)), now);
        ExpireKeeps(b1, self, txMax, now, if |b1.suspects| < |b.suspects| then k else k + 1);
      }
    }
  }

  lemma {:induction false} PiggybackNews(news: seq<News>, members: map<nat, State>, id: nat, self: nat,
                                         txMax: nat, room: nat)
    requires DistinctNews(news) && forall i :: 0 <= i < |news| ==> news[i].id in members && news[i].count <= txMax
    ensures
      var p := Piggyback(news, members, id, self, txMax, room);
      && DistinctNews(p.news)
      && (forall i :: 0 <= i < |p.news| ==> Told(news, p.news[i].id) && p.news[i].count <= txMax)
    decreases |news|
  {
    if news != [] && room != 0 {
      var header := news[0].id == id || news[0].id == self;
      PiggybackNews(news[1..], members, id, self, txMax, if header then room else room - 1);
      var rest := Piggyback(news[1..], members, id, self, txMax, if header then room else room - 1);
      forall i | 0 <= i < |rest.news| ensures Told(news, rest.news[i].id) && rest.news[i].id != news[0].id {
        var j :| 0 <= j < |news| - 1 && news[1..][j].id == rest.news[i].id;
        assert news[j + 1].id == rest.news[i].id;
      }
    }
  }

  // ---- messages ----

  predicate DistinctGossip(upds: seq<Gossip>) {
    forall i, j :: 0 <= i < j < |upds| ==> upds[i].id != upds[j].id
  }

  /** Every piggybacked entry is the record of a member on the update list, and none is a header. */
  lemma {:induction false} PiggybackEntries(news: seq<News>, members: map<nat, State>, id: nat, self: nat,
                                            txMax: nat, room: nat)
    requires DistinctNews(news) && forall i :: 0 <= i < |news| ==> news[i].id in members
    ensures
      var p := Piggyback(news, members, id, self, txMax, room);
      && |p.upds| <= room && DistinctGossip(p.upds)
      && (forall i :: 0 <= i < |p.upds| ==>
            && Told(news, p.upds[i].id) && p.upds[i].id in members && p.upds[i].state == members[p.upds[i].id]
            && p.upds[i].id != id && p.upds[i].id != self)
    decreases |news|
  {
    if news != [] && room != 0 {
      var header := news[0].id == id || news[0].id == self;
      PiggybackEntries(news[1..], members, id, self, txMax, if header then room else room - 1);
      var rest := Piggyback(news[1..], members, id, self, txMax, if header then room else room - 1);
      assert Told(news, news[0].id);
      forall i | 0 <= i < |rest.upds| ensures Told(news, rest.upds[i].id) && rest.upds[i].id != news[0].id {
        var j :| 0 <= j < |news| - 1 && news[1..][j].id == rest.upds[i].id;
        assert news[j + 1].id == rest.upds[i].id;
      }
    }
  }

  ghost predicate NodeInv(n: Node) {
    && WellFormed(n.context)
    && BookInv(n.context.book, n.context.self, n.context.txMax)
    && ProbeOk(n.context) && |n.context.ring| <= n.context.groupSize + 1
  }

  /** Target and helpers to be asked are other members, and there are such helpers only after a timeout. */
  ghost predicate ProbeOk(c: Context) {
    && c.probe.target != c.self && (c.probe.target != ID_INVALID ==> c.probe.target in c.book.members)
    && (c.probe.subgroup != [] ==> c.probe.phase == TimedOut && c.probe.target != ID_INVALID)
    && forall i :: 0 <= i < |c.probe.subgroup| ==>
         c.probe.subgroup[i] in c.book.members && c.probe.subgroup[i] != c.self
  }

  /**
   Every message names its subject first, holds each member at most once, fits the buffer that
   was allocated for it, and repeats the sender's records of that moment.
   */
  lemma MessageSound(c: Context, call: Call)
    requires WellFormed(c) && BookInv(c.book, c.self, c.txMax) && CanSend(c, call)
    ensures
      var m := Message(c, call);
      && m[0].id == call.id && DistinctGossip(m)
      && |m| <= PIGGYBACK_ENTRIES + (if call.id != c.self then 2 else 1)
      && (forall i :: 0 <= i < |m| ==> m[i].id in c.book.members && m[i].state == c.book.members[m[i].id])
  {
    PiggybackEntries(c.book.news, c.book.members, call.id, c.self, c.txMax, PIGGYBACK_ENTRIES);
    hide Piggyback, DistinctNews, SuspectsOk;
  }

  lemma SendKeeps(c: Context, call: Call)
    requires WellFormed(c) && BookInv(c.book, c.self, c.txMax)
    ensures WellFormed(AfterSend(c, call)) && BookInv(AfterSend(c, call).book, c.self, c.txMax)
  {
    PiggybackNews(c.book.news, c.book.members, call.id, c.self, c.txMax, PIGGYBACK_ENTRIES);
    hide Piggyback, DistinctNews, DistinctItems, Listed;
    if CanSend(c, call) {
      var news := PackFor(c, call).news;
      forall i | 0 <= i < |news| ensures news[i].id in c.book.members {
        var j :| 0 <= j < |c.book.news| && c.book.news[j].id == news[i].id;
      }
    }
  }

  lemma ApplyDomain(b: Book, from: nat, g: Gossip, now: nat)
    ensures Apply(b, from, g, now).members.Keys == b.members.Keys && Apply(b, from, g, now).pingTimeout >= b.pingTimeout
  {
    hide Without, Suspected, Notified;
  }

  lemma {:induction false} ExpireDomain(b: Book, self: nat, now: nat, k: nat)
    requires k <= |b.suspects|
    ensures Expire(b, self, now, k).book.members.Keys == b.members.Keys
    ensures Expire(b, self, now, k).book.pingTimeout >= b.pingTimeout
    decreases |b.suspects| - k
  {
    hide Apply;
    if k < |b.suspects| {
      var item := b.suspects[k];
      if now <= item.deadline {
        ExpireDomain(b, self, now, k + 1);
      } else if item.from != self {
        var kept := Item(item.id, self, item.deadline + b.pingTimeout);
        ExpireDomain(b.(suspects := b.suspects[k := kept]), self, now, k + 1);
      } else if item.id in b.members {
        var b1 := Kill(b, self, item.id, now);
        ApplyDomain(b, self, Gossip(item.id, State(b.members[item.id].incarnation, Dead)), now);
        ExpireDomain(b1, self, now, if |b1.suspects| < |b.suspects| then k else k + 1);
      } else {
        ExpireDomain(b.(suspects := b.suspects[..k] + b.suspects[k + 1..]), self, now, k);
      }
    }
  }

  lemma {:induction false} HearAllSlower(b: Book, self: nat, from: nat, upds: seq<Gossip>, now: nat)
    requires self in b.members
    ensures HearAll(b, self, from, upds, now).pingTimeout >= b.pingTimeout
    decreases |upds|
  {
    hide Apply;
    if upds != [] && !KillsSelf(self, upds[0]) {
      ApplyDomain(b, from, upds[0], now);
      HearAllSlower(Hear(b, self, from, upds[0], now), self, from, upds[1..], now);
    }
  }

  lemma TickKeeps(n: Node, now: nat)
    requires NodeInv(n)
    ensures NodeInv(Add(n, Tick(n.context, now)))
  {
    hide Apply, Seek, Gather, BookInv;
    var c := n.context;
    var p, b := c.probe, c.book;
    if p.target != ID_INVALID && p.target in b.members && p.phase in {DPinged, IPinged} {
      var g := Gossip(p.target, State(b.members[p.target].incarnation, if p.phase == DPinged then Suspect else Dead));
      ApplyKeeps(b, c.self, c.txMax, c.self, g, now);
      ApplyDomain(b, c.self, g, now);
    }
  }

  lemma ReceiveKeeps(n: Node, from: nat, upds: seq<Gossip>, now: nat)
    requires NodeInv(n)
    ensures NodeInv(Add(n, Receive(n.context, from, upds, now)))
  {
    hide HearAll, BookInv, Without;
    HearAllKeeps(n.context.book, n.context.self, n.context.txMax, from, upds, now);
  }

  lemma StepKeeps(n: Node, e: Event)
    requires NodeInv(n)
    ensures NodeInv(Step(n, e))
  {
    var c := n.context;
    hide BookInv, Expire, Tick, Receive, AfterSend, Without;
    match e
    case CheckSuspects(now) =>
      ExpireKeeps(c.book, c.self, c.txMax, now, 0);
      ExpireDomain(c.book, c.self, now, 0);
    case CheckIpings(_) =>
    case Progress(now) => TickKeeps(n, now);
    case Send(i) =>
      if i < |n.calls| {
        SendKeeps(c, n.calls[i]);
        SendProbe(c, n.calls[i]);
      }
    case Hears(from, upds, now) => ReceiveKeeps(n, from, upds, now);
    case Forwards(_) =>
    case Fails(id) => FailsKeeps(n, id);
  }

  lemma FailsKeeps(n: Node, id: nat)
    requires NodeInv(n)
    ensures NodeInv(Step(n, Fails(id)))
  {
    hide Listed, DistinctItems, DistinctNews;
    var b, r := n.context.book, Step(n, Fails(id)).context.book;
    forall x: nat
      ensures HasStatus(r, x, Suspect) ==> HasStatus(b, x, Suspect)
      ensures HasStatus(b, x, Suspect) || HasStatus(b, x, Dead) ==> HasStatus(r, x, Suspect) || HasStatus(r, x, Dead)
    {
    }
  }

  lemma SendProbe(c: Context, call: Call)
    ensures AfterSend(c, call).probe == c.probe && AfterSend(c, call).self == c.self
    ensures AfterSend(c, call).txMax == c.txMax && AfterSend(c, call).book.members == c.book.members
    ensures AfterSend(c, call).ring == c.ring && AfterSend(c, call).groupSize == c.groupSize
  {
  }

  /** What every event leaves as it is. */
  lemma StepFrame(n: Node, e: Event)
    requires NodeInv(n)
    ensures Step(n, e).context.book.members.Keys == n.context.book.members.Keys
    ensures Step(n, e).context.txMax == n.context.txMax && Step(n, e).context.self == n.context.self
    ensures Step(n, e).context.book.pingTimeout >= n.context.book.pingTimeout
  {
    hide Apply, HearAll, Expire, Seek, Gather, BookInv, Piggyback, Without;
    var c := n.context;
    match e
    case CheckSuspects(now) => ExpireDomain(c.book, c.self, now, 0);
    case CheckIpings(_) =>
    case Progress(now) => TickFrame(c, now);
    case Send(_) =>
    case Hears(from, upds, now) => HearAllSlower(c.book, c.self, from, upds, now);
    case Forwards(_) =>
    case Fails(_) =>
  }

  lemma TickFrame(c: Context, now: nat)
    requires WellFormed(c)
    ensures Tick(c, now).context.book.members.Keys == c.book.members.Keys
    ensures Tick(c, now).context.txMax == c.txMax && Tick(c, now).context.self == c.self
    ensures Tick(c, now).context.book.pingTimeout >= c.book.pingTimeout
  {
    hide Apply, Seek, Gather;
    var p, b := c.probe, c.book;
    if p.target in b.members {
      ApplyDomain(b, c.self, Gossip(p.target, State(b.members[p.target].incarnation, Suspect)), now);
      ApplyDomain(b, c.self, Gossip(p.target, State(b.members[p.target].incarnation, Dead)), now);
    }
  }

  /**
   In every run: every member on record as SUSPECT is on the suspect list, whoever else is on it
   is on record as DEAD, both lists hold each member at most once, the node never suspects or
   pings itself, and its own record stays ALIVE.  Members and settings stay the same, and the ping
   timeout only grows.
   */
  lemma {:induction false} RunKeeps(n: Node, events: seq<Event>)
    requires NodeInv(n)
    ensures NodeInv(Run(n, events))
    ensures
      var c, r := n.context, Run(n, events).context;
      && r.book.members.Keys == c.book.members.Keys && r.txMax == c.txMax && r.self == c.self
      && r.book.pingTimeout >= c.book.pingTimeout
    decreases |events|
  {
    hide NodeInv, Step;
    if events != [] {
      RunKeeps(n, events[..|events| - 1]);
      StepKeeps(Run(n, events[..|events| - 1]), events[|events| - 1]);
      StepFrame(Run(n, events[..|events| - 1]), events[|events| - 1]);
    }
  }

  lemma StartInv(rank: nat, ranks: seq<nat>, first: nat)
    requires rank in ranks && ID_INVALID !in ranks && first < |ranks|
    ensures NodeInv(Start(rank, ranks, first))
  {
  }
}
