/**
 Runs of N SWIM nodes over a network that loses, duplicates and reorders messages.

 A sent message stays available for ever and may be delivered any number of times or never.
 The main result bounds what anybody can believe: no record and no message in flight says that
 a member is not dead at an incarnation above that member's own.
 */
module SwimCluster {
  import opened SwimMember
  import opened SwimContext
  import opened SwimNode

  datatype Packet = Packet(from: nat, to: nat, upds: seq<Gossip>)

  datatype World = World(nodes: seq<Node>, sent: seq<Packet>)

  datatype Step =
    | Local(y: nat, e: Event)
    | Transmit(y: nat, i: nat)
    | Deliver(k: nat, now: nat)
    | AckFailed(k: nat)

  /** Events that need no message. */
  predicate IsLocal(e: Event) {
    e.CheckSuspects? || e.CheckIpings? || e.Progress? || e.Forwards?
  }

  ghost function Do(w: World, s: Step): World {
    match s
    case Local(y, e) =>
      if y < |w.nodes| && IsLocal(e) then w.(nodes := w.nodes[y := SwimNode.Step(w.nodes[y], e)]) else w
    case Transmit(y, i) =>
      if y < |w.nodes| && i < |w.nodes[y].calls| then
        var c, call := w.nodes[y].context, w.nodes[y].calls[i];
        World(w.nodes[y := SwimNode.Step(w.nodes[y], Send(i))],
              w.sent + if CanSend(c, call) then [Packet(c.self, call.to, Message(c, call))] else [])
      else w
    case Deliver(k, now) =>
      if k < |w.sent| && w.sent[k].to < |w.nodes| then
        var p := w.sent[k];
        w.(nodes := w.nodes[p.to := SwimNode.Step(w.nodes[p.to], Hears(p.from, p.upds, now))])
      else w
    case AckFailed(k) =>
      // only messages about an INACTIVE member ask for an acknowledgement
      if k < |w.sent| && w.sent[k].from < |w.nodes| && w.sent[k].upds != []
         && w.sent[k].upds[0].state.status == Inactive
      then
        var p := w.sent[k];
        w.(nodes := w.nodes[p.from := SwimNode.Step(w.nodes[p.from], Fails(p.to))])
      else w
  }

  ghost function Run(w: World, steps: seq<Step>): World {
    if steps == [] then w else Do(Run(w, steps[..|steps| - 1]), steps[|steps| - 1])
  }

  // ---- the invariant ----

  /** Node y is the member of that rank and knows exactly the ranks below size. */
  ghost predicate Shaped(n: Node, y: nat, size: nat) {
    && WellFormed(n.context) && n.context.self == y < size
    && (forall x: nat :: x in n.context.book.members <==> x < size)
  }

  /** Nothing the node does is about, or addressed to, itself by mistake. */
  ghost predicate Outward(n: Node) {
    var c := n.context;
    && (forall i :: 0 <= i < |c.book.suspects| ==> c.book.suspects[i].id != c.self)
    && (forall i :: 0 <= i < |c.ipings| ==> c.ipings[i].from != c.self)
    && (forall i :: 0 <= i < |c.probe.subgroup| ==> c.probe.subgroup[i] != c.self)
    && (forall i :: 0 <= i < |n.calls| ==> n.calls[i].to != c.self)
    && c.probe.target != c.self
  }

  ghost function Own(w: World, x: nat): nat
    requires x < |w.nodes|
  {
    if x in w.nodes[x].context.book.members then w.nodes[x].context.book.members[x].incarnation else 0
  }

  ghost function Owns(w: World): seq<nat> {
    seq(|w.nodes|, x requires 0 <= x < |w.nodes| => Own(w, x))
  }

  /** A state that does not outrun its member: dead, or at most the member's own incarnation. */
  predicate Modest(x: nat, s: State, own: seq<nat>) {
    s.status == Dead || (x < |own| && s.incarnation <= own[x])
  }

  ghost predicate ModestBook(b: Book, self: nat, own: seq<nat>) {
    forall x: nat :: x in b.members && x != self ==> Modest(x, b.members[x], own)
  }

  ghost predicate ModestPacket(p: Packet, own: seq<nat>) {
    p.from != p.to && p.upds != [] && forall i :: 0 <= i < |p.upds| ==> Modest(p.upds[i].id, p.upds[i].state, own)
  }

  ghost predicate NodeOk(w: World, y: nat)
    requires y < |w.nodes|
  {
    Shaped(w.nodes[y], y, |w.nodes|) && Outward(w.nodes[y]) && ModestBook(w.nodes[y].context.book, y, Owns(w))
  }

  ghost predicate Inv(w: World) {
    && (forall y: nat :: y < |w.nodes| ==> NodeOk(w, y))
    && (forall k :: 0 <= k < |w.sent| ==> ModestPacket(w.sent[k], Owns(w)))
  }

  /** Own incarnations only grow. */
  predicate Grown(own: seq<nat>, own': seq<nat>) {
    |own| == |own'| && forall x :: 0 <= x < |own| ==> own[x] <= own'[x]
  }

  lemma ModestGrown(b: Book, self: nat, own: seq<nat>, own': seq<nat>)
    requires ModestBook(b, self, own) && Grown(own, own')
    ensures ModestBook(b, self, own')
  {
  }

  lemma PacketGrown(p: Packet, own: seq<nat>, own': seq<nat>)
    requires ModestPacket(p, own) && Grown(own, own')
    ensures ModestPacket(p, own')
  {
  }

  // ---- what one node does ----

  /** Everything a step of node y keeps, given what y's book and its message say. */
  ghost predicate KeepsBook(b: Book, r: Book, self: nat, own: seq<nat>) {
    && r.members.Keys == b.members.Keys && self in r.members && self in b.members
    && b.members[self].incarnation <= r.members[self].incarnation
    && ModestBook(r, self, own)
  }

  lemma WithoutSubset(items: seq<Item>, id: nat, self: nat)
    requires forall i :: 0 <= i < |items| ==> items[i].id != self
    ensures forall i :: 0 <= i < |Without(items, id)| ==> Without(items, id)[i].id != self
  {
  }

  lemma WithoutFrom(items: seq<Item>, id: nat, self: nat)
    requires forall i :: 0 <= i < |items| ==> items[i].from != self
    ensures forall i :: 0 <= i < |Without(items, id)| ==> Without(items, id)[i].from != self
  {
  }

  ghost predicate NotListed(items: seq<Item>, self: nat) {
    forall i :: 0 <= i < |items| ==> items[i].id != self
  }

  lemma ApplyOk(b: Book, self: nat, from: nat, g: Gossip, now: nat, own: seq<nat>)
    requires self in b.members && g.id != self && ModestBook(b, self, own) && Modest(g.id, g.state, own)
    requires NotListed(b.suspects, self)
    ensures KeepsBook(b, Apply(b, from, g, now), self, own)
    ensures Apply(b, from, g, now).members[self] == b.members[self]
    ensures NotListed(Apply(b, from, g, now).suspects, self)
  {
    hide Without, Notified;
    WithoutSubset(b.suspects, g.id, self);
  }

  lemma {:induction false} HearAllOk(b: Book, self: nat, from: nat, upds: seq<Gossip>, now: nat, own: seq<nat>)
    requires self in b.members && ModestBook(b, self, own) && NotListed(b.suspects, self)
    requires forall i :: 0 <= i < |upds| ==> Modest(upds[i].id, upds[i].state, own)
    ensures KeepsBook(b, HearAll(b, self, from, upds, now), self, own)
    ensures NotListed(HearAll(b, self, from, upds, now).suspects, self)
    decreases |upds|
  {
    hide Apply, Notified, NotListed;
    if upds != [] && !KillsSelf(self, upds[0]) {
      var g := upds[0];
      if g.id != self {
        ApplyOk(b, self, from, g, now, own);
      }
      HearAllOk(Hear(b, self, from, g, now), self, from, upds[1..], now, own);
    }
  }

  /** The dead are modest, so a kill keeps everything. */
  lemma KillOk(b: Book, self: nat, id: nat, now: nat, own: seq<nat>)
    requires self in b.members && id in b.members && id != self && ModestBook(b, self, own)
    requires NotListed(b.suspects, self)
    ensures KeepsBook(b, Kill(b, self, id, now), self, own)
    ensures Kill(b, self, id, now).members[self] == b.members[self]
    ensures NotListed(Kill(b, self, id, now).suspects, self)
  {
    hide Apply;
    ApplyOk(b, self, self, Gossip(id, State(b.members[id].incarnation, Dead)), now, own);
  }

  lemma {:induction false} ExpireOk(b: Book, self: nat, now: nat, k: nat, own: seq<nat>)
    requires self in b.members && ModestBook(b, self, own) && NotListed(b.suspects, self)
    requires k <= |b.suspects|
    ensures KeepsBook(b, Expire(b, self, now, k).book, self, own)
    ensures NotListed(Expire(b, self, now, k).book.suspects, self)
    ensures forall i :: 0 <= i < |Expire(b, self, now, k).calls| ==> Expire(b, self, now, k).calls[i].to != self
    decreases |b.suspects| - k
  {
    hide Apply, ModestBook;
    if k < |b.suspects| {
      var item := b.suspects[k];
      if now <= item.deadline {
        ExpireOk(b, self, now, k + 1, own);
      } else if item.from != self {
        var b1 := b.(suspects := b.suspects[k := Item(item.id, self, item.deadline + b.pingTimeout)]);
        SameMembers(b, b1, self, own);
        ExpireOk(b1, self, now, k + 1, own);
      } else if item.id in b.members {
        var b1 := Kill(b, self, item.id, now);
        KillOk(b, self, item.id, now, own);
        ExpireOk(b1, self, now, if |b1.suspects| < |b.suspects| then k else k + 1, own);
      } else {
        var b1 := b.(suspects := b.suspects[..k] + b.suspects[k + 1..]);
        SameMembers(b, b1, self, own);
        ExpireOk(b1, self, now, k, own);
      }
    }
  }

  lemma SameMembers(b: Book, r: Book, self: nat, own: seq<nat>)
    requires b.members == r.members && ModestBook(b, self, own)
    ensures ModestBook(r, self, own)
  {
  }

  /** What a step may do to node n: keep its shape, stay outward, and stay modest. */
  ghost predicate KeepsNode(n: Node, m: Node, y: nat, size: nat, own: seq<nat>) {
    && Shaped(m, y, size) && Outward(m)
    && KeepsBook(n.context.book, m.context.book, y, own)
  }

  ghost predicate Sound(n: Node, y: nat, size: nat, own: seq<nat>) {
    Shaped(n, y, size) && Outward(n) && ModestBook(n.context.book, y, own)
  }

  lemma SelectOk(n: Node, y: nat, size: nat, own: seq<nat>)
    requires Sound(n, y, size, own)
    ensures KeepsNode(n, Add(n, SelectNext(n.context)), y, size, own)
  {
    hide Seek, ModestBook;
  }

  lemma EscalateOk(n: Node, now: nat, y: nat, size: nat, own: seq<nat>)
    requires Sound(n, y, size, own)
    ensures KeepsNode(n, Add(n, Escalate(n.context, now)), y, size, own)
  {
    hide Seek, Gather, SelectNext, ModestBook;
    var c := n.context;
    var n1 := n.(context := c.(probe := c.probe.(cursor := Gather(c, c.probe.cursor, SUBGROUP_SIZE).cursor)));
    SelectOk(n1, y, size, own);
  }

  lemma TickOk(n: Node, now: nat, y: nat, size: nat, own: seq<nat>)
    requires Sound(n, y, size, own)
    ensures KeepsNode(n, Add(n, Tick(n.context, now)), y, size, own)
  {
    hide Apply, SelectNext, Escalate, ModestBook, Kill;
    var c := n.context;
    var p, b := c.probe, c.book;
    if p.target == ID_INVALID || p.target !in b.members {
      SelectOk(n.(context := c.(probe := p.(target := ID_INVALID))), y, size, own);
    } else {
      match p.phase
      case Begin =>
      case DPinged => SuspectOk(b, y, p.target, now, own);
      case IPinged => KillOk(b, y, p.target, now, own);
      case TimedOut => EscalateOk(n, now, y, size, own);
      case Acked => SelectOk(n, y, size, own);
      case TargetDead => SelectOk(n, y, size, own);
    }
  }

  /** A suspicion at the recorded incarnation is refused by a dead record and modest otherwise. */
  lemma SuspectOk(b: Book, self: nat, id: nat, now: nat, own: seq<nat>)
    requires self in b.members && id in b.members && id != self && ModestBook(b, self, own)
    requires NotListed(b.suspects, self)
    ensures
      var r := Apply(b, self, Gossip(id, State(b.members[id].incarnation, Suspect)), now);
      KeepsBook(b, r, self, own) && NotListed(r.suspects, self)
  {
    var g := Gossip(id, State(b.members[id].incarnation, Suspect));
    if b.members[id].status != Dead {
      assert Modest(id, b.members[id], own);
      hide Apply;
      ApplyOk(b, self, self, g, now, own);
    }
  }

  lemma ReceiveOk(n: Node, p: Packet, now: nat, y: nat, size: nat, own: seq<nat>)
    requires Sound(n, y, size, own) && ModestPacket(p, own) && p.to == y
    ensures KeepsNode(n, Add(n, Receive(n.context, p.from, p.upds, now)), y, size, own)
  {
    hide HearAll, Without, ModestBook;
    var c := n.context;
    HearAllOk(c.book, y, p.from, p.upds, now, own);
    WithoutFrom(c.ipings, p.from, y);
  }

  lemma {:induction false} PendingFrom(items: seq<Item>, now: nat, self: nat)
    requires forall i :: 0 <= i < |items| ==> items[i].from != self
    ensures forall i :: 0 <= i < |Pending(items, now)| ==> Pending(items, now)[i].from != self
    decreases |items|
  {
    if items != [] {
      PendingFrom(items[1..], now, self);
    }
  }

  lemma LocalOk(n: Node, e: Event, y: nat, size: nat, own: seq<nat>)
    requires Sound(n, y, size, own) && !e.Hears?
    ensures KeepsNode(n, SwimNode.Step(n, e), y, size, own)
  {
    hide Expire, Tick, Pending, Piggyback, Without, ModestBook;
    var c := n.context;
    match e
    case CheckSuspects(now) => ExpireOk(c.book, y, now, 0, own);
    case CheckIpings(now) => PendingFrom(c.ipings, now, y);
    case Progress(now) => TickOk(n, now, y, size, own);
    case Send(i) =>
      if i < |n.calls| {
        SameMembers(c.book, AfterSend(c, n.calls[i]).book, y, own);
      }
    case Forwards(from) => WithoutFrom(c.ipings, from, y);
    case Fails(id) =>
      if id != y {
        FailedOk(n, id, y, size, own);
      }
  }

  lemma FailedOk(n: Node, id: nat, y: nat, size: nat, own: seq<nat>)
    requires Sound(n, y, size, own) && id != y
    ensures KeepsNode(n, n.(context := RpcFailed(n.context, id)), y, size, own)
  {
  }

  // ---- what the cluster does ----

  /** Replacing node y by one that kept everything. */
  lemma ReplaceKeeps(w: World, w': World, y: nat)
    requires Inv(w) && y < |w.nodes| == |w'.nodes| && w'.sent == w.sent
    requires forall x: nat :: x < |w.nodes| && x != y ==> w'.nodes[x] == w.nodes[x]
    requires KeepsNode(w.nodes[y], w'.nodes[y], y, |w.nodes|, Owns(w))
    ensures Inv(w') && Grown(Owns(w), Owns(w'))
  {
    hide ModestBook, Outward, ModestPacket;
    assert NodeOk(w, y);
    var own, own' := Owns(w), Owns(w');
    assert Grown(own, own') by {
      forall x | 0 <= x < |own| ensures own[x] <= own'[x] {
        assert own[x] == Own(w, x) && own'[x] == Own(w', x);
      }
    }
    forall x: nat | x < |w'.nodes| ensures NodeOk(w', x) {
      if x != y {
        assert NodeOk(w, x);
      }
      ModestGrown(w'.nodes[x].context.book, x, own, own');
    }
    forall k | 0 <= k < |w'.sent| ensures ModestPacket(w'.sent[k], own') {
      PacketGrown(w.sent[k], own, own');
    }
  }

  lemma MessageModest(w: World, y: nat, i: nat)
    requires Inv(w) && y < |w.nodes| && i < |w.nodes[y].calls|
    requires CanSend(w.nodes[y].context, w.nodes[y].calls[i])
    ensures
      var c, call := w.nodes[y].context, w.nodes[y].calls[i];
      ModestPacket(Packet(c.self, call.to, Message(c, call)), Owns(w))
  {
    var c, call := w.nodes[y].context, w.nodes[y].calls[i];
    assert NodeOk(w, y);
    hide Piggyback, Shaped;
    var own := Owns(w);
    assert own[y] == Own(w, y);
    var m := Message(c, call);
    forall j | 0 <= j < |m| ensures Modest(m[j].id, m[j].state, own) {
      var head := Header(c.book.members, call.id, c.self);
      if j >= |head| {
        assert m[j] == PackFor(c, call).upds[j - |head|];
        PiggybackRecords(c.book.news, c.book.members, call.id, c.self, c.txMax, PIGGYBACK_ENTRIES, j - |head|);
      }
      assert m[j].id in c.book.members && m[j].state == c.book.members[m[j].id];
    }
  }

  lemma {:induction false} PiggybackRecords(news: seq<News>, members: map<nat, State>, id: nat, self: nat,
                                            txMax: nat, room: nat, i: nat)
    requires i < |Piggyback(news, members, id, self, txMax, room).upds|
    ensures
      var g := Piggyback(news, members, id, self, txMax, room).upds[i];
      g.id in members && g.state == members[g.id]
    decreases |news|
  {
    var header := news[0].id == id || news[0].id == self;
    if !header && news[0].id !in members {
      PiggybackRecords(news[1..], members, id, self, txMax, room, i);
    } else if header {
      PiggybackRecords(news[1..], members, id, self, txMax, room, i);
    } else if i > 0 {
      PiggybackRecords(news[1..], members, id, self, txMax, room - 1, i - 1);
    }
  }

  lemma DoKeeps(w: World, s: Step)
    requires Inv(w)
    ensures Inv(Do(w, s)) && Grown(Owns(w), Owns(Do(w, s)))
  {
    hide KeepsNode, ModestBook, Outward, Shaped, SwimNode.Step, Message;
    var w' := Do(w, s);
    match s
    case Local(y, e) =>
      if y < |w.nodes| && IsLocal(e) {
        assert NodeOk(w, y);
        LocalOk(w.nodes[y], e, y, |w.nodes|, Owns(w));
        ReplaceKeeps(w, w', y);
      }
    case Transmit(y, i) =>
      if y < |w.nodes| && i < |w.nodes[y].calls| {
        assert NodeOk(w, y);
        var w1 := w.(nodes := w.nodes[y := SwimNode.Step(w.nodes[y], Send(i))]);
        LocalOk(w.nodes[y], Send(i), y, |w.nodes|, Owns(w));
        ReplaceKeeps(w, w1, y);
        if CanSend(w.nodes[y].context, w.nodes[y].calls[i]) {
          MessageModest(w, y, i);
          var c, call := w.nodes[y].context, w.nodes[y].calls[i];
          PacketGrown(Packet(c.self, call.to, Message(c, call)), Owns(w), Owns(w1));
        }
        MoreSent(w1, w');
      }
    case Deliver(k, now) =>
      if k < |w.sent| && w.sent[k].to < |w.nodes| {
        var p := w.sent[k];
        assert NodeOk(w, p.to) && ModestPacket(p, Owns(w));
        HearsOk(w.nodes[p.to], p, now, |w.nodes|, Owns(w));
        ReplaceKeeps(w, w', p.to);
      }
    case AckFailed(k) =>
      if k < |w.sent| && w.sent[k].from < |w.nodes| && w.sent[k].upds != []
         && w.sent[k].upds[0].state.status == Inactive {
        var p := w.sent[k];
        assert NodeOk(w, p.from) && ModestPacket(p, Owns(w));
        LocalOk(w.nodes[p.from], Fails(p.to), p.from, |w.nodes|, Owns(w));
        ReplaceKeeps(w, w', p.from);
      }
  }

  lemma HearsOk(n: Node, p: Packet, now: nat, size: nat, own: seq<nat>)
    requires Sound(n, p.to, size, own) && ModestPacket(p, own)
    ensures KeepsNode(n, SwimNode.Step(n, Hears(p.from, p.upds, now)), p.to, size, own)
  {
    hide ModestBook, Outward, Receive, ModestPacket;
    ReceiveOk(n, p, now, p.to, size, own);
  }

  lemma MoreSent(w: World, w': World)
    requires Inv(w) && w'.nodes == w.nodes
    requires forall k :: 0 <= k < |w'.sent| ==> w'.sent[k] in w.sent || ModestPacket(w'.sent[k], Owns(w))
    ensures Inv(w') && Owns(w') == Owns(w)
  {
    hide ModestBook, Outward, ModestPacket, Shaped;
    assert Owns(w') == Owns(w) by {
      assert forall x: nat :: x < |w.nodes| ==> Own(w', x) == Own(w, x);
    }
    forall y: nat | y < |w'.nodes| ensures NodeOk(w', y) {
      assert NodeOk(w, y);
    }
  }

  /** Every node is new, with every other member INACTIVE and nothing sent. */
  ghost predicate Fresh(w: World) {
    && w.sent == []
    && forall y: nat :: y < |w.nodes| ==> FreshNode(w.nodes[y], y, |w.nodes|)
  }

  ghost predicate FreshNode(n: Node, y: nat, size: nat) {
    && Shaped(n, y, size) && n.calls == [] && n.context.book.suspects == [] && n.context.ipings == []
    && n.context.probe.subgroup == [] && n.context.probe.target == ID_INVALID
    && (forall x: nat :: x < size ==> n.context.book.members[x] == State(0, if x == y then Alive else Inactive))
  }

  lemma InitialIsFresh(y: nat, size: nat, ranks: seq<nat>, first: nat)
    requires first < |ranks| && y < size <= ID_INVALID
    requires forall x: nat :: x in ranks <==> x < size
    ensures FreshNode(Start(y, ranks, first), y, size)
  {
  }

  lemma FreshInv(w: World)
    requires Fresh(w)
    ensures Inv(w)
  {
    forall y: nat | y < |w.nodes| ensures NodeOk(w, y) {
      assert FreshNode(w.nodes[y], y, |w.nodes|);
    }
  }

  lemma {:induction false} RunInv(w: World, steps: seq<Step>)
    requires Fresh(w)
    ensures Inv(Run(w, steps)) && |Run(w, steps).nodes| == |w.nodes|
    decreases |steps|
  {
    hide Inv, Do, Fresh;
    if steps == [] {
      FreshInv(w);
    } else {
      RunInv(w, steps[..|steps| - 1]);
      DoKeeps(Run(w, steps[..|steps| - 1]), steps[|steps| - 1]);
    }
  }

  /**
   In every run: a record of x that is not DEAD, at any node, and an update about x that is not
   DEAD, in any message ever sent, has an incarnation at most x's own.
   */
  lemma NobodyOutrunsItself(w: World, steps: seq<Step>, x: nat)
    requires Fresh(w) && x < |w.nodes|
    ensures
      var r := Run(w, steps);
      && |r.nodes| == |w.nodes|
      && (forall y: nat :: y < |r.nodes| ==>
            x in r.nodes[y].context.book.members
            && (r.nodes[y].context.book.members[x].status != Dead ==>
                  r.nodes[y].context.book.members[x].incarnation <= Own(r, x)))
      && (forall k, i :: 0 <= k < |r.sent| && 0 <= i < |r.sent[k].upds| ==>
            var g := r.sent[k].upds[i];
            g.id == x && g.state.status != Dead ==> g.state.incarnation <= Own(r, x))
  {
    hide Run, Outward;
    RunInv(w, steps);
    var r := Run(w, steps);
    assert Owns(r)[x] == Own(r, x);
    forall y: nat | y < |r.nodes|
      ensures x in r.nodes[y].context.book.members
      ensures r.nodes[y].context.book.members[x].status != Dead ==>
                r.nodes[y].context.book.members[x].incarnation <= Own(r, x)
    {
      assert NodeOk(r, y);
    }
    forall k, i | 0 <= k < |r.sent| && 0 <= i < |r.sent[k].upds|
      ensures var g := r.sent[k].upds[i];
              g.id == x && g.state.status != Dead ==> g.state.incarnation <= Own(r, x)
    {
      assert ModestPacket(r.sent[k], Owns(r));
    }
  }

  // ---- refutation ----

  lemma {:induction false} HearAllRefutes(b: Book, self: nat, from: nat, upds: seq<Gossip>, now: nat, i: nat)
    requires self in b.members && i < |upds|
    requires upds[i].id == self && upds[i].state.status == Suspect
    requires upds[i].state.incarnation <= b.members[self].incarnation
    requires forall j :: 0 <= j < i ==> !KillsSelf(self, upds[j])
    ensures HearAll(b, self, from, upds, now).members[self].incarnation > upds[i].state.incarnation
    decreases |upds|
  {
    hide Without, Suspected, Notified;
    assert !KillsSelf(self, upds[0]);
    var b1 := Hear(b, self, from, upds[0], now);
    if i == 0 {
      HearAllGrows(b1, self, from, upds[1..], now);
    } else {
      HearAllRefutes(b1, self, from, upds[1..], now, i - 1);
    }
  }

  lemma {:induction false} HearAllGrows(b: Book, self: nat, from: nat, upds: seq<Gossip>, now: nat)
    requires self in b.members
    ensures HearAll(b, self, from, upds, now).members[self].incarnation >= b.members[self].incarnation
    decreases |upds|
  {
    hide Without, Suspected, Notified;
    if upds != [] && !KillsSelf(self, upds[0]) {
      HearAllGrows(Hear(b, self, from, upds[0], now), self, from, upds[1..], now);
    }
  }

  /**
   In every run: when an active node handles a message that suspects it, its incarnation ends
   strictly above that suspicion.  If the suspicion was of its current incarnation, it ends above
   every record and message about it that does not say DEAD, so its next ALIVE is news to all
   other nodes that do not believe it dead.
   */
  lemma SuspicionIsRefuted(w: World, steps: seq<Step>, k: nat, now: nat, i: nat)
    requires Fresh(w) && k < |Run(w, steps).sent|
    requires
      var r := Run(w, steps);
      var p := r.sent[k];
      && p.to < |r.nodes| && r.nodes[p.to].context.active && i < |p.upds|
      && p.upds[i].id == p.to && p.upds[i].state.status == Suspect
      && (forall j :: 0 <= j < i ==> !KillsSelf(p.to, p.upds[j]))
    ensures
      var r := Run(w, steps);
      var p, r' := r.sent[k], Do(r, Deliver(k, now));
      && |r'.nodes| == |r.nodes|
      && Own(r', p.to) > p.upds[i].state.incarnation
      && (p.upds[i].state.incarnation == Own(r, p.to) ==>
            forall y: nat :: y < |r'.nodes| && y != p.to ==>
              p.to in r'.nodes[y].context.book.members &&
              (r'.nodes[y].context.book.members[p.to].status != Dead ==>
                 Accepts(r'.nodes[y].context.book.members[p.to], State(Own(r', p.to), Alive))))
  {
    hide Run, Outward, HearAll, ModestBook;
    RunInv(w, steps);
    var r := Run(w, steps);
    var p, r' := r.sent[k], Do(r, Deliver(k, now));
    var x := p.to;
    assert NodeOk(r, x) && ModestPacket(p, Owns(r));
    assert Owns(r)[x] == Own(r, x);
    assert Modest(x, p.upds[i].state, Owns(r));
    var b := r.nodes[x].context.book;
    HearAllRefutes(b, x, p.from, p.upds, now, i);
    assert r'.nodes[x].context.book == HearAll(b, x, p.from, p.upds, now) by {
      ReceiveBook(r.nodes[x], p.from, p.upds, now);
    }
    NobodyOutrunsItself(w, steps, x);
  }

  /** A message suspects this node in its current incarnation, before any entry that declares it dead. */
  predicate SuspectsNow(upds: seq<Gossip>, self: nat, incarnation: nat) {
    exists i :: 0 <= i < |upds| && upds[i] == Gossip(self, State(incarnation, Suspect))
                && forall j :: 0 <= j < i ==> !KillsSelf(self, upds[j])
  }

  lemma SuspectsSplit(upds: seq<Gossip>, self: nat, incarnation: nat)
    requires upds != []
    ensures SuspectsNow(upds, self, incarnation) <==>
              upds[0] == Gossip(self, State(incarnation, Suspect))
              || (!KillsSelf(self, upds[0]) && SuspectsNow(upds[1..], self, incarnation))
  {
    if SuspectsNow(upds[1..], self, incarnation) && !KillsSelf(self, upds[0]) {
      var i :| 0 <= i < |upds| - 1 && upds[1..][i] == Gossip(self, State(incarnation, Suspect))
               && forall j :: 0 <= j < i ==> !KillsSelf(self, upds[1..][j]);
      assert upds[i + 1] == Gossip(self, State(incarnation, Suspect));
      forall j | 0 <= j < i + 1 ensures !KillsSelf(self, upds[j]) {
        assert j > 0 ==> upds[j] == upds[1..][j - 1];
      }
    }
    if SuspectsNow(upds, self, incarnation) && upds[0] != Gossip(self, State(incarnation, Suspect)) {
      var i :| 0 <= i < |upds| && upds[i] == Gossip(self, State(incarnation, Suspect))
               && forall j :: 0 <= j < i ==> !KillsSelf(self, upds[j]);
      assert upds[1..][i - 1] == Gossip(self, State(incarnation, Suspect));
    }
  }

  lemma {:induction false} HearAllOwn(b: Book, self: nat, from: nat, upds: seq<Gossip>, now: nat)
    requires self in b.members
    requires forall i :: 0 <= i < |upds| && upds[i].id == self && upds[i].state.status == Suspect ==>
               upds[i].state.incarnation <= b.members[self].incarnation
    ensures
      var own := b.members[self].incarnation;
      HearAll(b, self, from, upds, now).members[self].incarnation ==
        own + if SuspectsNow(upds, self, own) then 1 else 0
    decreases |upds|
  {
    hide Without, Suspected, Notified, SuspectsNow;
    var own := b.members[self].incarnation;
    if upds == [] {
      assert !SuspectsNow([], self, own) by { NobodySuspects(self, own); }
    } else {
      SuspectsSplit(upds, self, own);
      if !KillsSelf(self, upds[0]) {
        var b1 := Hear(b, self, from, upds[0], now);
        HearAllOwn(b1, self, from, upds[1..], now);
        NotAhead(upds[1..], self, own);
      }
    }
  }

  lemma NobodySuspects(self: nat, own: nat)
    ensures !SuspectsNow([], self, own)
  {
  }

  lemma NotAhead(upds: seq<Gossip>, self: nat, own: nat)
    requires forall i :: 0 <= i < |upds| && upds[i].id == self && upds[i].state.status == Suspect ==>
               upds[i].state.incarnation <= own
    ensures !SuspectsNow(upds, self, own + 1)
  {
  }

  /**
   In every run, a message raises the incarnation of the active node that receives it by exactly one
   if it suspects that node in its current incarnation, and not at all otherwise.
   */
  lemma RefutesOnce(w: World, steps: seq<Step>, k: nat, now: nat)
    requires Fresh(w) && k < |Run(w, steps).sent|
    requires
      var r := Run(w, steps);
      r.sent[k].to < |r.nodes| && r.nodes[r.sent[k].to].context.active
    ensures
      var r := Run(w, steps);
      var p, r' := r.sent[k], Do(r, Deliver(k, now));
      && |r'.nodes| == |r.nodes|
      && Own(r', p.to) == Own(r, p.to) + if SuspectsNow(p.upds, p.to, Own(r, p.to)) then 1 else 0
  {
    hide Run, Outward, HearAll, ModestBook, SuspectsNow;
    RunInv(w, steps);
    var r := Run(w, steps);
    var p := r.sent[k];
    assert NodeOk(r, p.to) && ModestPacket(p, Owns(r));
    assert Owns(r)[p.to] == Own(r, p.to);
    var b := r.nodes[p.to].context.book;
    forall i | 0 <= i < |p.upds| && p.upds[i].id == p.to && p.upds[i].state.status == Suspect
      ensures p.upds[i].state.incarnation <= b.members[p.to].incarnation
    {
      assert Modest(p.to, p.upds[i].state, Owns(r));
    }
    HearAllOwn(b, p.to, p.from, p.upds, now);
    ReceiveBook(r.nodes[p.to], p.from, p.upds, now);
  }

  /**
   After a failed acknowledged message the member counts as DEAD one incarnation above the one on
   record, and only an update from beyond that incarnation changes it.
   */
  lemma FailureSticks(c: Context, id: nat, from: nat, u: State, now: nat)
    requires id in c.book.members && Spreads(u)
    ensures
      var b, i := RpcFailed(c, id).book, c.book.members[id].incarnation;
      && id in b.members && KeyOf(b.members[id]) == Key(i + 1, true)
      && id in Apply(b, from, Gossip(id, u), now).members
      && (Apply(b, from, Gossip(id, u), now).members[id] != b.members[id] <==> u.incarnation > i + 1)
  {
    hide Without, Suspected, Notified;
  }

  lemma ReceiveBook(n: Node, from: nat, upds: seq<Gossip>, now: nat)
    requires WellFormed(n.context) && n.context.active && upds != []
    ensures SwimNode.Step(n, Hears(from, upds, now)).context.book
         == HearAll(n.context.book, n.context.self, from, upds, now)
  {
    hide HearAll, Without;
  }
}
