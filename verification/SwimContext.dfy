/**
 One SWIM node (src/swim/swim.c): its records, its lists and its ping state machine.

 The locked sections of the source are functions from one context to the next, and the class
 SwimContext at the end runs them in place, loop by loop, against these functions.  Members are
 fixed; the clock is the argument now.
 */
module SwimContext {
  import opened SwimMember

  const PROTOCOL_PERIOD_LEN: nat := 2400
  const SUSPECT_TIMEOUT: nat := 3 * PROTOCOL_PERIOD_LEN
  const PING_TIMEOUT: nat := 800
  const SUBGROUP_SIZE: nat := 2
  const PIGGYBACK_ENTRIES: nat := 8
  const PIGGYBACK_TX_COUNT: nat := 50
  const ID_INVALID: nat := 0xFFFF_FFFF_FFFF_FFFF

  /** An entry of the suspect list or of the indirect-ping list. */
  datatype Item = Item(id: nat, from: nat, deadline: nat)

  /** An entry of the update list: gossip still to be piggybacked, and how often it was. */
  datatype News = News(id: nat, from: nat, count: nat)

  /** What the node knows: records, suspect list, update list and the adaptive ping timeout. */
  datatype Book = Book(members: map<nat, State>, suspects: seq<Item>, news: seq<News>, pingTimeout: nat)

  datatype Phase = Begin | DPinged | IPinged | TimedOut | Acked | TargetDead

  /** The ping state machine. */
  datatype Probe = Probe(phase: Phase, target: nat, subgroup: seq<nat>, cursor: nat,
                         nextTick: nat, dpingDeadline: nat, ipingDeadline: nat)

  /** A context; active is false once sc_self has been set to SWIM_ID_INVALID. */
  datatype Context = Context(self: nat, active: bool, ring: seq<nat>, groupSize: nat, txMax: nat,
                             book: Book, probe: Probe, ipings: seq<Item>)

  /** A call of swim_updates_send that a thread makes after it drops the lock. */
  datatype Call = Call(id: nat, to: nat)

  datatype Outcome = Outcome(context: Context, calls: seq<Call>)

  // ---- the lists ----

  predicate Listed(items: seq<Item>, id: nat) {
    exists i :: 0 <= i < |items| && items[i].id == id
  }

  function Without(items: seq<Item>, id: nat): (r: seq<Item>)
    ensures |r| == |items| || |r| + 1 == |items|
  {
    if items == [] then []
    else if items[0].id == id then items[1..]
    else [items[0]] + Without(items[1..], id)
  }

  predicate Told(news: seq<News>, id: nat) {
    exists i :: 0 <= i < |news| && news[i].id == id
  }

  function Renewed(news: seq<News>, from: nat, id: nat): seq<News> {
    if news == [] then []
    else if news[0].id == id then [News(id, from, 0)] + news[1..]
    else [news[0]] + Renewed(news[1..], from, id)
  }

  function Notified(news: seq<News>, from: nat, id: nat): seq<News> {
    if Told(news, id) then Renewed(news, from, id) else [News(id, from, 0)] + news
  }

  function Suspected(items: seq<Item>, from: nat, id: nat, now: nat): seq<Item> {
    if Listed(items, id) then items else items + [Item(id, from, now + SUSPECT_TIMEOUT)]
  }

  function Slower(pingTimeout: nat): nat {
    if pingTimeout < PROTOCOL_PERIOD_LEN then pingTimeout + PING_TIMEOUT else pingTimeout
  }

  // ---- gossip ----

  /** swim_member_alive, swim_member_suspect and swim_member_dead. */
  function Apply(b: Book, from: nat, g: Gossip, now: nat): Book {
    if g.id !in b.members || g.state.status == Inactive || !Accepts(b.members[g.id], g.state) then b
    else Book(b.members[g.id := g.state],
              if g.state.status == Suspect then Suspected(b.suspects, from, g.id, now) else Without(b.suspects, g.id),
              Notified(b.news, from, g.id),
              if g.state.status == Alive && Listed(b.suspects, g.id) then Slower(b.pingTimeout) else b.pingTimeout)
  }

  /** A node that is suspected in its current incarnation starts the next one. */
  function Refute(b: Book, self: nat, incarnation: nat): Book
    requires self in b.members
  {
    if b.members[self].incarnation > incarnation then b
    else b.(members := b.members[self := State(b.members[self].incarnation + 1, b.members[self].status)],
            news := Notified(b.news, self, self))
  }

  predicate KillsSelf(self: nat, g: Gossip) {
    g.id == self && g.state.status == Dead
  }

  /** One entry of a received message. */
  function Hear(b: Book, self: nat, from: nat, g: Gossip, now: nat): Book
    requires self in b.members
  {
    if g.id != self then Apply(b, from, g, now)
    else if g.state.status == Suspect then Refute(b, self, g.state.incarnation)
    else b
  }

  /** A received message, up to an entry that declares this node dead. */
  function HearAll(b: Book, self: nat, from: nat, upds: seq<Gossip>, now: nat): (r: Book)
    requires self in b.members
    ensures r.members.Keys == b.members.Keys
    decreases |upds|
  {
    if upds == [] || KillsSelf(self, upds[0]) then b
    else HearAll(Hear(b, self, from, upds[0], now), self, from, upds[1..], now)
  }

  // ---- timers ----

  /** swim_member_dead at the incarnation on record. */
  function Kill(b: Book, self: nat, id: nat, now: nat): (r: Book)
    requires id in b.members
    ensures |r.suspects| == |b.suspects| || |r.suspects| + 1 == |b.suspects|
  {
    Apply(b, self, Gossip(id, State(b.members[id].incarnation, Dead)), now)
  }

  datatype Expired = Expired(book: Book, calls: seq<Call>)

  /**
   swim_member_update_suspected, from list position k on.  A suspicion that came by gossip is
   first confirmed with its origin and given one more ping timeout; one's own kills the member.
   */
  function Expire(b: Book, self: nat, now: nat, k: nat): Expired
    requires k <= |b.suspects|
    decreases |b.suspects| - k
  {
    if k == |b.suspects| then Expired(b, [])
    else
      var item := b.suspects[k];
      if now <= item.deadline then Expire(b, self, now, k + 1)
      else if item.from != self then
        var kept := Item(item.id, self, item.deadline + b.pingTimeout);
        var rest := Expire(b.(suspects := b.suspects[k := kept]), self, now, k + 1);
        Expired(rest.book, [Call(item.id, item.from)] + rest.calls)
      else
        var b1 := if item.id in b.members then Kill(b, self, item.id, now)
                  else b.(suspects := b.suspects[..k] + b.suspects[k + 1..]);
        Expire(b1, self, now, if |b1.suspects| < |b.suspects| then k else k + 1)
  }

  /** swim_ipings_update. */
  function Pending(items: seq<Item>, now: nat): seq<Item> {
    if items == [] then []
    else (if now > items[0].deadline then [] else [items[0]]) + Pending(items[1..], now)
  }

  // ---- the choice of targets ----

  predicate Eligible(c: Context, id: nat, aliveOnly: bool) {
    && id != c.self && id in c.book.members
    && if aliveOnly then c.book.members[id].status == Alive else c.book.members[id].status != Dead
  }

  datatype Choice = Choice(cursor: nat, id: nat)

  /** The circular search of crt_swim_get_dping_target and crt_swim_get_iping_target. */
  function Seek(c: Context, cursor: nat, aliveOnly: bool, tries: nat): (r: Choice)
    requires cursor < |c.ring|
    ensures r.cursor < |c.ring|
    ensures r.id == ID_INVALID || (r.id == c.ring[r.cursor] && Eligible(c, r.id, aliveOnly))
    decreases tries
  {
    if tries == 0 then Choice(cursor, ID_INVALID)
    else
      var next := if cursor + 1 < |c.ring| then cursor + 1 else 0;
      if Eligible(c, c.ring[next], aliveOnly) then Choice(next, c.ring[next])
      else Seek(c, next, aliveOnly, tries - 1)
  }

  function Choose(c: Context, cursor: nat, aliveOnly: bool): (r: Choice)
    requires cursor < |c.ring|
    ensures r.cursor < |c.ring|
  {
    Seek(c, cursor, aliveOnly, c.groupSize + 1)
  }

  /** How many moves of the circular cursor lead from one position to another. */
  function Distance(cursor: nat, i: nat, n: nat): nat
    requires cursor < n && i < n
  {
    if cursor < i then i - cursor else n - cursor + i
  }

  lemma {:induction false} SeekMisses(c: Context, cursor: nat, aliveOnly: bool, tries: nat, i: nat)
    requires cursor < |c.ring| && ID_INVALID !in c.book.members
    requires Seek(c, cursor, aliveOnly, tries).id == ID_INVALID
    requires i < |c.ring| && Distance(cursor, i, |c.ring|) <= tries
    ensures !Eligible(c, c.ring[i], aliveOnly)
    decreases tries
  {
    var next := if cursor + 1 < |c.ring| then cursor + 1 else 0;
    if next != i {
      SeekMisses(c, next, aliveOnly, tries - 1, i);
    }
  }

  /** Another member, on record with one of these statuses. */
  predicate Suits(c: Context, id: nat, statuses: set<Status>) {
    id != c.self && id in c.book.members && c.book.members[id].status in statuses
  }

  /** Position i is the first after the cursor, going round, that holds a suitable member. */
  ghost predicate FirstAfter(c: Context, cursor: nat, i: nat, statuses: set<Status>) {
    && cursor < |c.ring| && i < |c.ring| && Suits(c, c.ring[i], statuses)
    && forall j: nat :: j < |c.ring| && Distance(cursor, j, |c.ring|) < Distance(cursor, i, |c.ring|) ==>
         !Suits(c, c.ring[j], statuses)
  }

  /** Helpers are sought among the ALIVE members, targets among all that are not DEAD. */
  function Sought(aliveOnly: bool): set<Status> {
    if aliveOnly then {Alive} else {Alive, Suspect, Inactive}
  }

  lemma EligibleSuits(c: Context, id: nat, aliveOnly: bool)
    ensures Eligible(c, id, aliveOnly) <==> Suits(c, id, Sought(aliveOnly))
  {
  }

  /** A search that finds a member finds the first suitable one after the cursor. */
  lemma {:induction false} SeekFirst(c: Context, cursor: nat, aliveOnly: bool, tries: nat)
    requires cursor < |c.ring| && ID_INVALID !in c.book.members
    requires Seek(c, cursor, aliveOnly, tries).id != ID_INVALID
    ensures FirstAfter(c, cursor, Seek(c, cursor, aliveOnly, tries).cursor, Sought(aliveOnly))
    decreases tries
  {
    hide Sought, Suits, Eligible;
    var next := if cursor + 1 < |c.ring| then cursor + 1 else 0;
    EligibleSuits(c, c.ring[next], aliveOnly);
    if !Eligible(c, c.ring[next], aliveOnly) {
      SeekFirst(c, next, aliveOnly, tries - 1);
    }
  }

  /** The search looks only at the ring and the records. */
  lemma {:induction false} SeekIgnores(c: Context, d: Context, cursor: nat, aliveOnly: bool, tries: nat)
    requires cursor < |c.ring| && c.ring == d.ring && c.self == d.self && c.book.members == d.book.members
    ensures Seek(c, cursor, aliveOnly, tries) == Seek(d, cursor, aliveOnly, tries)
    decreases tries
  {
    if tries > 0 {
      SeekIgnores(c, d, if cursor + 1 < |c.ring| then cursor + 1 else 0, aliveOnly, tries - 1);
    }
  }

  lemma ChooseIgnores(c: Context, d: Context, cursor: nat, aliveOnly: bool)
    requires cursor < |c.ring| && c.ring == d.ring && c.self == d.self && c.book.members == d.book.members
    requires c.groupSize == d.groupSize
    ensures Choose(c, cursor, aliveOnly) == Choose(d, cursor, aliveOnly)
  {
    SeekIgnores(c, d, cursor, aliveOnly, c.groupSize + 1);
  }

  /** A target is found whenever there is one, if the list is at most one longer than the group. */
  lemma ChooseFindsIff(c: Context, cursor: nat, aliveOnly: bool)
    requires cursor < |c.ring| <= c.groupSize + 1 && ID_INVALID !in c.book.members
    ensures Choose(c, cursor, aliveOnly).id != ID_INVALID <==>
            exists i :: 0 <= i < |c.ring| && Eligible(c, c.ring[i], aliveOnly)
  {
    hide Seek;
    if Choose(c, cursor, aliveOnly).id == ID_INVALID {
      forall i | 0 <= i < |c.ring| ensures !Eligible(c, c.ring[i], aliveOnly) {
        SeekMisses(c, cursor, aliveOnly, c.groupSize + 1, i);
      }
    }
  }

  datatype Subgroup = Subgroup(cursor: nat, ids: seq<nat>)

  /** swim_subgroup_init. */
  function Gather(c: Context, cursor: nat, n: nat): (r: Subgroup)
    requires cursor < |c.ring|
    ensures r.cursor < |c.ring|
    ensures forall i :: 0 <= i < |r.ids| ==> r.ids[i] != ID_INVALID && Eligible(c, r.ids[i], true)
    decreases n
  {
    if n == 0 then Subgroup(cursor, [])
    else
      var first := Choose(c, cursor, true);
      if first.id == ID_INVALID then Subgroup(first.cursor, [])
      else
        var rest := Gather(c, first.cursor, n - 1);
        Subgroup(rest.cursor, [first.id] + rest.ids)
  }

  /** Somebody else is on record as ALIVE. */
  predicate HasHelper(c: Context) {
    exists i :: 0 <= i < |c.ring| && Suits(c, c.ring[i], {Alive})
  }

  /**
   These are the next members on record as ALIVE after the cursor, each search going on from the one
   before, and the last one is at position end.
   */
  ghost predicate NextAlive(c: Context, cursor: nat, ids: seq<nat>, end: nat)
    decreases |ids|
  {
    if ids == [] then end == cursor
    else exists i: nat :: FirstAfter(c, cursor, i, {Alive}) && ids[0] == c.ring[i] && NextAlive(c, i, ids[1..], end)
  }

  /** One more helper in front. */
  lemma OneMoreAlive(c: Context, cursor: nat, i: nat, ids: seq<nat>, end: nat)
    requires FirstAfter(c, cursor, i, {Alive}) && NextAlive(c, i, ids, end)
    ensures NextAlive(c, cursor, [c.ring[i]] + ids, end)
  {
    var all := [c.ring[i]] + ids;
    hide FirstAfter;
    assert all[1..] == ids && all[0] == c.ring[i];
  }

  lemma ChooseFirst(c: Context, cursor: nat)
    requires cursor < |c.ring| <= c.groupSize + 1 && ID_INVALID !in c.book.members
    ensures
      var first := Choose(c, cursor, true);
      && (first.id != ID_INVALID <==> HasHelper(c))
      && (first.id != ID_INVALID ==> first.id == c.ring[first.cursor] && FirstAfter(c, cursor, first.cursor, {Alive}))
  {
    ChooseFindsIff(c, cursor, true);
    FoundIffHelper(c);
    if Choose(c, cursor, true).id != ID_INVALID {
      SeekFirst(c, cursor, true, c.groupSize + 1);
    }
    hide FirstAfter;
  }

  /** The subgroup is as large as asked for, unless there is nobody to ask. */
  lemma {:induction false} GatherExact(c: Context, cursor: nat, n: nat)
    requires cursor < |c.ring| <= c.groupSize + 1 && ID_INVALID !in c.book.members
    ensures |Gather(c, cursor, n).ids| == if HasHelper(c) then n else 0
    ensures HasHelper(c) ==> NextAlive(c, cursor, Gather(c, cursor, n).ids, Gather(c, cursor, n).cursor)
    decreases n
  {
    if n > 0 {
      hide Seek, Choose, FirstAfter, NextAlive, HasHelper, Eligible;
      ChooseFirst(c, cursor);
      var first := Choose(c, cursor, true);
      if first.id != ID_INVALID {
        GatherExact(c, first.cursor, n - 1);
        var rest := Gather(c, first.cursor, n - 1);
        OneMoreAlive(c, cursor, first.cursor, rest.ids, rest.cursor);
      }
    }
  }

  lemma FoundIffHelper(c: Context)
    ensures HasHelper(c) <==> exists i :: 0 <= i < |c.ring| && Eligible(c, c.ring[i], true)
  {
    forall i | 0 <= i < |c.ring| ensures Eligible(c, c.ring[i], true) <==> Suits(c, c.ring[i], {Alive}) {
      EligibleSuits(c, c.ring[i], true);
    }
  }

  // ---- the ping state machine ----

  ghost predicate WellFormed(c: Context) {
    && c.self in c.book.members && ID_INVALID !in c.book.members
    && c.probe.cursor < |c.ring|
    && (forall i :: 0 <= i < |c.ring| ==> c.ring[i] in c.book.members)
  }

  /** The next direct-ping target; without one the node shuts down. */
  function SelectNext(c: Context): Outcome
    requires c.probe.cursor < |c.ring|
  {
    var next := Choose(c, c.probe.cursor, false);
    if next.id == ID_INVALID then
      Outcome(c.(active := false, probe := c.probe.(target := ID_INVALID, cursor := next.cursor)), [])
    else
      Outcome(c.(probe := c.probe.(target := next.id, cursor := next.cursor, phase := Begin)), [])
  }

  /** One indirect-ping request; after the last one of the subgroup the node waits for answers. */
  function AskSubgroup(c: Context, ids: seq<nat>, cursor: nat, now: nat): Outcome
    requires ids != []
  {
    var p := c.probe.(subgroup := ids[1..], cursor := cursor,
                      ipingDeadline := if |ids| == 1 then now + 2 * c.book.pingTimeout else c.probe.ipingDeadline,
                      phase := if |ids| == 1 then IPinged else TimedOut);
    Outcome(c.(probe := p), [Call(c.probe.target, ids[0])])
  }

  /** The SCS_TIMEDOUT case: ask the subgroup, or give up on the target if nobody can be asked. */
  function Escalate(c: Context, now: nat): Outcome
    requires c.probe.cursor < |c.ring|
  {
    if c.probe.subgroup != [] then AskSubgroup(c, c.probe.subgroup, c.probe.cursor, now)
    else
      var sub := Gather(c, c.probe.cursor, SUBGROUP_SIZE);
      if sub.ids != [] then AskSubgroup(c, sub.ids, sub.cursor, now)
      else SelectNext(c.(probe := c.probe.(cursor := sub.cursor)))
  }

  /** The switch of swim_progress. */
  function Tick(c: Context, now: nat): Outcome
    requires c.probe.cursor < |c.ring|
  {
    var p, b := c.probe, c.book;
    if p.target == ID_INVALID || p.target !in b.members then
      SelectNext(c.(probe := p.(target := ID_INVALID)))
    else
      match p.phase
      case Begin =>
        if now <= p.nextTick then Outcome(c, [])
        else
          Outcome(c.(probe := p.(nextTick := now + PROTOCOL_PERIOD_LEN, dpingDeadline := now + b.pingTimeout,
                                 phase := DPinged)),
                  [Call(p.target, p.target)])
      case DPinged =>
        if now <= p.dpingDeadline then Outcome(c, [])
        else if b.members[p.target].status == Inactive then Outcome(c.(probe := p.(phase := TargetDead)), [])
        else
          var suspicion := Gossip(p.target, State(b.members[p.target].incarnation, Suspect));
          Outcome(c.(book := Apply(b, c.self, suspicion, now), probe := p.(phase := TimedOut)), [])
      case IPinged =>
        if now <= p.ipingDeadline then Outcome(c, [])
        else Outcome(c.(book := Kill(b, c.self, p.target, now), probe := p.(phase := TargetDead)), [])
      case TimedOut => Escalate(c, now)
      case Acked => SelectNext(c)
      case TargetDead => SelectNext(c)
  }

  // ---- messages ----

  datatype Pack = Pack(news: seq<News>, upds: seq<Gossip>)

  /** The part of a message taken from the update list, with room for that many more entries. */
  function Piggyback(news: seq<News>, members: map<nat, State>, id: nat, self: nat, txMax: nat, room: nat): Pack {
    if news == [] || room == 0 then Pack([], [])
    else
      var n, header := news[0], news[0].id == id || news[0].id == self;
      if !header && n.id !in members then Piggyback(news[1..], members, id, self, txMax, room)
      else
        var rest := Piggyback(news[1..], members, id, self, txMax, if header then room else room - 1);
        Pack((if n.count + 1 > txMax then [] else [n.(count := n.count + 1)]) + rest.news,
             (if header then [] else [Gossip(n.id, members[n.id])]) + rest.upds)
  }

  /** The one or two entries every message starts with. */
  function Header(members: map<nat, State>, id: nat, self: nat): seq<Gossip>
    requires id in members && self in members
  {
    [Gossip(id, members[id])] + if id == self then [] else [Gossip(self, members[self])]
  }

  predicate CanSend(c: Context, call: Call) {
    c.active && call.to != ID_INVALID && call.id in c.book.members && c.self in c.book.members
  }

  function PackFor(c: Context, call: Call): Pack {
    Piggyback(c.book.news, c.book.members, call.id, c.self, c.txMax, PIGGYBACK_ENTRIES)
  }

  /** swim_updates_send: the message, and the context with its update list advanced. */
  function Message(c: Context, call: Call): seq<Gossip>
    requires CanSend(c, call)
  {
    Header(c.book.members, call.id, c.self) + PackFor(c, call).upds
  }

  function AfterSend(c: Context, call: Call): Context {
    if CanSend(c, call) then c.(book := c.book.(news := PackFor(c, call).news)) else c
  }

  /** What a message does to the ping state machine. */
  function Answered(p: Probe, self: nat, from: nat, upds: seq<Gossip>): Phase {
    if from == p.target && (p.phase == Begin || p.phase == DPinged) then Acked
    else if p.phase == IPinged && p.target != self && (exists g <- upds :: g.id == p.target && g.state.status == Alive)
    then Acked
    else p.phase
  }

  function FirstFrom(items: seq<Item>, id: nat): (r: Item)
    requires Listed(items, id)
    ensures r in items && r.id == id
  {
    if items[0].id == id then items[0]
    else
      assert Listed(items[1..], id) by {
        var i :| 0 <= i < |items| && items[i].id == id;
        assert items[1..][i - 1] == items[i];
      }
      FirstFrom(items[1..], id)
  }

  /** Pass one direct-ping response on to a node that asked for it. */
  function Forward(c: Context, from: nat): Outcome {
    if Listed(c.ipings, from) then
      Outcome(c.(ipings := Without(c.ipings, from)), [Call(from, FirstFrom(c.ipings, from).from)])
    else Outcome(c, [])
  }

  /** What a message asks this node to send: to names its first entry. */
  function Respond(c: Context, from: nat, first: Gossip, now: nat): Outcome {
    var to := first.id;
    if to == c.self then Outcome(c, [Call(c.self, from)])
    else if to == from then Forward(c, from)
    else if to != c.probe.target && first.state.status == Suspect then
      Outcome(c.(ipings := c.ipings + [Item(to, from, now + c.book.pingTimeout)]),
              if Listed(c.ipings, to) then [] else [Call(to, to)])
    else Outcome(c, [])
  }

  /** swim_parse_message, with the shutdown of crt_swim_srv_cb. */
  function Receive(c: Context, from: nat, upds: seq<Gossip>, now: nat): Outcome
    requires c.self in c.book.members
  {
    if !c.active || upds == [] then Outcome(c, [])
    else
      var book := HearAll(c.book, c.self, from, upds, now);
      if exists g <- upds :: KillsSelf(c.self, g) then Outcome(c.(book := book, active := false), [])
      else
        var p := c.probe.(phase := Answered(c.probe, c.self, from, upds));
        Respond(c.(book := book, probe := p), from, upds[0], now)
  }

  /** crt_swim_cli_cb after an acknowledged message to id failed. */
  function RpcFailed(c: Context, id: nat): Context {
    if id !in c.book.members then c
    else c.(book := c.book.(members := c.book.members[id := State(c.book.members[id].incarnation + 1, Dead)]))
  }

  /** A context before its first step: itself ALIVE, every other member INACTIVE. */
  function Initial(rank: nat, ranks: seq<nat>, first: nat): Context {
    var members := map id | id in ranks :: State(0, if id == rank then Alive else Inactive);
    Context(rank, true, ranks, |ranks|, PIGGYBACK_TX_COUNT, Book(members, [], [], PING_TIMEOUT),
            Probe(Begin, ID_INVALID, [], first, 0, 0, 0), [])
  }

  // ---- the same, in place ----

  lemma {:induction false} WithoutAt(items: seq<Item>, id: nat, k: nat)
    requires k < |items| && items[k].id == id && forall j :: 0 <= j < k ==> items[j].id != id
    ensures Without(items, id) == items[..k] + items[k + 1..]
  {
    if k > 0 {
      WithoutAt(items[1..], id, k - 1);
      assert items[1..][..k - 1] == items[1..k] && items[1..][k..] == items[k + 1..];
    }
  }

  lemma {:induction false} WithoutNone(items: seq<Item>, id: nat)
    requires !Listed(items, id)
    ensures Without(items, id) == items
  {
    if items != [] {
      assert forall j :: 0 <= j < |items| - 1 ==> items[1..][j] == items[j + 1];
      WithoutNone(items[1..], id);
    }
  }

  lemma {:induction false} RenewedAt(news: seq<News>, from: nat, id: nat, k: nat)
    requires k < |news| && news[k].id == id && forall j :: 0 <= j < k ==> news[j].id != id
    ensures Renewed(news, from, id) == news[k := News(id, from, 0)]
  {
    if k > 0 {
      RenewedAt(news[1..], from, id, k - 1);
      assert news[1..][k - 1] == news[k];
    }
  }

  lemma {:induction false} FirstAt(items: seq<Item>, id: nat, k: nat)
    requires k < |items| && items[k].id == id && forall j :: 0 <= j < k ==> items[j].id != id
    ensures FirstFrom(items, id) == items[k]
  {
    if k > 0 {
      FirstAt(items[1..], id, k - 1);
    }
  }

  function Joined(a: Pack, b: Pack): Pack {
    Pack(a.news + b.news, a.upds + b.upds)
  }

  /** What one entry of the update list leaves on the list and puts into the message. */
  function OnePack(n: News, members: map<nat, State>, id: nat, self: nat, txMax: nat, room: nat): Pack {
    var header := n.id == id || n.id == self;
    if room == 0 || (!header && n.id !in members) then Pack([], [])
    else
      Pack(if n.count + 1 > txMax then [] else [n.(count := n.count + 1)],
           if header then [] else [Gossip(n.id, members[n.id])])
  }

  /** One step of the walk over the update list. */
  lemma PiggybackAt(a: Pack, news: seq<News>, k: nat, members: map<nat, State>, id: nat, self: nat,
                    txMax: nat, room: nat)
    requires k < |news|
    ensures
      var one := OnePack(news[k], members, id, self, txMax, room);
      && |one.upds| <= room
      && Joined(a, Piggyback(news[k..], members, id, self, txMax, room))
      == Joined(Joined(a, one), Piggyback(news[k + 1..], members, id, self, txMax, room - |one.upds|))
  {
    assert news[k..][1..] == news[k + 1..];
    var one := OnePack(news[k], members, id, self, txMax, room);
    var rest := Piggyback(news[k + 1..], members, id, self, txMax, room - |one.upds|);
    assert Piggyback(news[k..], members, id, self, txMax, room) == Joined(one, rest);
    assert (a.news + one.news) + rest.news == a.news + (one.news + rest.news);
    assert (a.upds + one.upds) + rest.upds == a.upds + (one.upds + rest.upds);
  }

  lemma JoinedIs(a: Pack, b: Pack)
    ensures Joined(a, b) == Pack(a.news + b.news, a.upds + b.upds)
  {
  }

  lemma JoinedEmpty(a: Pack)
    ensures Joined(Pack([], []), a) == a
  {
  }

  lemma PiggybackEnd(a: Pack, members: map<nat, State>, id: nat, self: nat, txMax: nat, room: nat)
    ensures Joined(a, Piggyback([], members, id, self, txMax, room)) == a
  {
  }

  lemma GatherNone(c: Context, cursor: nat)
    requires cursor < |c.ring|
    ensures Gather(c, cursor, 0) == Subgroup(cursor, [])
  {
  }

  lemma GatherNext(c: Context, cursor: nat, n: nat)
    requires cursor < |c.ring| && n > 0
    ensures
      var first := Choose(c, cursor, true);
      Gather(c, cursor, n) == if first.id == ID_INVALID then Subgroup(first.cursor, [])
                              else Subgroup(Gather(c, first.cursor, n - 1).cursor,
                                            [first.id] + Gather(c, first.cursor, n - 1).ids)
  {
  }

  /** The entries of a message one after the other. */
  lemma HearAllAt(b: Book, self: nat, from: nat, upds: seq<Gossip>, now: nat, i: nat)
    requires self in b.members && i < |upds|
    ensures KillsSelf(self, upds[i]) ==> HearAll(b, self, from, upds[i..], now) == b
    ensures !KillsSelf(self, upds[i]) ==>
              var b1 := Hear(b, self, from, upds[i], now);
              && self in b1.members
              && HearAll(b, self, from, upds[i..], now) == HearAll(b1, self, from, upds[i + 1..], now)
  {
    assert upds[i..][1..] == upds[i + 1..];
  }

  lemma HearAllDone(b: Book, self: nat, from: nat, upds: seq<Gossip>, now: nat)
    requires self in b.members
    ensures HearAll(b, self, from, upds[|upds|..], now) == b
  {
  }

  lemma AnsweredNone(p: Probe, self: nat, from: nat, upds: seq<Gossip>)
    ensures Answered(p, self, from, upds[..0]) ==
            if from == p.target && (p.phase == Begin || p.phase == DPinged) then Acked else p.phase
  {
  }

  lemma AnsweredNext(p: Probe, self: nat, from: nat, upds: seq<Gossip>, i: nat)
    requires i < |upds|
    ensures
      var g, state := upds[i], Answered(p, self, from, upds[..i]);
      Answered(p, self, from, upds[..i + 1]) ==
        if g.state.status == Alive && g.id != self && state == IPinged && g.id == p.target then Acked else state
  {
    assert upds[..i + 1] == upds[..i] + [upds[i]];
  }

  class SwimContext {
    const self: nat
    var active: bool
    var ring: seq<nat>
    var groupSize: nat
    var txMax: nat
    var members: map<nat, State>
    var suspects: seq<Item>
    var news: seq<News>
    var pingTimeout: nat
    var phase: Phase
    var target: nat
    var subgroup: seq<nat>
    var cursor: nat
    var nextTick: nat
    var dpingDeadline: nat
    var ipingDeadline: nat
    var ipings: seq<Item>

    function Notes(): (b: Book)
      reads this
      ensures b.members == members
    {
      Book(members, suspects, news, pingTimeout)
    }

    function Machine(): Probe
      reads this
    {
      Probe(phase, target, subgroup, cursor, nextTick, dpingDeadline, ipingDeadline)
    }

    function View(): Context
      reads this
    {
      Context(self, active, ring, groupSize, txMax, Notes(), Machine(), ipings)
    }

    /** swim_init, and the records crt_swim_rank_add makes of a fixed list of members. */
    constructor (rank: nat, ranks: seq<nat>, first: nat)
      requires rank in ranks && ID_INVALID !in ranks && first < |ranks|
      ensures View() == Initial(rank, ranks, first)
    {
      self, active, ring, groupSize, txMax := rank, true, ranks, |ranks|, PIGGYBACK_TX_COUNT;
      members := map id | id in ranks :: State(0, if id == rank then Alive else Inactive);
      suspects, news, pingTimeout, ipings := [], [], PING_TIMEOUT, [];
      phase, target, subgroup, cursor := Begin, ID_INVALID, [], first;
      nextTick, dpingDeadline, ipingDeadline := 0, 0, 0;
    }

    method FindItem(items: seq<Item>, id: nat) returns (k: nat)
      ensures k <= |items|
      ensures k < |items| ==> items[k].id == id
      ensures forall j :: 0 <= j < k ==> items[j].id != id
      ensures k < |items| <==> Listed(items, id)
    {
      k := 0;
      while k < |items| && items[k].id != id
        invariant k <= |items| && forall j :: 0 <= j < k ==> items[j].id != id
      {
        k := k + 1;
      }
    }

    method UpdatesNotify(from: nat, id: nat, state: State)
      requires id in members
      modifies `news, `members
      ensures news == Notified(old(news), from, id) && members == old(members)[id := state]
    {
      var k := 0;
      while k < |news| && news[k].id != id
        invariant k <= |news| && forall j :: 0 <= j < k ==> news[j].id != id
      {
        k := k + 1;
      }
      if k < |news| {
        RenewedAt(news, from, id, k);
        news := news[k := News(id, from, 0)];
      } else {
        news := [News(id, from, 0)] + news;
      }
      members := members[id := state];
    }

    method MemberAlive(from: nat, id: nat, nr: nat) returns (changed: bool)
      modifies `news, `members, `suspects, `pingTimeout
      ensures forall now: nat :: Notes() == Apply(old(Notes()), from, Gossip(id, State(nr, Alive)), now)
      ensures changed <==> id in old(members) && Accepts(old(members[id]), State(nr, Alive))
    {
      if id !in members { return false; }
      var state := members[id];
      if nr <= state.incarnation && (state.status == Dead || state.status == Alive || state.incarnation > nr) {
        return false;
      }
      var k := FindItem(suspects, id);
      if k < |suspects| {
        WithoutAt(suspects, id, k);
        suspects := suspects[..k] + suspects[k + 1..];
        if pingTimeout < PROTOCOL_PERIOD_LEN {
          pingTimeout := pingTimeout + PING_TIMEOUT;
        }
      } else {
        WithoutNone(suspects, id);
      }
      UpdatesNotify(from, id, State(nr, Alive));
      return true;
    }

    method MemberDead(from: nat, id: nat, nr: nat) returns (changed: bool)
      modifies `news, `members, `suspects
      ensures forall now: nat :: Notes() == Apply(old(Notes()), from, Gossip(id, State(nr, Dead)), now)
      ensures changed <==> id in old(members) && Accepts(old(members[id]), State(nr, Dead))
    {
      if id !in members { return false; }
      var state := members[id];
      if nr <= state.incarnation && (state.status == Dead || state.incarnation > nr) {
        return false;
      }
      var k := FindItem(suspects, id);
      if k < |suspects| {
        WithoutAt(suspects, id, k);
        suspects := suspects[..k] + suspects[k + 1..];
      } else {
        WithoutNone(suspects, id);
      }
      UpdatesNotify(from, id, State(nr, Dead));
      return true;
    }

    method MemberSuspect(from: nat, id: nat, nr: nat, now: nat) returns (changed: bool)
      modifies `news, `members, `suspects
      ensures Notes() == Apply(old(Notes()), from, Gossip(id, State(nr, Suspect)), now)
      ensures changed <==> id in old(members) && Accepts(old(members[id]), State(nr, Suspect))
    {
      if id !in members { return false; }
      var state := members[id];
      if nr <= state.incarnation &&
         (state.status == Dead || state.status == Suspect || state.incarnation > nr) {
        return false;
      }
      var k := FindItem(suspects, id);
      if k == |suspects| {
        suspects := suspects + [Item(id, from, now + SUSPECT_TIMEOUT)];
      }
      UpdatesNotify(from, id, State(nr, Suspect));
      return true;
    }

    method UpdateSuspected(now: nat) returns (targets: seq<Call>)
      modifies `news, `members, `suspects
      ensures Expired(Notes(), targets) == Expire(old(Notes()), self, now, 0)
    {
      targets := [];
      var k := 0;
      ghost var all := Expire(Notes(), self, now, 0);
      while k < |suspects|
        invariant k <= |suspects| && pingTimeout == old(pingTimeout)
        invariant all.book == Expire(Notes(), self, now, k).book
        invariant all.calls == targets + Expire(Notes(), self, now, k).calls
        decreases |suspects| - k
      {
        var item := suspects[k];
        var size := |suspects|;
        ghost var before := Notes();
        if now > item.deadline {
          if item.from != self {
            suspects := suspects[k := Item(item.id, self, item.deadline + pingTimeout)];
            targets := targets + [Call(item.id, item.from)];
          } else if item.id in members {
            var _ := MemberDead(item.from, item.id, members[item.id].incarnation);
            assert Notes() == Kill(before, self, item.id, now);
          } else {
            suspects := suspects[..k] + suspects[k + 1..];
          }
        }
        if |suspects| == size {
          k := k + 1;
        }
      }
    }

    method IpingsUpdate(now: nat)
      modifies `ipings
      ensures ipings == Pending(old(ipings), now)
    {
      var k := 0;
      ghost var all := Pending(ipings, now);
      while k < |ipings|
        invariant k <= |ipings| && ipings[..k] + Pending(ipings[k..], now) == all
        decreases |ipings| - k
      {
        ghost var rest := ipings[k + 1..];
        assert ipings[k..][1..] == rest;
        if now > ipings[k].deadline {
          ipings := ipings[..k] + ipings[k + 1..];
          assert ipings[k..] == rest;
        } else {
          assert ipings[..k + 1] == ipings[..k] + [ipings[k]];
          k := k + 1;
        }
      }
      assert ipings[..k] == ipings && Pending(ipings[k..], now) == [];
    }

    /** crt_swim_get_dping_target, or with aliveOnly crt_swim_get_iping_target. */
    method GetTarget(aliveOnly: bool) returns (id: nat)
      requires cursor < |ring| && forall i :: 0 <= i < |ring| ==> ring[i] in members
      modifies `cursor
      ensures Choice(cursor, id) == Choose(old(View()), old(cursor), aliveOnly)
    {
      var count := 0;
      ghost var c := View();
      while true
        invariant cursor < |ring| && count <= groupSize + 1
        invariant Seek(c, cursor, aliveOnly, groupSize + 1 - count) == Choose(c, old(cursor), aliveOnly)
        decreases groupSize + 1 - count
      {
        if count > groupSize { return ID_INVALID; }
        count := count + 1;
        cursor := if cursor + 1 < |ring| then cursor + 1 else 0;
        id := ring[cursor];
        if id != self && (if aliveOnly then members[id].status == Alive else members[id].status != Dead) {
          return id;
        }
      }
    }

    method SubgroupInit()
      requires subgroup == [] && cursor < |ring| && forall i :: 0 <= i < |ring| ==> ring[i] in members
      modifies `cursor, `subgroup
      ensures Subgroup(cursor, subgroup) == Gather(old(View()), old(cursor), SUBGROUP_SIZE)
    {
      hide Gather, Choose, Seek;
      var i := 0;
      ghost var c := View();
      ghost var all := Gather(c, cursor, SUBGROUP_SIZE);
      while i < SUBGROUP_SIZE
        invariant i <= SUBGROUP_SIZE && cursor < |ring|
        invariant all.cursor == Gather(c, cursor, SUBGROUP_SIZE - i).cursor
        invariant all.ids == subgroup + Gather(c, cursor, SUBGROUP_SIZE - i).ids
      {
        GatherNext(c, cursor, SUBGROUP_SIZE - i);
        ChooseIgnores(View(), c, cursor, true);
        var id := GetTarget(true);
        if id == ID_INVALID { return; }
        subgroup := subgroup + [id];
        i := i + 1;
      }
      GatherNone(c, cursor);
    }

    /** The target selection at the end of the switch in swim_progress. */
    method NextTarget()
      requires cursor < |ring| && forall i :: 0 <= i < |ring| ==> ring[i] in members
      modifies `cursor, `target, `phase, `active
      ensures Outcome(View(), []) == SelectNext(old(View()))
    {
      var id := GetTarget(false);
      target := id;
      if id == ID_INVALID {
        active := false;
      } else {
        phase := Begin;
      }
    }

    /** The SCS_TIMEDOUT case. */
    method AskNext(now: nat) returns (calls: seq<Call>)
      requires phase == TimedOut
      requires cursor < |ring| && forall i :: 0 <= i < |ring| ==> ring[i] in members
      modifies `cursor, `target, `phase, `active, `subgroup, `ipingDeadline
      ensures Outcome(View(), calls) == Escalate(old(View()), now)
    {
      hide Seek, Gather, Choose;
      calls := [];
      if subgroup == [] {
        SubgroupInit();
      }
      if subgroup != [] {
        calls := [Call(target, subgroup[0])];
        subgroup := subgroup[1..];
        if subgroup == [] {
          ipingDeadline := now + 2 * pingTimeout;
          phase := IPinged;
        }
      } else {
        NextTarget();
      }
    }

    /** The locked switch of swim_progress, with the shutdown of crt_swim_progress_cb. */
    method ProgressTick(now: nat) returns (calls: seq<Call>)
      requires cursor < |ring| && forall i :: 0 <= i < |ring| ==> ring[i] in members
      modifies this
      ensures Outcome(View(), calls) == Tick(old(View()), now)
    {
      hide Apply, SelectNext, Escalate;
      calls := [];
      if target == ID_INVALID || target !in members {
        target := ID_INVALID;
        NextTarget();
        return;
      }
      var state := members[target];
      match phase
      case Begin =>
        if now > nextTick {
          nextTick := now + PROTOCOL_PERIOD_LEN;
          dpingDeadline := now + pingTimeout;
          phase := DPinged;
          calls := [Call(target, target)];
        }
      case DPinged =>
        if now > dpingDeadline {
          if state.status != Inactive {
            var _ := MemberSuspect(self, target, state.incarnation, now);
            phase := TimedOut;
          } else {
            phase := TargetDead;
          }
        }
      case IPinged =>
        if now > ipingDeadline {
          ghost var before := Notes();
          var _ := MemberDead(self, target, state.incarnation);
          assert Notes() == Kill(before, self, target, now);
          phase := TargetDead;
        }
      case TimedOut => calls := AskNext(now);
      case Acked => NextTarget();
      case TargetDead => NextTarget();
    }

    method UpdatesSend(id: nat, to: nat) returns (sent: bool, message: seq<Gossip>)
      requires self in members
      modifies `news
      ensures sent <==> CanSend(old(View()), Call(id, to))
      ensures sent ==> message == Message(old(View()), Call(id, to))
      ensures View() == AfterSend(old(View()), Call(id, to))
    {
      if !active || to == ID_INVALID || id !in members {
        return false, [];
      }
      ghost var c := View();
      var nupds := PIGGYBACK_ENTRIES + (if id != self then 2 else 1);
      var upds := new Gossip[nupds](_ => Gossip(0, State(0, Alive)));
      upds[0] := Gossip(id, members[id]);
      var i := 1;
      if id != self {
        upds[1] := Gossip(self, members[self]);
        i := 2;
      }
      assert upds[..i] == Header(members, id, self);
      i := FillPiggyback(upds, i, id);
      return true, upds[..i];
    }

    /** The walk of swim_updates_send over the update list. */
    method FillPiggyback(upds: array<Gossip>, start: nat, id: nat) returns (i: nat)
      requires start <= upds.Length
      modifies `news, upds
      ensures start <= i <= upds.Length
      ensures Pack(news, upds[start..i]) == Piggyback(old(news), members, id, self, txMax, upds.Length - start)
      ensures upds[..start] == old(upds[..start])
    {
      hide Piggyback, Joined;
      i := start;
      var k := 0;
      ghost var all := Piggyback(news, members, id, self, txMax, upds.Length - start);
      assert news[0..] == news && news[..0] == [] && upds[start..start] == [];
      assert Joined(Pack([], []), all) == all by { JoinedEmpty(all); }
      while k < |news|
        invariant k <= |news| && start <= i <= upds.Length && upds[..start] == old(upds[..start])
        invariant Joined(Pack(news[..k], upds[start..i]),
                         Piggyback(news[k..], members, id, self, txMax, upds.Length - i)) == all
        decreases |news| - k
      {
        var item := news[k];
        ghost var done, rest := Pack(news[..k], upds[start..i]), news[k + 1..];
        ghost var one := OnePack(item, members, id, self, txMax, upds.Length - i);
        PiggybackAt(done, news, k, members, id, self, txMax, upds.Length - i);
        if i >= upds.Length || (item.id != id && item.id != self && item.id !in members) {
          DropNews(k);
        } else {
          if item.id != id && item.id != self {
            upds[i] := Gossip(item.id, members[item.id]);
            i := i + 1;
          }
          if item.count + 1 > txMax {
            DropNews(k);
          } else {
            news := news[k := item.(count := item.count + 1)];
            k := k + 1;
          }
        }
        assert news[k..] == rest;
        assert Pack(news[..k], upds[start..i]) == Joined(done, one) by { JoinedIs(done, one); }
      }
      PiggybackEnd(Pack(news[..k], upds[start..i]), members, id, self, txMax, upds.Length - i);
      assert news[..k] == news && news[k..] == [];
    }

    /** TAILQ_REMOVE on the update list. */
    method DropNews(k: nat)
      requires k < |news|
      modifies `news
      ensures news == old(news[..k] + news[k + 1..])
    {
      news := news[..k] + news[k + 1..];
    }

    method ParseMessage(from: nat, upds: seq<Gossip>, now: nat) returns (calls: seq<Call>)
      requires self in members
      modifies this
      ensures Outcome(View(), calls) == Receive(old(View()), from, upds, now)
    {
      calls := [];
      if !active || upds == [] { return; }
      ghost var c := View();
      var shutdown, state := ParseUpdates(from, upds, now);
      if shutdown {
        active := false;
        return;
      }
      phase := state;
      calls := Reply(from, upds[0], now);
    }

    /** One entry of a message, unless it declares this node dead. */
    method ParseUpdate(from: nat, g: Gossip, now: nat)
      requires self in members && !KillsSelf(self, g)
      modifies `members, `suspects, `news, `pingTimeout
      ensures Notes() == Hear(old(Notes()), self, from, g, now)
    {
      match g.state.status
      case Inactive =>
      case Alive =>
        if g.id != self {
          var _ := MemberAlive(from, g.id, g.state.incarnation);
        }
      case Suspect =>
        if g.id != self {
          var _ := MemberSuspect(from, g.id, g.state.incarnation, now);
        } else if members[self].incarnation <= g.state.incarnation {
          UpdatesNotify(self, self, State(members[self].incarnation + 1, members[self].status));
        }
      case Dead =>
        var _ := MemberDead(from, g.id, g.state.incarnation);
    }

    /** The loop of swim_parse_message over the entries of a message. */
    method ParseUpdates(from: nat, upds: seq<Gossip>, now: nat) returns (shutdown: bool, state: Phase)
      requires self in members
      modifies `members, `suspects, `news, `pingTimeout
      ensures shutdown <==> exists g <- upds :: KillsSelf(self, g)
      ensures Notes() == HearAll(old(Notes()), self, from, upds, now)
      ensures !shutdown ==> state == Answered(old(Machine()), self, from, upds)
    {
      hide Hear, Notes, HearAll, Answered;
      AnsweredNone(Machine(), self, from, upds);
      state := if from == target && (phase == Begin || phase == DPinged) then Acked else phase;
      var i := 0;
      ghost var all := HearAll(Notes(), self, from, upds, now);
      assert upds[0..] == upds;
      while i < |upds|
        invariant i <= |upds| && self in members
        invariant HearAll(Notes(), self, from, upds[i..], now) == all
        invariant forall j :: 0 <= j < i ==> !KillsSelf(self, upds[j])
        invariant state == Answered(Machine(), self, from, upds[..i])
      {
        var g := upds[i];
        HearAllAt(Notes(), self, from, upds, now, i);
        if KillsSelf(self, g) {
          return true, state;
        }
        AnsweredNext(Machine(), self, from, upds, i);
        if g.state.status == Alive && g.id != self && state == IPinged && g.id == target {
          state := Acked;
        }
        ParseUpdate(from, g, now);
        i := i + 1;
      }
      HearAllDone(Notes(), self, from, upds, now);
      assert upds[..i] == upds;
      shutdown := false;
    }

    /** What swim_parse_message decides to send once the entries are processed. */
    method Reply(from: nat, first: Gossip, now: nat) returns (calls: seq<Call>)
      modifies `ipings
      ensures Outcome(View(), calls) == Respond(old(View()), from, first, now)
    {
      calls := [];
      var to := first.id;
      if to == self {
        calls := [Call(self, from)];
      } else if to == from {
        calls := ForwardResponse(from);
      } else if to != target && first.state.status == Suspect {
        var k := FindItem(ipings, to);
        if k == |ipings| {
          calls := [Call(to, to)];
        }
        ipings := ipings + [Item(to, from, now + pingTimeout)];
      }
    }

    /** One round of the forwarding loop of swim_parse_message. */
    method ForwardResponse(from: nat) returns (calls: seq<Call>)
      modifies `ipings
      ensures Outcome(View(), calls) == Forward(old(View()), from)
    {
      calls := [];
      var k := FindItem(ipings, from);
      if k < |ipings| {
        WithoutAt(ipings, from, k);
        FirstAt(ipings, from, k);
        calls := [Call(from, ipings[k].from)];
        ipings := ipings[..k] + ipings[k + 1..];
      }
    }
  }
}
