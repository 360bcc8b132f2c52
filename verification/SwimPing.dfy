/**
 A direct ping and an indirect ping, from the request to the answer, across the nodes that take
 part (swim_progress, swim_updates_send and swim_parse_message together).
 */
module SwimPing {
  import opened SwimMember
  import opened SwimContext
  import opened SwimNode
  import opened SwimGossip

  ghost predicate Ready(c: Context) {
    c.active && WellFormed(c) && BookInv(c.book, c.self, c.txMax)
  }

  /** The context after sending, and the message. */
  lemma SentFacts(c: Context, call: Call)
    requires Ready(c) && call.id in c.book.members && call.to != ID_INVALID
    ensures CanSend(c, call)
    ensures
      var m := Message(c, call);
      && m != [] && m[0] == Gossip(call.id, c.book.members[call.id])
      && DistinctGossip(m)
      && Ready(AfterSend(c, call))
      && AfterSend(c, call) == c.(book := c.book.(news := AfterSend(c, call).book.news))
  {
    MessageSound(c, call);
    SendKeeps(c, call);
    hide Piggyback, BookInv;
  }

  /** In a message without repetition only one entry can declare the receiver dead. */
  lemma KilledIff(m: seq<Gossip>, self: nat)
    requires m != [] && DistinctGossip(m) && m[0].id == self
    ensures (exists g <- m :: KillsSelf(self, g)) <==> m[0].state.status == Dead
  {
    if exists g <- m :: KillsSelf(self, g) {
      var i :| 0 <= i < |m| && KillsSelf(self, m[i]);
    }
    assert m[0] in m;
  }

  /** A node that gets a ping answers it, and shuts down exactly when the sender records it dead. */
  lemma PingReceived(y: Context, x: Context, from: nat, now: nat)
    requires Ready(y) && Ready(x) && x.self in y.book.members
    ensures CanSend(y, Call(x.self, x.self))
    ensures
      var r := Receive(x, from, Message(y, Call(x.self, x.self)), now);
      if y.book.members[x.self].status == Dead then !r.context.active && r.calls == []
      else Ready(r.context) && r.calls == [Call(x.self, from)] && r.context.self == x.self
           && r.context.book.members.Keys == x.book.members.Keys
  {
    var call := Call(x.self, x.self);
    SentFacts(y, call);
    var m := Message(y, call);
    KilledIff(m, x.self);
    HearAllKeeps(x.book, x.self, x.txMax, from, m, now);
    hide HearAll, Message, BookInv;
  }

  /**
   The direct ping.  y waits for an answer from x; x gets the ping and answers unless y records
   it dead; when the answer reaches y while it is still waiting, the ping is acknowledged, unless
   the answer tells y that y itself is dead.  What else the nodes do in between does not matter.
   */
  lemma DirectPing(y: Context, x: Context, t1: nat, x2: Context, y2: Context, t2: nat)
    requires Ready(y) && Ready(x) && x.self in y.book.members && y.book.members[x.self].status != Dead
    requires y.self in x.book.members
    requires Ready(x2) && x2.self == x.self && x2.book.members.Keys == x.book.members.Keys
    requires Ready(y2) && y2.self == y.self
    requires y2.probe.phase == DPinged && y2.probe.target == x.self
    ensures CanSend(y, Call(x.self, x.self))
    ensures Receive(x, y.self, Message(y, Call(x.self, x.self)), t1).calls == [Call(x.self, y.self)]
    ensures CanSend(x2, Call(x.self, y.self))
    ensures
      var r := Receive(y2, x.self, Message(x2, Call(x.self, y.self)), t2);
      r.context.active ==> r.context.probe.phase == Acked
  {
    PingReceived(y, x, y.self, t1);
    SentFacts(x2, Call(x.self, y.self));
    hide HearAll, Message, Receive, BookInv;
    AnswerAcks(y2, x.self, Message(x2, Call(x.self, y.self)), t2);
  }

  lemma AnswerAcks(c: Context, from: nat, upds: seq<Gossip>, now: nat)
    requires Ready(c) && upds != []
    requires
      || (c.probe.phase == DPinged && c.probe.target == from)
      || (c.probe.phase == IPinged && c.probe.target != c.self && upds[0].id == c.probe.target
          && upds[0].state.status == Alive)
    ensures Receive(c, from, upds, now).context.active ==> Receive(c, from, upds, now).context.probe.phase == Acked
  {
    hide HearAll, Without;
    assert upds[0] in upds;
  }

  // ---- indirect pings ----

  /** A request to ping x for y: the helper pings x unless it already has, and remembers who asked. */
  lemma HelpRequested(y: Context, z: Context, x: nat, now: nat)
    requires Ready(y) && Ready(z) && x in y.book.members && z.self in y.book.members
    requires x != y.self && x != z.self && y.self != z.self && z.probe.target != x
    requires y.book.members[x].status == Suspect
    ensures CanSend(y, Call(x, z.self))
    ensures
      var r := Receive(z, y.self, Message(y, Call(x, z.self)), now);
      r.context.active ==>
        && r.calls == (if Listed(z.ipings, x) then [] else [Call(x, x)])
        && Listed(r.context.ipings, x)
        && (!Listed(z.ipings, x) ==> FirstFrom(r.context.ipings, x).from == y.self)
  {
    var call := Call(x, z.self);
    SentFacts(y, call);
    hide HearAll, Message, BookInv;
    var r := Receive(z, y.self, Message(y, call), now);
    if r.context.active {
      var item := r.context.ipings[|z.ipings|];
      assert item.id == x && item.from == y.self;
      if !Listed(z.ipings, x) {
        FirstAt(r.context.ipings, x, |z.ipings|);
      }
    }
  }

  /**
   x's answer to the helper: the helper passes it on to the node that asked, and it now records
   x as ALIVE, if what it recorded before is not above x's own incarnation and not DEAD.
   */
  lemma HelpAnswered(x: Context, z: Context, now: nat)
    requires Ready(x) && Ready(z) && x.self != z.self && x.self in z.book.members && z.self in x.book.members
    requires Listed(z.ipings, x.self)
    requires z.book.members[x.self].incarnation <= x.book.members[x.self].incarnation
    requires z.book.members[x.self].status != Dead
    ensures CanSend(x, Call(x.self, z.self))
    ensures
      var r := Receive(z, x.self, Message(x, Call(x.self, z.self)), now);
      r.context.active ==>
        && Ready(r.context)
        && r.calls == [Call(x.self, FirstFrom(z.ipings, x.self).from)]
        && x.self in r.context.book.members
        && r.context.book.members[x.self] == State(x.book.members[x.self].incarnation, Alive)
  {
    var call := Call(x.self, z.self);
    SentFacts(x, call);
    var m := Message(x, call);
    var own := x.book.members[x.self];
    assert own.status == Alive;
    HearAllKeeps(z.book, z.self, z.txMax, x.self, m, now);
    HearAllAbsorbs(z.book, z.self, x.self, m, now, x.self);
    AboutFirst(m, z.self, x.self);
    AbsorbOne(z.book.members[x.self], own);
    hide HearAll, Message, About, AbsorbAll, Without, BookInv;
  }

  /** A message without repetition says one thing about its subject. */
  lemma AboutFirst(m: seq<Gossip>, self: nat, x: nat)
    requires m != [] && DistinctGossip(m) && m[0].id == x && x != self
    ensures About(m, self, x) == [m[0].state]
  {
    AboutNone(m[1..], self, x);
    assert [m[0].state] + [] == [m[0].state];
  }

  lemma {:induction false} AboutNone(m: seq<Gossip>, self: nat, x: nat)
    requires forall i :: 0 <= i < |m| ==> m[i].id != x
    ensures About(m, self, x) == []
    decreases |m|
  {
    if m != [] {
      AboutNone(m[1..], self, x);
    }
  }

  /** While y waits for indirect answers about x, one from a helper acknowledges if and only if it says ALIVE. */
  lemma HelperAcksIff(y: Context, from: nat, x: nat, m: seq<Gossip>, now: nat)
    requires Ready(y) && m != [] && DistinctGossip(m) && m[0].id == x != y.self && from != x
    requires y.probe.phase == IPinged && y.probe.target == x
    ensures
      var r := Receive(y, from, m, now);
      r.context.active ==> (r.context.probe.phase == Acked <==> m[0].state.status == Alive)
  {
    hide HearAll, Without;
    assert m[0] in m;
    assert forall i :: 0 <= i < |m| && m[i].id == x ==> i == 0;
  }

  /** After a timeout the node asks one helper at most, about its target. */
  lemma TimeoutCall(c: Context, now: nat)
    requires WellFormed(c) && c.probe.phase == TimedOut && c.probe.target in c.book.members
    ensures Tick(c, now).calls == [] || Tick(c, now).calls == [Call(c.probe.target, Tick(c, now).calls[0].to)]
  {
    hide Seek, Gather;
  }

  /** c is the node of this id, and knows member x. */
  ghost predicate Is(c: Context, id: nat, x: nat) {
    Ready(c) && c.self == id && x in c.book.members
  }

  /**
   The indirect ping.  y, whose direct ping of x timed out, decides to ask z (y0 is y at that moment)
   and asks; z pings x for y; x answers z; z tells y.  If the four messages arrive and the last one
   does not tell y that it is dead itself, y's ping is acknowledged if and only if z still records x
   as ALIVE when it passes the answer on.

   Between its parts in this every node may do other things: z1 and z2 are z when it gets the
   request and when it sends the ping, x1 and x2 are x when it gets the ping and when it answers,
   z3 and z4 are z when it gets the answer and when it passes it on, y2 is y when that arrives.
   When the answer arrives z must still remember that y asked first, not believe x dead and not
   know a higher incarnation of x than x itself; it then records x as ALIVE.
   */
  lemma IndirectPing(y0: Context, t0: nat, y: Context, z1: Context, z2: Context, x1: Context, x2: Context,
                     z3: Context, z4: Context, y2: Context, x: nat, z: nat, t1: nat, t2: nat, t3: nat, t4: nat)
    requires Is(y0, y.self, x) && y0.probe.phase == TimedOut && y0.probe.target == x
    requires Tick(y0, t0).calls != [] && z == Tick(y0, t0).calls[0].to
    requires x != y.self && x != z && y.self != z
    requires Is(y, y.self, x) && z in y.book.members && y.book.members[x].status == Suspect
    requires Is(z1, z, x) && z1.probe.target != x && !Listed(z1.ipings, x)
    requires Is(z2, z, x) && z2.book.members[x].status != Dead
    requires Is(x1, x, z) && Is(x2, x, z)
    requires Is(z3, z, x) && Listed(z3.ipings, x) && FirstFrom(z3.ipings, x).from == y.self
    requires z3.book.members[x].status != Dead && z3.book.members[x].incarnation <= x2.book.members[x].incarnation
    requires Is(z4, z, x)
    requires Is(y2, y.self, x) && y2.probe.phase == IPinged && y2.probe.target == x
    ensures Tick(y0, t0).calls == [Call(x, z)] && CanSend(y, Tick(y0, t0).calls[0])
    ensures CanSend(z2, Call(x, x)) && CanSend(x2, Call(x, z)) && CanSend(z4, Call(x, y.self))
    ensures
      var asked := Receive(z1, y.self, Message(y, Tick(y0, t0).calls[0]), t1);
      asked.context.active ==>
        && asked.calls == [Call(x, x)] && Listed(asked.context.ipings, x)
        && FirstFrom(asked.context.ipings, x).from == y.self
    ensures Receive(x1, z, Message(z2, Call(x, x)), t2).calls == [Call(x, z)]
    ensures
      var told := Receive(z3, x, Message(x2, Call(x, z)), t3);
      told.context.active ==>
        && told.calls == [Call(x, y.self)] && x in told.context.book.members
        && told.context.book.members[x].status == Alive
    ensures
      var r := Receive(y2, z, Message(z4, Call(x, y.self)), t4);
      r.context.active ==> (r.context.probe.phase == Acked <==> z4.book.members[x].status == Alive)
  {
    assert Tick(y0, t0).calls == [Call(x, z)] by { TimeoutCall(y0, t0); }
    hide HearAll, Message, Receive, BookInv, Tick;
    SentFacts(y, Call(x, z));
    HelpRequested(y, z1, x, t1);
    PingReceived(z2, x1, z, t2);
    HelpAnswered(x2, z3, t3);
    SentFacts(z4, Call(x, y.self));
    HelperAcksIff(y2, z, x, Message(z4, Call(x, y.self)), t4);
  }
}
