/**
 When the ping state machine of a SWIM node declares a member dead (the SCS_IPINGED case of
 swim_progress): never before the ping has been given its full time, whatever messages arrive
 and whatever acknowledgements fail in between.
 */
module SwimTimers {
  import opened SwimMember
  import opened SwimContext
  import opened SwimNode
  import opened SwimSuspects

  // ---- the ping state machine ----

  /** Event e is an answer to a ping of x in this phase. */
  ghost predicate Answers(e: Event, phase: Phase, x: nat) {
    && e.Hears? && e.upds != []
    && (((phase == Begin || phase == DPinged) && e.from == x)
        || (phase == IPinged && exists g <- e.upds :: g.id == x && g.state.status == Alive))
  }

  /**
   Everything an event can do to the ping state machine of a node that stays active: an answer, and
   nothing but an answer, acknowledges; the progress loop moves on exactly when a deadline has passed
   or the target is settled.
   */
  ghost predicate Moves(p: Probe, q: Probe, e: Event, pingTimeout: nat) {
    && (!e.Progress? ==> q == if Answers(e, p.phase, p.target) then p.(phase := Acked) else p)
    && (Answers(e, p.phase, p.target) ==> q.phase == Acked)
    && (e.Progress? ==> q.phase != Acked)
    && (e.Progress? && q.phase == DPinged ==>
          q == p || (p.phase == Begin && q.target == p.target && q.dpingDeadline == e.now + pingTimeout))
    && (e.Progress? && q.phase == TimedOut ==>
          q.target == p.target && (p.phase == TimedOut || (p.phase == DPinged && e.now > p.dpingDeadline)))
    && (e.Progress? && q.phase == IPinged ==>
          q == p || (p.phase == TimedOut && q.target == p.target && q.ipingDeadline == e.now + 2 * pingTimeout))
    && (e.Progress? && q.phase == TargetDead ==>
          q.target == p.target
          && ((p.phase == DPinged && e.now > p.dpingDeadline) || (p.phase == IPinged && e.now > p.ipingDeadline)))
    && (e.Progress? && q.phase == Begin ==>
          q == p || p.target == ID_INVALID || p.phase in {TimedOut, Acked, TargetDead})
    && (e.Progress? && p.target != ID_INVALID ==>
          && (p.phase == Begin && e.now > p.nextTick ==> q.phase == DPinged)
          && (p.phase == DPinged && e.now > p.dpingDeadline ==> q.phase in {TimedOut, TargetDead})
          && (p.phase == IPinged && e.now > p.ipingDeadline ==> q.phase == TargetDead)
          && (p.phase in {Acked, TargetDead} ==> q.phase == Begin))
  }

  lemma TickMoves(c: Context, now: nat)
    requires WellFormed(c) && Tick(c, now).context.active && c.active
    requires c.probe.target != ID_INVALID ==> c.probe.target in c.book.members
    ensures Moves(c.probe, Tick(c, now).context.probe, Progress(now), c.book.pingTimeout)
  {
    hide Apply, Seek, Gather;
  }

  lemma StepMoves(n: Node, e: Event)
    requires NodeInv(n) && Step(n, e).context.active
    ensures n.context.active
    ensures Moves(n.context.probe, Step(n, e).context.probe, e, n.context.book.pingTimeout)
  {
    hide BookInv, HearAll, Expire, Tick, Piggyback, Without;
    if e.Progress? {
      TickMoves(n.context, e.now);
    } else {
      hide Moves;
    }
  }

  ghost predicate InPhase(n: Node, events: seq<Event>, i: nat, phase: Phase, x: nat)
    requires i <= |events|
  {
    At(n, events, i).probe.phase == phase && At(n, events, i).probe.target == x
  }

  /** The states after lo up to hi are all in this phase for x, and no event among them answers. */
  ghost predicate Stays(n: Node, events: seq<Event>, lo: nat, hi: nat, phase: Phase, x: nat)
    requires lo < hi <= |events|
  {
    && (forall i: nat :: lo < i <= hi ==> InPhase(n, events, i, phase, x))
    && (forall i: nat :: lo < i < hi ==> !Answers(events[i], phase, x))
  }

  /** Event j of the run decides to ping x directly. */
  ghost predicate PingsAt(n: Node, events: seq<Event>, j: nat, x: nat)
    requires j < |events|
  {
    && events[j].Progress? && InPhase(n, events, j, Begin, x) && InPhase(n, events, j + 1, DPinged, x)
    && Run(n, events[..j + 1]).calls == Run(n, events[..j]).calls + [Call(x, x)]
  }

  lemma PingsAtPrefix(n: Node, events: seq<Event>, j: nat, x: nat)
    requires j < |events| - 1 && PingsAt(n, events[..|events| - 1], j, x)
    ensures PingsAt(n, events, j, x)
  {
    var init := events[..|events| - 1];
    assert init[..j] == events[..j] && init[..j + 1] == events[..j + 1];
  }

  lemma PingDecided(n: Node, e: Event)
    requires NodeInv(n) && e.Progress? && n.context.active
    requires n.context.probe.phase == Begin && Step(n, e).context.probe.phase == DPinged
    ensures Step(n, e).calls == n.calls + [Call(n.context.probe.target, n.context.probe.target)]
  {
    hide BookInv, Apply, Seek, Gather;
  }

  ghost predicate DPingedSince(n: Node, events: seq<Event>, j: nat, x: nat) {
    && j < |events| && PingsAt(n, events, j, x)
    && Stays(n, events, j, |events|, DPinged, x)
    && At(n, events, |events|).probe.dpingDeadline >= events[j].now + PING_TIMEOUT
  }

  ghost predicate TimedOutSince(n: Node, events: seq<Event>, j: nat, a: nat, x: nat) {
    && j < a < |events| && PingsAt(n, events, j, x) && events[a].Progress?
    && Stays(n, events, j, a, DPinged, x)
    && events[a].now > events[j].now + PING_TIMEOUT
    && Stays(n, events, a, |events|, TimedOut, x)
  }

  ghost predicate IPingedSince(n: Node, events: seq<Event>, j: nat, a: nat, b: nat, x: nat) {
    && j < a < b < |events| && PingsAt(n, events, j, x) && events[a].Progress? && events[b].Progress?
    && Stays(n, events, j, a, DPinged, x)
    && events[a].now > events[j].now + PING_TIMEOUT
    && Stays(n, events, a, b, TimedOut, x)
    && Stays(n, events, b, |events|, IPinged, x)
    && At(n, events, |events|).probe.ipingDeadline >= events[b].now + 2 * PING_TIMEOUT
  }

  lemma StaysPrefix(n: Node, events: seq<Event>, lo: nat, hi: nat, phase: Phase, x: nat)
    requires lo < hi < |events|
    requires Stays(n, events[..|events| - 1], lo, hi, phase, x)
    ensures Stays(n, events, lo, hi, phase, x)
  {
    var init := events[..|events| - 1];
    forall i: nat | lo < i <= hi ensures InPhase(n, events, i, phase, x) {
      assert InPhase(n, init, i, phase, x);
      assert init[..i] == events[..i];
    }
    forall i: nat | lo < i < hi ensures !Answers(events[i], phase, x) {
      assert init[i] == events[i];
    }
  }

  /** One more event in the same phase. */
  lemma StaysOn(n: Node, events: seq<Event>, lo: nat, phase: Phase, x: nat)
    requires lo < |events| - 1
    requires Stays(n, events[..|events| - 1], lo, |events| - 1, phase, x)
    requires InPhase(n, events, |events|, phase, x) && !Answers(events[|events| - 1], phase, x)
    ensures Stays(n, events, lo, |events|, phase, x)
  {
    StaysPrefix(n, events, lo, |events| - 1, phase, x);
  }

  /** What the last event of a run did to the ping state machine. */
  lemma LastMove(n: Node, events: seq<Event>)
    requires TimerInv(n) && events != [] && At(n, events, |events|).active
    ensures At(n, events[..|events| - 1], |events| - 1).active
    ensures At(n, events[..|events| - 1], |events| - 1).book.pingTimeout >= PING_TIMEOUT
    ensures Moves(At(n, events[..|events| - 1], |events| - 1).probe, At(n, events, |events|).probe,
                  events[|events| - 1], At(n, events[..|events| - 1], |events| - 1).book.pingTimeout)
  {
    hide NodeInv, Step, Moves;
    var init := events[..|events| - 1];
    assert events[..|events|] == events && init[..|init|] == init;
    RunTimers(n, init);
    StepMoves(Run(n, init), events[|events| - 1]);
  }

  lemma PingStarts(n: Node, events: seq<Event>)
    requires TimerInv(n) && events != [] && events[|events| - 1].Progress?
    requires At(n, events, |events|).active && At(n, events, |events|).probe.phase == DPinged
    requires At(n, events[..|events| - 1], |events| - 1).probe.phase == Begin
    requires At(n, events[..|events| - 1], |events| - 1).probe.target == At(n, events, |events|).probe.target
    ensures PingsAt(n, events, |events| - 1, At(n, events, |events|).probe.target)
  {
    hide NodeInv, Step, Moves;
    var init := events[..|events| - 1];
    assert events[..|events|] == events && init[..|init|] == init;
    RunTimers(n, init);
    StepMoves(Run(n, init), events[|events| - 1]);
    PingDecided(Run(n, init), events[|events| - 1]);
  }

  lemma {:induction false} DPingHasStart(n: Node, events: seq<Event>) returns (j: nat)
    requires TimerInv(n) && n.context.probe.phase == Begin
    requires At(n, events, |events|).active && At(n, events, |events|).probe.phase == DPinged
    ensures DPingedSince(n, events, j, At(n, events, |events|).probe.target)
    decreases |events|
  {
    hide NodeInv, Run, Answers;
    assert events != [] by { RunNothing(n); }
    var init, e, q := events[..|events| - 1], events[|events| - 1], At(n, events, |events|).probe;
    LastMove(n, events);
    if At(n, init, |init|).probe == q {
      j := DPingHasStart(n, init);
      PingsAtPrefix(n, events, j, q.target);
      StaysOn(n, events, j, DPinged, q.target);
    } else {
      j := |events| - 1;
      PingStarts(n, events);
    }
  }

  lemma {:induction false} TimeoutHasStart(n: Node, events: seq<Event>) returns (j: nat, a: nat)
    requires TimerInv(n) && n.context.probe.phase == Begin
    requires At(n, events, |events|).active && At(n, events, |events|).probe.phase == TimedOut
    ensures TimedOutSince(n, events, j, a, At(n, events, |events|).probe.target)
    decreases |events|
  {
    hide NodeInv, Run, Answers;
    assert events != [] by { RunNothing(n); }
    var init, e, q := events[..|events| - 1], events[|events| - 1], At(n, events, |events|).probe;
    LastMove(n, events);
    if At(n, init, |init|).probe.phase == TimedOut {
      j, a := TimeoutHasStart(n, init);
      PingsAtPrefix(n, events, j, q.target);
      StaysPrefix(n, events, j, a, DPinged, q.target);
      NoTimedOutAnswer(e, q.target);
      StaysOn(n, events, a, TimedOut, q.target);
    } else {
      j := DPingHasStart(n, init);
      PingsAtPrefix(n, events, j, q.target);
      a := |events| - 1;
      StaysPrefix(n, events, j, a, DPinged, q.target);
    }
  }

  lemma NoTimedOutAnswer(e: Event, x: nat)
    ensures !Answers(e, TimedOut, x)
  {
  }

  lemma {:induction false} IPingHasStart(n: Node, events: seq<Event>) returns (j: nat, a: nat, b: nat)
    requires TimerInv(n) && n.context.probe.phase == Begin
    requires At(n, events, |events|).active && At(n, events, |events|).probe.phase == IPinged
    ensures IPingedSince(n, events, j, a, b, At(n, events, |events|).probe.target)
    decreases |events|
  {
    hide NodeInv, Run, Answers;
    assert events != [] by { RunNothing(n); }
    var init, e, q := events[..|events| - 1], events[|events| - 1], At(n, events, |events|).probe;
    LastMove(n, events);
    if At(n, init, |init|).probe == q {
      j, a, b := IPingHasStart(n, init);
      PingsAtPrefix(n, events, j, q.target);
      StaysPrefix(n, events, j, a, DPinged, q.target);
      StaysPrefix(n, events, a, b, TimedOut, q.target);
      StaysOn(n, events, b, IPinged, q.target);
    } else {
      j, a := TimeoutHasStart(n, init);
      PingsAtPrefix(n, events, j, q.target);
      b := |events| - 1;
      StaysPrefix(n, events, j, a, DPinged, q.target);
      StaysPrefix(n, events, a, b, TimedOut, q.target);
    }
  }

  /**
   What the progress loop does to the records: a target whose direct ping timed out goes from ALIVE to
   SUSPECT, one whose indirect pings timed out becomes DEAD, each at the incarnation on record; an
   INACTIVE target is left alone, and so is everybody else.
   */
  lemma ProgressRecords(n: Node, e: Event, x: nat)
    requires NodeInv(n) && n.context.active && e.Progress? && x in n.context.book.members
    ensures x in Step(n, e).context.book.members
    ensures
      var p, s, s' := n.context.probe, n.context.book.members[x], Step(n, e).context.book.members[x];
      if x == p.target && p.phase == DPinged && e.now > p.dpingDeadline && s.status == Alive then
        && s' == State(s.incarnation, Suspect)
        && (!Listed(n.context.book.suspects, x) ==>
              Item(x, n.context.self, e.now + SUSPECT_TIMEOUT) in Step(n, e).context.book.suspects)
      else if x == p.target && p.phase == IPinged && e.now > p.ipingDeadline then s' == State(s.incarnation, Dead)
      else s' == s
  {
    hide Seek, Gather, Without, Notified, Listed, BookInv;
  }

  /**
   Once its target is settled, the node goes on to the next member after it in the circular list that is
   not on record as DEAD; if there is none it shuts down.
   */
  lemma NextInTurn(n: Node, e: Event)
    requires NodeInv(n) && n.context.active && e.Progress?
    requires n.context.probe.target == ID_INVALID || n.context.probe.phase in {Acked, TargetDead}
    ensures
      var c, c' := n.context, Step(n, e).context;
      if exists i :: 0 <= i < |c.ring| && Suits(c, c.ring[i], {Alive, Suspect, Inactive}) then
        && c'.active && c'.probe.phase == Begin && c'.probe.cursor < |c.ring|
        && c'.probe.target == c.ring[c'.probe.cursor]
        && FirstAfter(c, c.probe.cursor, c'.probe.cursor, {Alive, Suspect, Inactive})
      else !c'.active
  {
    var c := n.context;
    hide BookInv, Apply, Seek, Gather, FirstAfter, Suits, Eligible;
    var d := c.(probe := c.probe.(target := ID_INVALID));
    ChooseIgnores(c, d, c.probe.cursor, false);
    ChooseFindsIff(c, c.probe.cursor, false);
    forall i | 0 <= i < |c.ring|
      ensures Eligible(c, c.ring[i], false) <==> Suits(c, c.ring[i], {Alive, Suspect, Inactive})
    {
      EligibleSuits(c, c.ring[i], false);
    }
    if Choose(c, c.probe.cursor, false).id != ID_INVALID {
      SeekFirst(c, c.probe.cursor, false, c.groupSize + 1);
    }
  }

  // ---- the adaptive ping timeout ----

  /** A ping timeout is one to three times the initial one. */
  predicate TimeoutOk(pingTimeout: nat) {
    pingTimeout == PING_TIMEOUT || pingTimeout == 2 * PING_TIMEOUT || pingTimeout == 3 * PING_TIMEOUT
  }

  /** An accepted update slows pings down by one step if and only if it clears a suspect, up to a whole period. */
  lemma ClearedSlows(b: Book, from: nat, g: Gossip, now: nat)
    requires TimeoutOk(b.pingTimeout) && g.id in b.members
    ensures
      var r := Apply(b, from, g, now);
      && TimeoutOk(r.pingTimeout)
      && (r.pingTimeout == b.pingTimeout + PING_TIMEOUT <==>
            g.state.status == Alive && Accepts(b.members[g.id], g.state) && Listed(b.suspects, g.id)
            && b.pingTimeout < PROTOCOL_PERIOD_LEN)
      && (r.pingTimeout == b.pingTimeout || r.pingTimeout == b.pingTimeout + PING_TIMEOUT)
  {
    hide Without, Suspected, Notified, Listed;
  }

  lemma {:induction false} HearAllTimeout(b: Book, self: nat, from: nat, upds: seq<Gossip>, now: nat)
    requires self in b.members && TimeoutOk(b.pingTimeout)
    ensures TimeoutOk(HearAll(b, self, from, upds, now).pingTimeout)
    decreases |upds|
  {
    hide Apply, TimeoutOk;
    if upds != [] && !KillsSelf(self, upds[0]) {
      var g := upds[0];
      ApplyDomain(b, from, g, now);
      if g.id in b.members {
        ClearedSlows(b, from, g, now);
      }
      assert g.id !in b.members ==> Apply(b, from, g, now) == b by { ApplyUnknown(b, from, g, now); }
      HearAllTimeout(Hear(b, self, from, g, now), self, from, upds[1..], now);
    }
  }

  lemma ApplyUnknown(b: Book, from: nat, g: Gossip, now: nat)
    ensures g.id !in b.members ==> Apply(b, from, g, now) == b
  {
  }

  lemma StepTimeout(n: Node, e: Event)
    requires NodeInv(n) && TimeoutOk(n.context.book.pingTimeout)
    ensures TimeoutOk(Step(n, e).context.book.pingTimeout)
  {
    hide BookInv, HearAll, Expire, Apply, Seek, Gather, Piggyback, Without, TimeoutOk;
    var c := n.context;
    var p, b := c.probe, c.book;
    match e
    case CheckSuspects(now) => ExpirePassed(b, c.self, c.txMax, now, 0, 0);
    case CheckIpings(_) =>
    case Progress(now) =>
      if p.target in b.members {
        ClearedSlows(b, c.self, Gossip(p.target, State(b.members[p.target].incarnation, Suspect)), now);
        ClearedSlows(b, c.self, Gossip(p.target, State(b.members[p.target].incarnation, Dead)), now);
      }
    case Send(_) =>
    case Hears(from, upds, now) => HearAllTimeout(b, c.self, from, upds, now);
    case Forwards(_) =>
    case Fails(_) =>
  }

  /** In every run the ping timeout stays within one and three times its first value. */
  lemma {:induction false} RunTimeout(n: Node, events: seq<Event>)
    requires NodeInv(n) && TimeoutOk(n.context.book.pingTimeout)
    ensures TimeoutOk(Run(n, events).context.book.pingTimeout)
    decreases |events|
  {
    hide NodeInv, Step, TimeoutOk;
    if events != [] {
      RunTimeout(n, events[..|events| - 1]);
      RunKeeps(n, events[..|events| - 1]);
      StepTimeout(Run(n, events[..|events| - 1]), events[|events| - 1]);
    }
  }

  // ---- the helpers that are asked ----

  /** One request to each of these helpers to ping x. */
  function Requests(x: nat, ids: seq<nat>): seq<Call> {
    if ids == [] then [] else [Call(x, ids[0])] + Requests(x, ids[1..])
  }

  /** What the progress loop does after a timeout: one request, or on to the next target if there is nobody to ask. */
  lemma TimeoutAsks(n: Node, e: Event) returns (ids: seq<nat>)
    requires NodeInv(n) && n.context.active && e.Progress? && n.context.probe.phase == TimedOut
    requires n.context.probe.target != ID_INVALID
    ensures
      var p, q := n.context.probe, Step(n, e).context.probe;
      && (if p.subgroup != [] then ids == p.subgroup
          else if HasHelper(n.context) then |ids| == SUBGROUP_SIZE && NextAlive(n.context, p.cursor, ids, q.cursor)
          else ids == [])
      && (ids == [] ==> Step(n, e).calls == n.calls && (Step(n, e).context.active ==> q.phase == Begin))
      && (ids != [] ==>
            && Step(n, e).calls == n.calls + [Call(p.target, ids[0])]
            && q.target == p.target && q.subgroup == ids[1..] && (p.subgroup != [] ==> q.cursor == p.cursor)
            && q.phase == (if |ids| == 1 then IPinged else TimedOut))
  {
    hide BookInv, Apply, Seek, Gather, HasHelper, NextAlive;
    var c := n.context;
    ids := if c.probe.subgroup != [] then c.probe.subgroup else Gather(c, c.probe.cursor, SUBGROUP_SIZE).ids;
    GatherExact(c, c.probe.cursor, SUBGROUP_SIZE);
    assert n.calls + [] == n.calls;
  }

  /** The calls that the progress loop has added after the first lo events. */
  ghost function AskedAfter(n: Node, events: seq<Event>, lo: nat): seq<Call> {
    if |events| <= lo then []
    else
      var init := events[..|events| - 1];
      AskedAfter(n, init, lo) + if events[|events| - 1].Progress? then Added(Run(n, init), Run(n, events)) else []
  }

  function Added(n: Node, m: Node): seq<Call> {
    if n.calls <= m.calls then m.calls[|n.calls|..] else []
  }

  /** At event g these were the next members on record as ALIVE, a whole subgroup of them. */
  ghost predicate GatheredAt(n: Node, events: seq<Event>, g: nat, ids: seq<nat>) {
    && g < |events| && events[g].Progress? && |ids| == SUBGROUP_SIZE
    && NextAlive(At(n, events, g), At(n, events, g).probe.cursor, ids, At(n, events, g + 1).probe.cursor)
  }

  /** Since event a nobody has been asked, or some of a subgroup that was gathered since; the others are still to be. */
  ghost predicate Asking(n: Node, events: seq<Event>, a: nat, x: nat) {
    var left := At(n, events, |events|).probe.subgroup;
    if left == [] then AskedAfter(n, events, a + 1) == []
    else exists g: nat, ids: seq<nat> :: AskingSince(n, events, a, x, g, ids)
  }

  ghost predicate AskingSince(n: Node, events: seq<Event>, a: nat, x: nat, g: nat, ids: seq<nat>) {
    var left := At(n, events, |events|).probe.subgroup;
    a < g && GatheredAt(n, events, g, ids) && AskedAfter(n, events, a + 1) + Requests(x, left) == Requests(x, ids)
  }

  lemma GatheredPrefix(n: Node, events: seq<Event>, g: nat, ids: seq<nat>)
    requires events != [] && GatheredAt(n, events[..|events| - 1], g, ids)
    ensures GatheredAt(n, events, g, ids)
  {
    hide Run, NextAlive;
    assert events[..|events| - 1][..g] == events[..g] && events[..|events| - 1][..g + 1] == events[..g + 1];
  }

  /** One more event after which the ping is still timed out, or waits for the helpers. */
  lemma AskingOn(n: Node, events: seq<Event>, a: nat, x: nat) returns (g: nat, ids: seq<nat>)
    requires TimerInv(n) && a + 1 < |events| && Asking(n, events[..|events| - 1], a, x)
    requires events[|events| - 1].Progress? && At(n, events, |events|).active
    requires InPhase(n, events[..|events| - 1], |events| - 1, TimedOut, x) && x != ID_INVALID
    requires At(n, events, |events|).probe.phase in {TimedOut, IPinged}
    ensures AskingSince(n, events, a, x, g, ids)
    ensures At(n, events, |events|).probe.phase == IPinged <==> At(n, events, |events|).probe.subgroup == []
  {
    hide NodeInv, Step, NextAlive, HasHelper;
    var init, e := events[..|events| - 1], events[|events| - 1];
    assert events[..|events|] == events && init[..|init|] == init;
    RunTimers(n, init);
    var before := Run(n, init);
    StillActive(before, e);
    var now := TimeoutAsks(before, e);
    assert Added(before, Run(n, events)) == [Call(x, now[0])];
    var left := before.context.probe.subgroup;
    if left == [] {
      g, ids := |init|, now;
      assert AskedAfter(n, init, a + 1) == [];
      assert AskedAfter(n, events, a + 1) == [Call(x, now[0])];
    } else {
      g, ids :| AskingSince(n, init, a, x, g, ids);
      GatheredPrefix(n, events, g, ids);
      var asked := AskedAfter(n, init, a + 1);
      assert AskedAfter(n, events, a + 1) == asked + [Call(x, left[0])];
      assert asked + ([Call(x, left[0])] + Requests(x, left[1..]))
          == (asked + [Call(x, left[0])]) + Requests(x, left[1..]);
    }
  }

  lemma StillActive(n: Node, e: Event)
    requires NodeInv(n) && Step(n, e).context.active
    ensures n.context.active
  {
    hide BookInv, HearAll, Expire, Tick, Piggyback, Without;
  }

  /** Other events ask nobody. */
  lemma AskingKept(n: Node, events: seq<Event>, a: nat, x: nat)
    requires TimerInv(n) && a + 1 < |events| && Asking(n, events[..|events| - 1], a, x)
    requires !events[|events| - 1].Progress?
    requires At(n, events, |events|).probe == At(n, events[..|events| - 1], |events| - 1).probe
    ensures Asking(n, events, a, x)
  {
    hide NodeInv, Run, NextAlive;
    var init := events[..|events| - 1];
    assert AskedAfter(n, events, a + 1) == AskedAfter(n, init, a + 1);
    if At(n, init, |init|).probe.subgroup != [] {
      var g: nat, ids: seq<nat> :| AskingSince(n, init, a, x, g, ids);
      GatheredPrefix(n, events, g, ids);
      assert AskingSince(n, events, a, x, g, ids);
    }
  }

  lemma TimedOutEarlier(n: Node, events: seq<Event>, j: nat, a: nat, x: nat)
    requires TimedOutSince(n, events, j, a, x) && a + 1 < |events|
    ensures TimedOutSince(n, events[..|events| - 1], j, a, x)
  {
    hide Run, Answers;
    var init := events[..|events| - 1];
    assert init[..j] == events[..j] && init[..j + 1] == events[..j + 1];
    forall i: nat | j < i <= a ensures InPhase(n, init, i, DPinged, x) {
      assert init[..i] == events[..i];
      assert InPhase(n, events, i, DPinged, x);
    }
    forall i: nat | a < i <= |init| ensures InPhase(n, init, i, TimedOut, x) {
      assert init[..i] == events[..i];
      assert InPhase(n, events, i, TimedOut, x);
    }
  }

  lemma NobodyAskedYet(n: Node, events: seq<Event>, x: nat)
    requires TimerInv(n) && events != [] && At(n, events, |events|).active
    requires InPhase(n, events[..|events| - 1], |events| - 1, DPinged, x) && InPhase(n, events, |events|, TimedOut, x)
    ensures Asking(n, events, |events| - 1, x)
  {
    hide NodeInv, Step;
    var init, e := events[..|events| - 1], events[|events| - 1];
    assert events[..|events|] == events && init[..|init|] == init;
    RunTimers(n, init);
    TimeoutLeavesSubgroup(Run(n, init), e);
  }

  lemma TimeoutLeavesSubgroup(n: Node, e: Event)
    requires NodeInv(n) && Step(n, e).context.active
    requires n.context.probe.phase == DPinged && Step(n, e).context.probe.phase == TimedOut
    ensures Step(n, e).context.probe.subgroup == []
  {
    hide BookInv, HearAll, Expire, Apply, Seek, Gather, Piggyback, Without;
  }

  lemma {:induction false} TimedOutAsking(n: Node, events: seq<Event>, j: nat, a: nat, x: nat)
    requires TimerInv(n) && TimedOutSince(n, events, j, a, x) && At(n, events, |events|).active && x != ID_INVALID
    ensures Asking(n, events, a, x)
    decreases |events|
  {
    hide NodeInv, Run, Answers, Asking, Moves;
    var init, e := events[..|events| - 1], events[|events| - 1];
    assert InPhase(n, events, |events|, TimedOut, x);
    if |events| == a + 1 {
      assert init[..|init|] == events[..|init|];
      assert InPhase(n, events, a, DPinged, x);
      NobodyAskedYet(n, events, x);
    } else {
      LastMove(n, events);
      TimedOutEarlier(n, events, j, a, x);
      TimedOutAsking(n, init, j, a, x);
      assert InPhase(n, init, |init|, TimedOut, x);
      if e.Progress? {
        var g, ids := AskingOn(n, events, a, x);
        assert Asking(n, events, a, x) by { IsAsking(n, events, a, x, g, ids); }
      } else {
        OnlyProgressMoves(n, events, x);
        AskingKept(n, events, a, x);
      }
    }
  }

  lemma IsAsking(n: Node, events: seq<Event>, a: nat, x: nat, g: nat, ids: seq<nat>)
    requires AskingSince(n, events, a, x, g, ids) && At(n, events, |events|).probe.subgroup != []
    ensures Asking(n, events, a, x)
  {
  }

  lemma OnlyProgressMoves(n: Node, events: seq<Event>, x: nat)
    requires TimerInv(n) && events != [] && At(n, events, |events|).active && !events[|events| - 1].Progress?
    requires InPhase(n, events, |events|, TimedOut, x)
    ensures At(n, events, |events|).probe == At(n, events[..|events| - 1], |events| - 1).probe
  {
    hide NodeInv, Run, Answers;
    LastMove(n, events);
  }

  /** When the ping waits for the helpers, each of a whole subgroup has been asked, in order, and nobody else. */
  lemma HelpersAsked(n: Node, events: seq<Event>, j: nat, a: nat, b: nat, x: nat) returns (g: nat, ids: seq<nat>)
    requires TimerInv(n) && IPingedSince(n, events, j, a, b, x) && At(n, events, |events|).active && x != ID_INVALID
    requires forall i: nat :: i <= |events| ==> At(n, events, i).active
    ensures a < g <= b && GatheredAt(n, events, g, ids) && AskedAfter(n, events[..b + 1], a + 1) == Requests(x, ids)
  {
    hide NodeInv, Run, Answers, Moves;
    var upTo := events[..b + 1];
    assert upTo[..b] == events[..b] && upTo[..b + 1] == upTo && upTo[..|upTo| - 1] == events[..b];
    BeforeHelpers(n, events, j, a, b, x);
    assert InPhase(n, events, b, TimedOut, x) && InPhase(n, events, b + 1, IPinged, x);
    assert At(n, events, b).active && At(n, events, b + 1).active;
    assert events[..b][..b] == events[..b];
    TimedOutAsking(n, events[..b], j, a, x);
    g, ids := AskingOn(n, upTo, a, x);
    assert upTo[..g] == events[..g] && upTo[..g + 1] == events[..g + 1];
    assert AskedAfter(n, upTo, a + 1) + [] == AskedAfter(n, upTo, a + 1);
  }

  lemma BeforeHelpers(n: Node, events: seq<Event>, j: nat, a: nat, b: nat, x: nat)
    requires IPingedSince(n, events, j, a, b, x)
    ensures TimedOutSince(n, events[..b], j, a, x)
  {
    hide Run, Answers;
    var init := events[..b];
    assert init[..j] == events[..j] && init[..j + 1] == events[..j + 1];
    forall i: nat | j < i <= a ensures InPhase(n, init, i, DPinged, x) {
      assert init[..i] == events[..i];
      assert InPhase(n, events, i, DPinged, x);
    }
    forall i: nat | a < i <= b ensures InPhase(n, init, i, TimedOut, x) {
      assert init[..i] == events[..i];
      assert InPhase(n, events, i, TimedOut, x);
    }
  }

  /** A node that is active at the end was active throughout. */
  lemma {:induction false} AlwaysActive(n: Node, events: seq<Event>)
    requires TimerInv(n) && At(n, events, |events|).active
    ensures forall i: nat :: i <= |events| ==> At(n, events, i).active
    decreases |events|
  {
    hide NodeInv, Step;
    assert events[..|events|] == events;
    if events != [] {
      var init := events[..|events| - 1];
      assert init[..|init|] == init;
      RunTimers(n, init);
      StillActive(Run(n, init), events[|events| - 1]);
      AlwaysActive(n, init);
      forall i: nat | i <= |events| ensures At(n, events, i).active {
        if i < |events| {
          assert init[..i] == events[..i];
          assert At(n, init, i).active;
        }
      }
    }
  }

  lemma RunNothing(n: Node)
    ensures At(n, [], 0) == n.context
  {
  }

  lemma TickKills(n: Node, e: Event, x: nat)
    requires NodeInv(n) && e.Progress? && MarkedDead(n.context, Step(n, e).context, x)
    ensures n.context.active && n.context.probe.phase == IPinged && n.context.probe.target == x != ID_INVALID
    ensures e.now > n.context.probe.ipingDeadline
  {
    hide Seek, Gather, Without, Suspected, Notified;
  }

  /** The readings of the clock by the progress loop do not go back. */
  ghost predicate ProgressInOrder(events: seq<Event>) {
    forall i, k :: 0 <= i < k < |events| && events[i].Progress? && events[k].Progress? ==>
      events[i].now <= events[k].now
  }

  /**
   In every run, when the ping state machine marks x dead, it has pinged x directly at event j
   without an answer until the ping timed out, then asked the next two members on record as ALIVE,
   which are one if there is only one, to ping x, in turn and nobody else, without an answer, and let
   more than three ping timeouts pass since event j.
   */
  lemma PingRunsOut(n: Node, events: seq<Event>, x: nat) returns (j: nat, a: nat, b: nat, g: nat, ids: seq<nat>)
    requires TimerInv(n) && n.context.probe.phase == Begin && ProgressInOrder(events)
    requires events != [] && events[|events| - 1].Progress?
    requires MarkedDead(At(n, events, |events| - 1), At(n, events, |events|), x)
    ensures j < a < b < |events| - 1 && PingsAt(n, events, j, x)
    ensures Stays(n, events, j, a, DPinged, x)
    ensures Stays(n, events, a, b, TimedOut, x)
    ensures Stays(n, events, b, |events| - 1, IPinged, x)
    ensures a < g <= b && GatheredAt(n, events, g, ids) && AskedAfter(n, events[..b + 1], a + 1) == Requests(x, ids)
    ensures Clock(events[|events| - 1]) > Clock(events[j]) + 3 * PING_TIMEOUT
  {
    hide NodeInv, Step, Answers, AskedAfter, NextAlive;
    var init, e := events[..|events| - 1], events[|events| - 1];
    assert events[..|events|] == events && init[..|init|] == init;
    RunTimers(n, init);
    TickKills(Run(n, init), e, x);
    j, a, b := IPingHasStart(n, init);
    AlwaysActive(n, init);
    g, ids := HelpersAsked(n, init, j, a, b, x);
    GatheredPrefix(n, events, g, ids);
    assert init[..b + 1] == events[..b + 1];
    PingsAtPrefix(n, events, j, x);
    StaysPrefix(n, events, j, a, DPinged, x);
    StaysPrefix(n, events, a, b, TimedOut, x);
    StaysPrefix(n, events, b, |init|, IPinged, x);
    assert events[a] == init[a] && events[b] == init[b] && events[j] == init[j];
  }

  // ---- the protocol period ----

  /** Event k starts a direct ping. */
  ghost predicate Pings(n: Node, events: seq<Event>, k: nat)
    requires k < |events|
  {
    events[k].Progress? && At(n, events, k).probe.phase == Begin && At(n, events, k + 1).probe.phase == DPinged
  }

  lemma StepTick(n: Node, e: Event)
    requires NodeInv(n)
    ensures Step(n, e).context.probe.nextTick >= n.context.probe.nextTick
    ensures e.Progress? && n.context.probe.phase == Begin && Step(n, e).context.probe.phase == DPinged ==>
              e.now > n.context.probe.nextTick && Step(n, e).context.probe.nextTick == e.now + PROTOCOL_PERIOD_LEN
  {
    hide BookInv, HearAll, Expire, Apply, Seek, Gather, Piggyback, Without;
  }

  lemma {:induction false} TickHolds(n: Node, events: seq<Event>, i: nat)
    requires TimerInv(n) && i < |events| && Pings(n, events, i)
    ensures At(n, events, |events|).probe.nextTick >= events[i].now + PROTOCOL_PERIOD_LEN
    decreases |events|
  {
    hide NodeInv, Step;
    var init, e := events[..|events| - 1], events[|events| - 1];
    assert events[..|events|] == events && init[..|init|] == init;
    RunTimers(n, init);
    StepTick(Run(n, init), e);
    if i < |events| - 1 {
      assert init[..i] == events[..i] && init[..i + 1] == events[..i + 1];
      TickHolds(n, init, i);
    }
  }

  /** In every run, two direct pings are more than a protocol period apart. */
  lemma PingsSpaced(n: Node, events: seq<Event>, i: nat)
    requires TimerInv(n) && i < |events| - 1 && Pings(n, events, i) && Pings(n, events, |events| - 1)
    ensures events[|events| - 1].now > events[i].now + PROTOCOL_PERIOD_LEN
  {
    hide NodeInv, Step;
    var init := events[..|events| - 1];
    assert events[..|events|] == events && init[..|init|] == init;
    assert init[..i] == events[..i] && init[..i + 1] == events[..i + 1];
    RunTimers(n, init);
    TickHolds(n, init, i);
    StepTick(Run(n, init), events[|events| - 1]);
  }

  /** The invariant these results start from holds of a new node. */
  lemma StartTimers(rank: nat, ranks: seq<nat>, first: nat)
    requires rank in ranks && ID_INVALID !in ranks && first < |ranks|
    ensures
      var n := Start(rank, ranks, first);
      TimerInv(n) && n.context.book.suspects == [] && n.context.probe.phase == Begin
  {
    StartInv(rank, ranks, first);
  }
}
