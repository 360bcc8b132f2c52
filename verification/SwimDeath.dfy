/**
 Where death comes from in a SWIM cluster: gossip never invents it, and as long as no acknowledged
 message to a member fails, its death starts with a timer that has run its full time at some node.
 */
module SwimDeath {
  import opened SwimMember
  import opened SwimContext
  import opened SwimNode
  import opened SwimSuspects
  import opened SwimTimers
  import Cluster = SwimCluster

  type World = Cluster.World
  type Step = Cluster.Step

  predicate RecordedDead(c: Context, x: nat) {
    x in c.book.members && c.book.members[x].status == Dead
  }

  predicate DeadIn(upds: seq<Gossip>, x: nat) {
    exists i :: 0 <= i < |upds| && upds[i].id == x && upds[i].state.status == Dead
  }

  /** Somebody believes x dead, or says so in a message. */
  ghost predicate Rumoured(w: World, x: nat) {
    || (exists y: nat :: y < |w.nodes| && RecordedDead(w.nodes[y].context, x))
    || (exists k :: 0 <= k < |w.sent| && DeadIn(w.sent[k].upds, x))
  }

  /** A timer of node y marks x dead in this step. */
  ghost predicate KillsAt(w: World, s: Step, y: nat, x: nat) {
    && s.Local? && s.y == y < |w.nodes| && (s.e.CheckSuspects? || s.e.Progress?)
    && MarkedDead(w.nodes[y].context, SwimNode.Step(w.nodes[y], s.e).context, x)
  }

  /** An acknowledged message to x failed. */
  ghost predicate AckLost(w: World, s: Step, x: nat) {
    AckLostAt(w, s) && w.sent[s.k].to == x
  }

  /** An acknowledged message failed. */
  ghost predicate AckLostAt(w: World, s: Step) {
    && s.AckFailed? && s.k < |w.sent| && w.sent[s.k].from < |w.nodes|
    && w.sent[s.k].upds != [] && w.sent[s.k].upds[0].state.status == Inactive
  }

  ghost predicate Origin(w: World, s: Step, x: nat) {
    AckLost(w, s, x) || exists y :: KillsAt(w, s, y, x)
  }

  // ---- gossip invents nothing ----

  lemma {:induction false} HearAllNoDeath(b: Book, self: nat, from: nat, upds: seq<Gossip>, now: nat, x: nat)
    requires self in b.members && x in b.members && b.members[x].status != Dead && !DeadIn(upds, x)
    ensures HearAll(b, self, from, upds, now).members[x].status != Dead
    decreases |upds|
  {
    hide Without, Suspected, Notified;
    if upds != [] && !KillsSelf(self, upds[0]) {
      assert !DeadIn(upds[1..], x) by {
        assert forall i :: 0 <= i < |upds| - 1 ==> upds[1..][i] == upds[i + 1];
      }
      HearAllNoDeath(Hear(b, self, from, upds[0], now), self, from, upds[1..], now, x);
    }
  }

  lemma HearsNoDeath(n: Node, from: nat, upds: seq<Gossip>, now: nat, x: nat)
    requires WellFormed(n.context) && x in n.context.book.members
    requires !RecordedDead(n.context, x) && !DeadIn(upds, x)
    ensures !RecordedDead(SwimNode.Step(n, Hears(from, upds, now)).context, x)
  {
    HearAllNoDeath(n.context.book, n.context.self, from, upds, now, x);
    hide HearAll, Without;
  }

  /** Only the two timers change records outside of messages. */
  lemma LocalNoDeath(n: Node, e: Event, x: nat)
    requires WellFormed(n.context) && !e.Hears? && !e.CheckSuspects? && !e.Progress? && !e.Fails?
    ensures SwimNode.Step(n, e).context.book.members == n.context.book.members
  {
    hide Piggyback, Pending, Without;
  }

  lemma NodeOfRun(w: World, y: nat)
    requires Cluster.Inv(w) && y < |w.nodes|
    ensures WellFormed(w.nodes[y].context) && w.nodes[y].context.self == y
    ensures forall x: nat :: x in w.nodes[y].context.book.members <==> x < |w.nodes|
  {
    assert Cluster.NodeOk(w, y);
  }

  /** The records a step leaves at node y. */
  lemma StepNoDeath(w: World, s: Step, x: nat, y: nat)
    requires Cluster.Inv(w) && x < |w.nodes| && !Rumoured(w, x) && !Origin(w, s, x) && y < |w.nodes|
    ensures |Cluster.Do(w, s).nodes| == |w.nodes| && !RecordedDead(Cluster.Do(w, s).nodes[y].context, x)
  {
    hide Cluster.Inv, SwimNode.Step, Message;
    NodeOfRun(w, y);
    assert !RecordedDead(w.nodes[y].context, x);
    match s
    case Local(z, e) =>
      if z == y && Cluster.IsLocal(e) {
        if e.CheckSuspects? || e.Progress? {
          assert !KillsAt(w, s, y, x);
        } else {
          LocalNoDeath(w.nodes[y], e, x);
        }
      }
    case Transmit(z, i) =>
      if z == y && i < |w.nodes[y].calls| {
        LocalNoDeath(w.nodes[y], Send(i), x);
      }
    case Deliver(k, now) =>
      if k < |w.sent| && w.sent[k].to == y {
        assert !DeadIn(w.sent[k].upds, x);
        HearsNoDeath(w.nodes[y], w.sent[k].from, w.sent[k].upds, now, x);
      }
    case AckFailed(k) =>
      if AckLostAt(w, s) && w.sent[k].from == y {
        FailureElsewhere(w.nodes[y], w.sent[k].to, x);
      }
  }

  lemma FailureElsewhere(n: Node, id: nat, x: nat)
    requires id != x && !RecordedDead(n.context, x)
    ensures !RecordedDead(SwimNode.Step(n, Fails(id)).context, x)
  {
  }

  /** The messages a step sends. */
  lemma SentNoDeath(w: World, s: Step, x: nat, k: nat)
    requires Cluster.Inv(w) && x < |w.nodes| && !Rumoured(w, x) && k < |Cluster.Do(w, s).sent|
    ensures !DeadIn(Cluster.Do(w, s).sent[k].upds, x)
  {
    if k < |w.sent| {
      assert !DeadIn(w.sent[k].upds, x);
      assert Cluster.Do(w, s).sent[k] == w.sent[k];
    } else {
      var c, call := w.nodes[s.y].context, w.nodes[s.y].calls[s.i];
      NodeOfRun(w, s.y);
      assert !RecordedDead(c, x);
      hide Cluster.Inv, Piggyback;
      var m := Message(c, call);
      forall j | 0 <= j < |m| ensures !(m[j].id == x && m[j].state.status == Dead) {
        var head := Header(c.book.members, call.id, c.self);
        if j >= |head| {
          assert m[j] == PackFor(c, call).upds[j - |head|];
          Cluster.PiggybackRecords(c.book.news, c.book.members, call.id, c.self, c.txMax, PIGGYBACK_ENTRIES,
                                   j - |head|);
        }
      }
    }
  }

  lemma FreshUnrumoured(w: World, x: nat)
    requires Cluster.Fresh(w) && x < |w.nodes|
    ensures !Rumoured(w, x)
  {
    forall y: nat | y < |w.nodes| ensures !RecordedDead(w.nodes[y].context, x) {
      assert Cluster.FreshNode(w.nodes[y], y, |w.nodes|);
    }
  }

  /**
   In every run: if anybody believes x dead, or says so in a message, then some earlier step was
   a timer marking x dead at some node, or the failure of an acknowledged message to x.
   */
  lemma {:induction false} DeathHasOrigin(w: World, steps: seq<Step>, x: nat) returns (k: nat)
    requires Cluster.Fresh(w) && x < |w.nodes| && Rumoured(Cluster.Run(w, steps), x)
    ensures k < |steps| && Origin(Cluster.Run(w, steps[..k]), steps[k], x)
    decreases |steps|
  {
    hide Cluster.Inv, Cluster.Do, Cluster.Fresh, Origin;
    FreshUnrumoured(w, x);
    assert steps != [];
    var init, s := steps[..|steps| - 1], steps[|steps| - 1];
    var before := Cluster.Run(w, init);
    Cluster.RunInv(w, init);
    if Rumoured(before, x) {
      k := DeathHasOrigin(w, init, x);
      assert init[..k] == steps[..k];
    } else {
      k := |steps| - 1;
      if !Origin(before, s, x) {
        forall y: nat | y < |before.nodes|
          ensures |Cluster.Do(before, s).nodes| == |before.nodes|
          ensures !RecordedDead(Cluster.Do(before, s).nodes[y].context, x)
        {
          StepNoDeath(before, s, x, y);
        }
        StepNoDeath(before, s, x, x);
        forall i: nat | i < |Cluster.Do(before, s).sent| ensures !DeadIn(Cluster.Do(before, s).sent[i].upds, x) {
          SentNoDeath(before, s, x, i);
        }
      }
    }
  }

  // ---- the run of one node inside the run of the cluster ----

  /** What a step of the cluster is to node y. */
  ghost function EventOf(w: World, s: Step, y: nat): seq<Event>
    requires y < |w.nodes|
  {
    match s
    case Local(z, e) => if z == y && Cluster.IsLocal(e) then [e] else []
    case Transmit(z, i) => if z == y && i < |w.nodes[y].calls| then [Send(i)] else []
    case Deliver(k, now) =>
      if k < |w.sent| && w.sent[k].to == y then [Hears(w.sent[k].from, w.sent[k].upds, now)] else []
    case AckFailed(k) => if AckLostAt(w, s) && w.sent[k].from == y then [Fails(w.sent[k].to)] else []
  }

  ghost function EventsOf(w: World, steps: seq<Step>, y: nat): seq<Event>
    requires y < |w.nodes|
  {
    if steps == [] then []
    else
      var before := Cluster.Run(w, steps[..|steps| - 1]);
      EventsOf(w, steps[..|steps| - 1], y) + if y < |before.nodes| then EventOf(before, steps[|steps| - 1], y) else []
  }

  lemma RunAppend(n: Node, es: seq<Event>, e: Event)
    ensures SwimNode.Run(n, es + [e]) == SwimNode.Step(SwimNode.Run(n, es), e)
  {
    assert (es + [e])[..|es|] == es;
  }

  lemma DoProjects(w: World, s: Step, y: nat)
    requires y < |w.nodes|
    ensures |Cluster.Do(w, s).nodes| == |w.nodes|
    ensures Cluster.Do(w, s).nodes[y] ==
            if EventOf(w, s, y) == [] then w.nodes[y] else SwimNode.Step(w.nodes[y], EventOf(w, s, y)[0])
  {
    hide SwimNode.Step, Message;
  }

  /** A node of the cluster runs as a node on its own. */
  lemma {:induction false} RunProjects(w: World, steps: seq<Step>, y: nat)
    requires y < |w.nodes|
    ensures |Cluster.Run(w, steps).nodes| == |w.nodes|
    ensures Cluster.Run(w, steps).nodes[y] == SwimNode.Run(w.nodes[y], EventsOf(w, steps, y))
    decreases |steps|
  {
    hide Cluster.Do, SwimNode.Step, EventOf;
    if steps != [] {
      var init, s := steps[..|steps| - 1], steps[|steps| - 1];
      RunProjects(w, init, y);
      var before, es := Cluster.Run(w, init), EventsOf(w, init, y);
      DoProjects(before, s, y);
      EventAtMostOne(before, s, y);
      if EventOf(before, s, y) == [] {
        assert es + [] == es;
      } else {
        RunAppend(w.nodes[y], es, EventOf(before, s, y)[0]);
      }
    }
  }

  lemma EventAtMostOne(w: World, s: Step, y: nat)
    requires y < |w.nodes|
    ensures EventOf(w, s, y) == [] || EventOf(w, s, y) == [EventOf(w, s, y)[0]]
  {
  }

  /** No acknowledged message to x fails in the run. */
  ghost predicate AllAcked(w: World, steps: seq<Step>, x: nat) {
    forall k :: 0 <= k < |steps| ==> !AckLost(Cluster.Run(w, steps[..k]), steps[k], x)
  }

  lemma {:induction false} NoFailureAt(w: World, steps: seq<Step>, y: nat, x: nat)
    requires y < |w.nodes| && AllAcked(w, steps, x)
    ensures forall k :: 0 <= k < |EventsOf(w, steps, y)| ==> EventsOf(w, steps, y)[k] != Fails(x)
    decreases |steps|
  {
    hide Cluster.Run;
    if steps != [] {
      var init := steps[..|steps| - 1];
      assert AllAcked(w, init, x) by {
        forall k | 0 <= k < |init| ensures !AckLost(Cluster.Run(w, init[..k]), init[k], x) {
          assert init[..k] == steps[..k];
          assert !AckLost(Cluster.Run(w, steps[..k]), steps[k], x);
        }
      }
      NoFailureAt(w, init, y, x);
      assert !AckLost(Cluster.Run(w, steps[..|steps| - 1]), steps[|steps| - 1], x);
    }
  }

  // ---- death takes time ----

  /** x has been SUSPECT at the node without a break for more than three protocol periods. */
  ghost predicate SuspectedLong(n: Node, es: seq<Event>, x: nat) {
    exists j: nat :: SuspectedFrom(n, es, x, j)
  }

  ghost predicate SuspectedFrom(n: Node, es: seq<Event>, x: nat, j: nat) {
    && j < |es| - 1 && (es[j].Hears? || es[j].Progress?)
    && (forall i: nat :: j < i < |es| ==> SuspectAt(n, es, i, x))
    && Clock(es[|es| - 1]) > Clock(es[j]) + SUSPECT_TIMEOUT
  }

  /** The node pinged x directly and through helpers, without an answer, for more than three ping timeouts. */
  ghost predicate PingedLong(n: Node, es: seq<Event>, x: nat) {
    exists j: nat, a: nat, b: nat, g: nat, ids: seq<nat> :: PingedInVain(n, es, x, j, a, b, g, ids)
  }

  ghost predicate PingedInVain(n: Node, es: seq<Event>, x: nat, j: nat, a: nat, b: nat, g: nat, ids: seq<nat>) {
    && j < a < b < |es| - 1 && PingsAt(n, es, j, x)
    && Stays(n, es, j, a, DPinged, x) && Stays(n, es, a, b, TimedOut, x) && Stays(n, es, b, |es| - 1, IPinged, x)
    && a < g <= b && GatheredAt(n, es, g, ids) && AskedAfter(n, es[..b + 1], a + 1) == Requests(x, ids)
    && Clock(es[|es| - 1]) > Clock(es[j]) + 3 * PING_TIMEOUT
  }

  /** Every node is new. */
  ghost predicate New(w: World) {
    && Cluster.Fresh(w)
    && forall y: nat :: y < |w.nodes| ==>
         TimerInv(w.nodes[y]) && w.nodes[y].context.book.suspects == [] && w.nodes[y].context.probe.phase == Begin
  }

  lemma StartIsNew(rings: seq<seq<nat>>, first: seq<nat>, w: World)
    requires |w.nodes| == |rings| == |first| <= ID_INVALID && w.sent == []
    requires forall y: nat :: y < |rings| ==>
               first[y] < |rings[y]| && (forall x: nat :: x in rings[y] <==> x < |rings|)
    requires forall y: nat :: y < |rings| ==> w.nodes[y] == Start(y, rings[y], first[y])
    ensures New(w)
  {
    hide TimerInv, Cluster.FreshNode, Start;
    forall y: nat | y < |rings|
      ensures TimerInv(w.nodes[y]) && w.nodes[y].context.book.suspects == [] && w.nodes[y].context.probe.phase == Begin
      ensures Cluster.FreshNode(w.nodes[y], y, |w.nodes|)
    {
      StartTimers(y, rings[y], first[y]);
      Cluster.InitialIsFresh(y, |rings|, rings[y], first[y]);
    }
  }

  lemma KillTakesTime(n: Node, es: seq<Event>, e: Event, x: nat)
    requires TimerInv(n) && n.context.book.suspects == [] && n.context.probe.phase == Begin
    requires ProgressInOrder(es + [e]) && (e.CheckSuspects? || e.Progress?)
    requires MarkedDead(SwimNode.Run(n, es).context, SwimNode.Run(n, es + [e]).context, x)
    requires forall k :: 0 <= k < |es| ==> es[k] != Fails(x)
    ensures SuspectedLong(n, es + [e], x) || PingedLong(n, es + [e], x)
  {
    hide SwimNode.Run, TimerInv, SuspectedLong, PingedLong, ProgressInOrder;
    var all := es + [e];
    assert all[..|all|] == all && all[..|all| - 1] == es;
    if e.CheckSuspects? {
      SuspicionTakesTime(n, all, x);
    } else {
      PingTakesTime(n, all, x);
    }
  }

  lemma SuspicionTakesTime(n: Node, es: seq<Event>, x: nat)
    requires TimerInv(n) && n.context.book.suspects == []
    requires es != [] && es[|es| - 1].CheckSuspects?
    requires MarkedDead(At(n, es, |es| - 1), At(n, es, |es|), x)
    requires forall k :: 0 <= k < |es| - 1 ==> es[k] != Fails(x)
    ensures SuspectedLong(n, es, x)
  {
    hide SwimNode.Run, TimerInv, SuspectAt, ListedAt;
    var j := SuspicionRunsOut(n, es, x);
    assert NoFailure(es, j, |es| - 1, x);
    assert SuspectedFrom(n, es, x, j);
  }

  lemma PingTakesTime(n: Node, es: seq<Event>, x: nat)
    requires TimerInv(n) && n.context.probe.phase == Begin && ProgressInOrder(es)
    requires es != [] && es[|es| - 1].Progress?
    requires MarkedDead(At(n, es, |es| - 1), At(n, es, |es|), x)
    ensures PingedLong(n, es, x)
  {
    hide SwimNode.Run, TimerInv, Stays, PingsAt, ProgressInOrder, GatheredAt, AskedAfter, Requests;
    var j, a, b, g, ids := PingRunsOut(n, es, x);
    assert PingedInVain(n, es, x, j, a, b, g, ids);
  }

  /**
   In every run of new nodes in which no acknowledged message to x fails: if anybody believes x
   dead, or says so in a message, then some node y, after some prefix of the run, had suspected x
   without a break for more than 3 * 2400 ms, or had pinged it directly and through a subgroup in
   vain for more than 3 * 800 ms.
   */
  lemma DeathTakesTime(w: World, steps: seq<Step>, x: nat) returns (y: nat, k: nat)
    requires New(w) && x < |w.nodes| && AllAcked(w, steps, x) && Rumoured(Cluster.Run(w, steps), x)
    requires forall z: nat :: z < |w.nodes| ==> ProgressInOrder(EventsOf(w, steps, z))
    ensures y < |w.nodes| && k < |steps|
    ensures
      var es := EventsOf(w, steps[..k + 1], y);
      SuspectedLong(w.nodes[y], es, x) || PingedLong(w.nodes[y], es, x)
  {
    hide Cluster.Fresh, Rumoured, TimerInv, SuspectedLong, PingedLong, ProgressInOrder, Cluster.Do;
    k := DeathHasOrigin(w, steps, x);
    var init, s := steps[..k], steps[k];
    var before := Cluster.Run(w, init);
    assert !AckLost(before, s, x);
    y :| KillsAt(before, s, y, x);
    assert AllAcked(w, init, x) by {
      forall i | 0 <= i < |init| ensures !AckLost(Cluster.Run(w, init[..i]), init[i], x) {
        assert init[..i] == steps[..i];
      }
    }
    assert steps[..k + 1][..k] == init && steps[..k + 1][k] == s;
    assert |before.nodes| == |w.nodes| by { Cluster.RunInv(w, init); }
    RunProjects(w, init, y);
    NoFailureAt(w, init, y, x);
    var es := EventsOf(w, init, y);
    assert EventsOf(w, steps[..k + 1], y) == es + [s.e];
    RunAppend(w.nodes[y], es, s.e);
    assert ProgressInOrder(es + [s.e]) by { OrderPrefix(w, steps, k, y); }
    KillTakesTime(w.nodes[y], es, s.e, x);
  }

  lemma {:induction false} EventsPrefix(w: World, steps: seq<Step>, k: nat, y: nat)
    requires y < |w.nodes| && k <= |steps|
    ensures EventsOf(w, steps[..k], y) <= EventsOf(w, steps, y)
    decreases |steps|
  {
    if k == |steps| {
      assert steps[..k] == steps;
    } else {
      var init := steps[..|steps| - 1];
      assert init[..k] == steps[..k];
      EventsPrefix(w, init, k, y);
    }
  }

  lemma OrderPrefix(w: World, steps: seq<Step>, k: nat, y: nat)
    requires y < |w.nodes| && k < |steps| && ProgressInOrder(EventsOf(w, steps, y))
    ensures ProgressInOrder(EventsOf(w, steps[..k + 1], y))
  {
    EventsPrefix(w, steps, k + 1, y);
  }
}
