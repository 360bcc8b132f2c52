/**
 The hybrid logical clock of src/cart/crt_hlc.c.

 Every process owns one 64-bit clock.  Threads advance it in compare-and-swap
 loops; stamps of crt_hlc_get travel in RPC headers and are handed to
 crt_hlc_get_msg on arrival.  The model is a state machine whose steps are the
 atomic accesses of those loops, so its runs are the interleavings of any number
 of threads on any number of processes.  A step that is not enabled changes
 nothing, hence "every run" is "every sequence of steps".
 */
module Hlc {

  // CRT_HLC_MASK + 1
  const TICK: nat := 0x1_0000
  // One past the largest uint64_t
  const WRAP: nat := 0x1_0000_0000_0000_0000

  /** `x & ~CRT_HLC_MASK` */
  function Coarse(x: nat): nat {
    x / TICK * TICK
  }

  function Inc(x: nat): nat {
    (x + 1) % WRAP
  }

  /** The value one iteration of the loop in crt_hlc_get tries to install. */
  function NextLocal(hlc: nat, pt: nat): nat {
    if Coarse(hlc) < pt then pt else Inc(hlc)
  }

  /** The value one iteration of the loop in crt_hlc_get_msg tries to install. */
  function NextReceive(hlc: nat, msg: nat, pt: nat): nat {
    if Coarse(hlc) < Coarse(msg) then
      if Coarse(msg) < pt then pt else Inc(msg)
    else if Coarse(hlc) < pt then pt
    else if pt <= Coarse(msg) then Inc(if hlc < msg then msg else hlc)
    else Inc(hlc)
  }

  /** Coarse values lie on a grid of step TICK, and x is less than one step above Coarse(x). */
  lemma CoarseSplits(x: nat, y: nat)
    ensures Coarse(x) <= x < Coarse(x) + TICK
    ensures Coarse(x) < Coarse(y) ==> Coarse(x) + TICK <= Coarse(y)
    ensures Coarse(y) < Coarse(x) ==> Coarse(y) + TICK <= Coarse(x)
    ensures x < WRAP ==> Coarse(x) + TICK <= WRAP
    ensures x == WRAP - 1 ==> Coarse(x) == WRAP - TICK
  {
  }

  function Max(a: nat, b: nat): nat {
    if a < b then b else a
  }

  /** Short of the last value, a local stamp is the least that follows both the clock and physical time. */
  lemma NextLocalIsMax(hlc: nat, pt: nat)
    requires hlc < WRAP - 1 && Coarse(pt) == pt
    ensures NextLocal(hlc, pt) == Max(pt, hlc + 1)
  {
    CoarseSplits(hlc, pt);
  }

  /** Likewise, a receive stamp is the least that follows the clock, the message and physical time. */
  lemma NextReceiveIsMax(hlc: nat, msg: nat, pt: nat)
    requires hlc < WRAP - 1 && msg < WRAP - 1 && Coarse(pt) == pt
    ensures NextReceive(hlc, msg, pt) == Max(pt, Max(hlc + 1, msg + 1))
  {
    CoarseSplits(hlc, msg);
    CoarseSplits(hlc, pt);
    CoarseSplits(msg, pt);
  }

  /** A local stamp moves the clock forward exactly when the clock is not at its last value. */
  lemma NextLocalAdvances(hlc: nat, pt: nat)
    requires hlc < WRAP && pt < WRAP && Coarse(pt) == pt
    ensures NextLocal(hlc, pt) > hlc <==> hlc != WRAP - 1
  {
  }

  /** A receive stamp passes both the clock and the message exactly when neither is at the last value. */
  lemma NextReceiveAdvances(hlc: nat, msg: nat, pt: nat)
    requires hlc < WRAP && msg < WRAP && pt < WRAP && Coarse(pt) == pt
    ensures (NextReceive(hlc, msg, pt) > hlc && NextReceive(hlc, msg, pt) > msg)
       <==> (hlc != WRAP - 1 && msg != WRAP - 1)
  {
    CoarseSplits(hlc, msg);
    CoarseSplits(hlc, pt);
    CoarseSplits(msg, pt);
  }

  // ----- The system -----

  /** What a thread was asked for: a stamp, or a stamp after the message with that event number. */
  datatype Op = Get | Receive(sender: nat)

  /** A thread inside crt_hlc_get or crt_hlc_get_msg: time read, then clock read. */
  datatype Thread = Idle | Timed(op: Op, pt: nat) | Loaded(op: Op, pt: nat, seen: nat)

  /** A successful compare-and-swap. */
  datatype Event = Event(node: nat, op: Op, stamp: nat)

  /** `host[t]` is the process of thread t; `reading` is the largest physical time read so far. */
  datatype System = System(clock: seq<nat>, host: seq<nat>, thread: seq<Thread>,
                           events: seq<Event>, reading: nat)

  datatype PhysicalTime = Failed | Read(time: nat)

  datatype Step =
    | Begin(t: nat, op: Op, now: PhysicalTime)
    | Load(t: nat)
    | CompareAndSwap(t: nat)

  ghost predicate WellFormed(s: System) {
    && |s.thread| == |s.host|
    && (forall t :: 0 <= t < |s.host| ==> s.host[t] < |s.clock|)
  }

  function Init(nodes: nat, host: seq<nat>): System {
    System(seq(nodes, _ => 0), host, seq(|host|, _ => Idle), [], 0)
  }

  predicate Enabled(s: System, a: Step) {
    && a.t < |s.thread| && a.t < |s.host| && s.host[a.t] < |s.clock|
    && match a {
         case Begin(t, op, now) =>
           && s.thread[t].Idle?
           // a message is the stamp of some earlier crt_hlc_get; it may arrive late, often or never
           && (op.Receive? ==> op.sender < |s.events| && s.events[op.sender].op.Get?)
           && (now.Read? ==> now.time < WRAP)
         case Load(t) => s.thread[t].Timed?
         case CompareAndSwap(t) => s.thread[t].Loaded? && WellSent(s, s.thread[t].op)
       }
  }

  predicate WellSent(s: System, op: Op) {
    op.Receive? ==> op.sender < |s.events|
  }

  function Next(s: System, th: Thread): nat
    requires th.Loaded? && WellSent(s, th.op)
  {
    match th.op
    case Get => NextLocal(th.seen, th.pt)
    case Receive(m) => NextReceive(th.seen, s.events[m].stamp, th.pt)
  }

  function Do(s: System, a: Step): (s': System)
    ensures s'.host == s.host && |s'.clock| == |s.clock| && |s'.thread| == |s.thread|
    ensures s.reading <= s'.reading && s.events <= s'.events
  {
    if !Enabled(s, a) then s else
    var n := s.host[a.t];
    match a
    case Begin(t, op, now) =>
      // crt_hlc_localtime_get falls back to the clock itself when the time call fails
      var pt := Coarse(if now.Read? then now.time else s.clock[n]);
      s.(thread := s.thread[t := Timed(op, pt)],
         reading := if now.Read? && now.time > s.reading then now.time else s.reading)
    case Load(t) =>
      var th := s.thread[t];
      s.(thread := s.thread[t := Loaded(th.op, th.pt, s.clock[n])])
    case CompareAndSwap(t) =>
      var th := s.thread[t];
      if s.clock[n] != th.seen then
        s.(thread := s.thread[t := Timed(th.op, th.pt)])
      else
        var ret := Next(s, th);
        s.(clock := s.clock[n := ret],
           thread := s.thread[t := Idle],
           events := s.events + [Event(n, th.op, ret)])
  }

  function Run(s: System, steps: seq<Step>): System {
    if steps == [] then s else Do(Run(s, steps[..|steps| - 1]), steps[|steps| - 1])
  }

  // ----- Drift -----

  function Bound(s: System): nat {
    s.reading + |s.events|
  }

  ghost predicate ThreadBounded(th: Thread, s: System) {
    match th
    case Idle => true
    case Timed(op, pt) => pt <= Bound(s) && pt < WRAP && Coarse(pt) == pt && WellSent(s, op)
    case Loaded(op, pt, seen) =>
      && pt <= Bound(s) && pt < WRAP && Coarse(pt) == pt && WellSent(s, op)
      && seen < WRAP
  }

  ghost predicate Bounded(s: System) {
    && WellFormed(s)
    && s.reading < WRAP
    && (forall n :: 0 <= n < |s.clock| ==> s.clock[n] <= Bound(s) && s.clock[n] < WRAP)
    && (forall t :: 0 <= t < |s.thread| ==> ThreadBounded(s.thread[t], s))
    && (forall i :: 0 <= i < |s.events| ==> s.events[i].stamp <= Bound(s) && s.events[i].stamp < WRAP)
  }

  lemma CoarseIsCoarse(x: nat)
    ensures Coarse(x) <= x && Coarse(Coarse(x)) == Coarse(x)
  {
  }

  lemma NextBounded(s: System, th: Thread)
    requires Bounded(s) && th.Loaded? && ThreadBounded(th, s) && th.seen <= Bound(s)
    ensures Next(s, th) <= Bound(s) + 1 && Next(s, th) < WRAP
  {
  }

  lemma StepKeepsBounded(s: System, a: Step)
    requires Bounded(s)
    ensures Bounded(Do(s, a))
  {
    if Enabled(s, a) {
      var s', n, th := Do(s, a), s.host[a.t], s.thread[a.t];
      assert ThreadBounded(th, s);
      if a.Begin? {
        CoarseIsCoarse(if a.now.Read? then a.now.time else s.clock[n]);
      } else if a.CompareAndSwap? && s.clock[n] == th.seen {
        NextBounded(s, th);
      }
      forall t | 0 <= t < |s'.thread|
        ensures ThreadBounded(s'.thread[t], s')
      {
        assert ThreadBounded(s.thread[t], s);
      }
    }
  }

  /**
   The drift bound: in every run, including runs in which the time call fails or the
   64-bit clock wraps, no clock and no stamp exceeds the largest physical reading taken
   anywhere plus the number of clock events so far.
   */
  lemma {:induction false} DriftBound(nodes: nat, host: seq<nat>, steps: seq<Step>)
    requires forall t :: 0 <= t < |host| ==> host[t] < nodes
    ensures Bounded(Run(Init(nodes, host), steps))
  {
    if steps != [] {
      DriftBound(nodes, host, steps[..|steps| - 1]);
      StepKeepsBounded(Run(Init(nodes, host), steps[..|steps| - 1]), steps[|steps| - 1]);
    }
  }

  // ----- Physical time -----

  /** Step j began the call that thread t is in: at j it read the time pt, and it has not returned since. */
  ghost predicate BeganAt(s0: System, steps: seq<Step>, j: nat, t: nat, op: Op, pt: nat) {
    && j < |steps| && steps[j].Begin? && steps[j].t == t && steps[j].op == op
    && Enabled(Run(s0, steps[..j]), steps[j])
    && pt == Coarse(TimeRead(Run(s0, steps[..j]), t, steps[j].now))
    && forall i: nat :: j < i <= |steps| ==> InCall(Run(s0, steps[..i]), t)
  }

  /** What crt_hlc_localtime_get goes by: the time of day, or the process's own clock if that call fails. */
  function TimeRead(s: System, t: nat, now: PhysicalTime): nat
    requires t < |s.host| && s.host[t] < |s.clock|
  {
    if now.Read? then now.time else s.clock[s.host[t]]
  }

  predicate InCall(s: System, t: nat) {
    t < |s.thread| && !s.thread[t].Idle?
  }

  lemma BeganEarlier(s0: System, steps: seq<Step>, j: nat, t: nat, op: Op, pt: nat)
    requires steps != [] && BeganAt(s0, steps[..|steps| - 1], j, t, op, pt) && InCall(Run(s0, steps), t)
    ensures BeganAt(s0, steps, j, t, op, pt)
  {
    hide Run, Enabled;
    var init := steps[..|steps| - 1];
    assert init[..j] == steps[..j] && steps[..|steps|] == steps;
    forall i: nat | j < i <= |steps| ensures InCall(Run(s0, steps[..i]), t) {
      if i < |steps| {
        assert init[..i] == steps[..i];
        assert InCall(Run(s0, init[..i]), t);
      }
    }
  }

  /** What a step can do to a thread in a call. */
  lemma StepInCall(s: System, a: Step, t: nat)
    requires InCall(Do(s, a), t)
    ensures
      var th, th' := s.thread[t], Do(s, a).thread[t];
      if a.Begin? && a.t == t && Enabled(s, a) then
        t < |s.host| && s.host[t] < |s.clock| && th' == Timed(a.op, Coarse(TimeRead(s, t, a.now)))
      else InCall(s, t) && th'.op == th.op && th'.pt == th.pt
  {
  }

  lemma {:induction false} CallHasBegun(s0: System, steps: seq<Step>, t: nat) returns (j: nat)
    requires (forall u :: 0 <= u < |s0.thread| ==> s0.thread[u] == Idle) && InCall(Run(s0, steps), t)
    ensures BeganAt(s0, steps, j, t, Run(s0, steps).thread[t].op, Run(s0, steps).thread[t].pt)
    decreases |steps|
  {
    hide Do, Enabled;
    var init, a := steps[..|steps| - 1], steps[|steps| - 1];
    StepInCall(Run(s0, init), a, t);
    if a.Begin? && a.t == t && Enabled(Run(s0, init), a) {
      j := |steps| - 1;
      assert steps[..|steps|] == steps;
    } else {
      j := CallHasBegun(s0, init, t);
      BeganEarlier(s0, steps, j, t, Run(s0, steps).thread[t].op, Run(s0, steps).thread[t].pt);
    }
  }

  /** The message a call was given, as a lower bound of its stamp. */
  function After(ev: seq<Event>, op: Op): nat {
    if op.Receive? && op.sender < |ev| then ev[op.sender].stamp + 1 else 0
  }

  /**
   In every interleaving without 64-bit wrap, a stamp that a call returns is the least value that
   is not below the time the call read, up to the clock's resolution, and that follows the clock of
   its process and the message it was given.
   */
  lemma StampFollowsTime(nodes: nat, host: seq<nat>, steps: seq<Step>, a: Step) returns (j: nat, pt: nat)
    requires forall t :: 0 <= t < |host| ==> host[t] < nodes
    requires
      var s := Run(Init(nodes, host), steps);
      Bound(Do(s, a)) < WRAP && |Do(s, a).events| > |s.events|
    ensures
      var s, s0 := Run(Init(nodes, host), steps), Init(nodes, host);
      && |Do(s, a).events| == |s.events| + 1 && a.t < |host|
      && var e := Do(s, a).events[|s.events|];
      && BeganAt(s0, steps, j, a.t, e.op, pt) && e.node == host[a.t] < |s.clock|
      && e.stamp == Max(pt, Max(s.clock[e.node] + 1, After(s.events, e.op)))
  {
    var s0, s := Init(nodes, host), Run(Init(nodes, host), steps);
    DriftBound(nodes, host, steps);
    SameHosts(s0, steps);
    var th := s.thread[a.t];
    pt := th.pt;
    j := CallHasBegun(s0, steps, a.t);
    hide Run;
    assert ThreadBounded(th, s);
    NextIsMax(s, th);
  }

  lemma NextIsMax(s: System, th: Thread)
    requires Bounded(s) && th.Loaded? && ThreadBounded(th, s) && th.seen < WRAP - 1 && Bound(s) < WRAP - 1
    ensures Next(s, th) == Max(th.pt, Max(th.seen + 1, After(s.events, th.op)))
  {
    hide Coarse;
    NextLocalIsMax(th.seen, th.pt);
    if th.op.Receive? {
      NextReceiveIsMax(th.seen, s.events[th.op.sender].stamp, th.pt);
    }
  }

  lemma {:induction false} SameHosts(s0: System, steps: seq<Step>)
    ensures Run(s0, steps).host == s0.host && |Run(s0, steps).clock| == |s0.clock|
    decreases |steps|
  {
    if steps != [] {
      SameHosts(s0, steps[..|steps| - 1]);
    }
  }

  // ----- Causality -----

  /** b follows a directly: same process, or b is the receipt of a's stamp. */
  ghost predicate Direct(ev: seq<Event>, a: nat, b: nat) {
    a < b < |ev| && (ev[a].node == ev[b].node || ev[b].op == Receive(a))
  }

  ghost predicate HappensBefore(ev: seq<Event>, a: nat, b: nat)
    decreases b
  {
    Direct(ev, a, b) || exists c :: a < c < b && HappensBefore(ev, a, c) && Direct(ev, c, b)
  }

  ghost predicate Ordered(s: System) {
    && (forall i :: 0 <= i < |s.events| ==>
          s.events[i].node < |s.clock| && s.events[i].stamp <= s.clock[s.events[i].node])
    && (forall a: nat, b: nat :: Direct(s.events, a, b) ==> s.events[a].stamp < s.events[b].stamp)
  }

  lemma StepKeepsOrdered(s: System, a: Step)
    requires Bounded(s) && Ordered(s)
    requires Bound(Do(s, a)) < WRAP
    ensures Ordered(Do(s, a))
  {
    var s' := Do(s, a);
    if Enabled(s, a) && a.CompareAndSwap? && s.clock[s.host[a.t]] == s.thread[a.t].seen {
      var th := s.thread[a.t];
      var n := s.host[a.t];
      assert ThreadBounded(th, s);
      assert s.clock[n] <= Bound(s) < WRAP - 1;
      NextLocalAdvances(th.seen, th.pt);
      if th.op.Receive? {
        NextReceiveAdvances(th.seen, s.events[th.op.sender].stamp, th.pt);
      }
      assert Next(s, th) > s.clock[n];
      forall i: nat, j: nat | Direct(s'.events, i, j)
        ensures s'.events[i].stamp < s'.events[j].stamp
      {
        if j < |s.events| {
          assert Direct(s.events, i, j);
        }
      }
    }
  }

  lemma {:induction false} RunOrdered(nodes: nat, host: seq<nat>, steps: seq<Step>)
    requires forall t :: 0 <= t < |host| ==> host[t] < nodes
    requires Bound(Run(Init(nodes, host), steps)) < WRAP
    ensures Ordered(Run(Init(nodes, host), steps))
  {
    if steps != [] {
      DriftBound(nodes, host, steps[..|steps| - 1]);
      RunOrdered(nodes, host, steps[..|steps| - 1]);
      StepKeepsOrdered(Run(Init(nodes, host), steps[..|steps| - 1]), steps[|steps| - 1]);
    }
  }

  lemma {:induction false} PathOrdered(s: System, a: nat, b: nat)
    requires Ordered(s)
    requires HappensBefore(s.events, a, b)
    ensures a < b < |s.events| && s.events[a].stamp < s.events[b].stamp
    decreases b
  {
    if !Direct(s.events, a, b) {
      var c :| a < c < b && HappensBefore(s.events, a, c) && Direct(s.events, c, b);
      PathOrdered(s, a, c);
    }
  }

  /**
   Causality: in every interleaving of threads and processes whose largest physical reading
   plus number of clock events fits 64 bits, an event that happens before another, on one
   process or across any chain of messages, has the smaller stamp.
   */
  lemma Causality(nodes: nat, host: seq<nat>, steps: seq<Step>, a: nat, b: nat)
    requires forall t :: 0 <= t < |host| ==> host[t] < nodes
    requires Bound(Run(Init(nodes, host), steps)) < WRAP
    requires HappensBefore(Run(Init(nodes, host), steps).events, a, b)
    ensures
      var ev := Run(Init(nodes, host), steps).events;
      a < b < |ev| && ev[a].stamp < ev[b].stamp
  {
    RunOrdered(nodes, host, steps);
    PathOrdered(Run(Init(nodes, host), steps), a, b);
  }

  /** Stamps handed out on one process are pairwise distinct, in compare-and-swap order. */
  lemma StampsDistinct(nodes: nat, host: seq<nat>, steps: seq<Step>, a: nat, b: nat)
    requires forall t :: 0 <= t < |host| ==> host[t] < nodes
    requires Bound(Run(Init(nodes, host), steps)) < WRAP
    requires
      var ev := Run(Init(nodes, host), steps).events;
      a < |ev| && b < |ev| && a != b && ev[a].node == ev[b].node
    ensures
      var ev := Run(Init(nodes, host), steps).events;
      ev[a].stamp != ev[b].stamp && (ev[a].stamp < ev[b].stamp <==> a < b)
  {
    var ev := Run(Init(nodes, host), steps).events;
    assert Direct(ev, a, b) || Direct(ev, b, a);
    RunOrdered(nodes, host, steps);
  }
}
