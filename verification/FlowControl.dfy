/**
 Flow control of requests to one endpoint (crt_context_req_track and crt_context_req_untrack in
 src/cart/crt_context.c): a bounded number of requests in flight, the rest in a wait queue.
 */
module FlowControl {
  import opened RankList

  /**
   struct crt_ep_inflight under its mutex.  credits is cg_credit_ep_ctx, where 0 turns flow
   control off; tracked are the requests with crp_ctx_tracked set.  asked and started record in
   which order requests were tracked and entered the in-flight queue.
   */
  datatype Flow = Flow(credits: nat, reqQ: seq<nat>, waitQ: seq<nat>, reqNum: int, replyNum: int, waitNum: int,
                       tracked: set<nat>, asked: seq<nat>, started: seq<nat>)

  function Idle(credits: nat): Flow {
    Flow(credits, [], [], 0, 0, 0, {}, [], [])
  }

  predicate Full(f: Flow) {
    f.credits != 0 && f.reqNum - f.replyNum >= f.credits
  }

  /** crt_context_req_track; front is the opcode's coi_queue_front. */
  function Track(f: Flow, r: nat, front: bool): Flow {
    if Full(f) then
      f.(waitQ := if front then [r] + f.waitQ else f.waitQ + [r], waitNum := f.waitNum + 1,
         tracked := f.tracked + {r}, asked := f.asked + [r])
    else
      f.(reqQ := f.reqQ + [r], reqNum := f.reqNum + 1, started := f.started + [r],
         tracked := f.tracked + {r}, asked := f.asked + [r])
  }

  function Without(q: seq<nat>, r: nat): seq<nat> {
    if q == [] then [] else if q[0] == r then q[1..] else [q[0]] + Without(q[1..], r)
  }

  /** A finished request leaves; only a completed one counts as replied. */
  function Drop(f: Flow, r: nat, completed: bool): Flow {
    f.(reqQ := Without(f.reqQ, r), tracked := f.tracked - {r},
       replyNum := if completed then f.replyNum + 1 else f.replyNum,
       reqNum := if completed then f.reqNum else f.reqNum - 1)
  }

  /** The oldest waiting request goes in flight. */
  function Advance(f: Flow): Flow
    requires f.waitQ != []
  {
    f.(reqQ := f.reqQ + [f.waitQ[0]], waitQ := f.waitQ[1..], waitNum := f.waitNum - 1, reqNum := f.reqNum + 1,
       started := f.started + [f.waitQ[0]])
  }

  function Promote(f: Flow, n: nat): Flow
    decreases n
  {
    if n == 0 || f.waitQ == [] then f else Promote(Advance(f), n - 1)
  }

  /** The locked part of crt_context_req_untrack. */
  function Untrack(f: Flow, r: nat, completed: bool): Flow {
    if r !in f.tracked then f
    else
      var g := Drop(f, r, completed);
      var free := g.credits - (g.reqNum - g.replyNum);
      if g.credits == 0 || free < 0 then g else Promote(g, free)
  }

  // ---- the invariant ----

  /** Every tracked request is in exactly one place of one queue. */
  ghost predicate Placed(f: Flow) {
    && Distinct(f.reqQ) && Distinct(f.waitQ)
    && (forall r <- f.reqQ :: r !in f.waitQ)
    && (forall r: nat :: r in f.tracked <==> r in f.reqQ || r in f.waitQ)
  }

  /** The counters count, credits bound the requests in flight, and nothing waits while credits are left. */
  predicate Counted(f: Flow) {
    && f.reqNum - f.replyNum == |f.reqQ| && f.waitNum == |f.waitQ|
    && (f.credits == 0 ==> f.waitQ == [])
    && (f.credits != 0 ==> |f.reqQ| <= f.credits)
    && (f.waitQ != [] ==> |f.reqQ| == f.credits)
  }

  ghost predicate Inv(f: Flow) {
    Placed(f) && Counted(f)
  }

  lemma {:induction false} WithoutExact(q: seq<nat>, r: nat)
    requires Distinct(q)
    ensures Distinct(Without(q, r)) && |Without(q, r)| == |q| - if r in q then 1 else 0
    ensures forall x: nat :: x in Without(q, r) <==> x in q && x != r
    decreases |q|
  {
    if q != [] {
      var t := q[1..];
      assert Distinct(t) by {
        forall i, j | 0 <= i < j < |t| ensures t[i] != t[j] {
          assert q[i + 1] != q[j + 1];
        }
      }
      WithoutExact(t, r);
      assert q[0] !in t;
      assert q == [q[0]] + t;
    }
  }

  lemma TrackKeeps(f: Flow, r: nat, front: bool)
    requires Inv(f) && r !in f.tracked
    ensures Inv(Track(f, r, front))
  {
    assert r !in f.reqQ && r !in f.waitQ;
  }

  lemma DropPlaced(f: Flow, r: nat, completed: bool)
    requires Placed(f) && r in f.reqQ
    ensures Placed(Drop(f, r, completed))
    ensures |Drop(f, r, completed).reqQ| == |f.reqQ| - 1
  {
    WithoutExact(f.reqQ, r);
  }

  lemma AdvancePlaced(f: Flow)
    requires Placed(f) && f.waitQ != []
    ensures Placed(Advance(f))
  {
    var h, t := f.waitQ[0], f.waitQ[1..];
    assert f.waitQ == [h] + t;
    assert h !in t && h !in f.reqQ by {
      assert h in f.waitQ;
    }
    assert Distinct(t) by {
      forall i, j | 0 <= i < j < |t| ensures t[i] != t[j] {
        assert f.waitQ[i + 1] != f.waitQ[j + 1];
      }
    }
  }

  lemma PromoteOne(g: Flow)
    ensures Promote(g, 1) == if g.waitQ == [] then g else Advance(g)
  {
    assert g.waitQ != [] ==> Promote(g, 1) == Promote(Advance(g), 0);
  }

  lemma {:induction false} PromoteNone(g: Flow, n: nat)
    requires g.waitQ == []
    ensures Promote(g, n) == g
  {
  }

  /**
   Releasing a request lets exactly one waiting request start, the oldest; none if none waits or
   flow control is off.
   */
  lemma UntrackStartsOne(f: Flow, r: nat, completed: bool)
    requires Inv(f) && r in f.reqQ
    ensures
      var g := Drop(f, r, completed);
      Untrack(f, r, completed) == if f.waitQ == [] then g else Advance(g)
  {
    hide Promote;
    var g := Drop(f, r, completed);
    DropPlaced(f, r, completed);
    assert r in f.tracked;
    if f.waitQ == [] {
      PromoteNone(g, if g.credits - (g.reqNum - g.replyNum) < 0 then 0 else g.credits - (g.reqNum - g.replyNum));
    } else {
      PromoteOne(g);
    }
  }

  lemma UntrackKeeps(f: Flow, r: nat, completed: bool)
    requires Inv(f) && r !in f.waitQ
    ensures Inv(Untrack(f, r, completed))
    ensures Untrack(f, r, completed).tracked == f.tracked - {r}
  {
    if r in f.tracked {
      UntrackStartsOne(f, r, completed);
      DropPlaced(f, r, completed);
      if f.waitQ != [] {
        AdvancePlaced(Drop(f, r, completed));
      }
      hide Untrack, Placed;
      assert f.waitQ != [] ==> f.credits != 0;
    }
  }

  // ---- runs ----

  /** Locked sections of any threads.  A request is untracked only when it is not queued, as the source asserts. */
  datatype Step = DoTrack(r: nat) | DoUntrack(r: nat, completed: bool)

  /** fronts are the requests whose opcode queues at the front. */
  function Do(f: Flow, s: Step, fronts: set<nat>): Flow {
    match s
    case DoTrack(r) => if r in f.tracked then f else Track(f, r, r in fronts)
    case DoUntrack(r, completed) => if r in f.waitQ then f else Untrack(f, r, completed)
  }

  function Run(credits: nat, steps: seq<Step>, fronts: set<nat>): Flow {
    if steps == [] then Idle(credits) else Do(Run(credits, steps[..|steps| - 1], fronts), steps[|steps| - 1], fronts)
  }

  /** The requests of a sequence that wait their turn. */
  function Plain(q: seq<nat>, fronts: set<nat>): seq<nat> {
    if q == [] then [] else (if q[0] in fronts then [] else [q[0]]) + Plain(q[1..], fronts)
  }

  lemma {:induction false} PlainAppend(p: seq<nat>, q: seq<nat>, fronts: set<nat>)
    ensures Plain(p + q, fronts) == Plain(p, fronts) + Plain(q, fronts)
    decreases |p|
  {
    if p == [] {
      assert p + q == q;
    } else {
      assert (p + q)[1..] == p[1..] + q;
      PlainAppend(p[1..], q, fronts);
    }
  }

  lemma PlainOne(r: nat, fronts: set<nat>)
    ensures Plain([r], fronts) == if r in fronts then [] else [r]
  {
    assert [r][1..] == [];
  }

  /** Requests that do not jump the queue have started, or will, in the order they were tracked. */
  ghost predicate InOrder(f: Flow, fronts: set<nat>) {
    Plain(f.started + f.waitQ, fronts) == Plain(f.asked, fronts)
  }

  /** Every request that was tracked has been started or is waiting, as often as it was tracked. */
  ghost predicate Conserved(f: Flow) {
    multiset(f.started + f.waitQ) == multiset(f.asked)
  }

  lemma TrackInOrder(f: Flow, r: nat, fronts: set<nat>)
    requires Inv(f) && InOrder(f, fronts)
    ensures InOrder(Track(f, r, r in fronts), fronts)
  {
    var g := Track(f, r, r in fronts);
    PlainAppend(f.asked, [r], fronts);
    PlainOne(r, fronts);
    hide Plain;
    if Full(f) && r in fronts {
      PlainAppend(f.started, f.waitQ, fronts);
      PlainAppend(f.started, g.waitQ, fronts);
      PlainAppend([r], f.waitQ, fronts);
      assert [] + Plain(f.waitQ, fronts) == Plain(f.waitQ, fronts);
      assert Plain(f.asked, fronts) + [] == Plain(f.asked, fronts);
    } else {
      assert g.started + g.waitQ == (f.started + f.waitQ) + [r];
      PlainAppend(f.started + f.waitQ, [r], fronts);
    }
  }

  lemma TrackConserves(f: Flow, r: nat, front: bool)
    requires Inv(f) && Conserved(f)
    ensures Conserved(Track(f, r, front))
  {
    var g := Track(f, r, front);
    assert multiset(g.asked) == multiset(f.asked) + multiset{r};
    if Full(f) && front {
      assert g.started + g.waitQ == f.started + [r] + f.waitQ;
    } else {
      assert g.started + g.waitQ == (f.started + f.waitQ) + [r];
    }
  }

  /** Untracking changes neither what was asked nor what has started or will. */
  lemma UntrackOrder(f: Flow, r: nat, completed: bool)
    requires Inv(f) && r !in f.waitQ
    ensures
      var g := Untrack(f, r, completed);
      g.asked == f.asked && g.started + g.waitQ == f.started + f.waitQ
  {
    if r in f.tracked {
      UntrackStartsOne(f, r, completed);
      if f.waitQ != [] {
        var g := Advance(Drop(f, r, completed));
        assert g.started + g.waitQ == f.started + ([f.waitQ[0]] + f.waitQ[1..]);
      }
    }
  }

  /**
   At every unlock of every run: the queues agree with the counters, at most credits requests are
   in flight, a request waits only while all credits are used, no request is lost or doubled, and
   requests that do not jump the queue start in the order they were tracked.
   */
  lemma {:induction false} RunKeeps(credits: nat, steps: seq<Step>, fronts: set<nat>)
    ensures
      var f := Run(credits, steps, fronts);
      Inv(f) && f.credits == credits && InOrder(f, fronts) && Conserved(f)
    decreases |steps|
  {
    hide Inv, Track, Untrack, Plain, InOrder;
    if steps == [] {
      IdleInv(credits, fronts);
    } else {
      var f, s := Run(credits, steps[..|steps| - 1], fronts), steps[|steps| - 1];
      RunKeeps(credits, steps[..|steps| - 1], fronts);
      match s
      case DoTrack(r) =>
        if r !in f.tracked {
          TrackKeeps(f, r, r in fronts);
          TrackInOrder(f, r, fronts);
          TrackConserves(f, r, r in fronts);
          SameCredits(f, r, r in fronts);
        }
      case DoUntrack(r, completed) =>
        if r !in f.waitQ {
          UntrackKeeps(f, r, completed);
          UntrackOrder(f, r, completed);
          UntrackInOrder(f, r, completed, fronts);
          SameCredits(f, r, completed);
        }
    }
  }

  lemma UntrackInOrder(f: Flow, r: nat, completed: bool, fronts: set<nat>)
    requires Inv(f) && r !in f.waitQ && InOrder(f, fronts)
    ensures InOrder(Untrack(f, r, completed), fronts)
  {
    UntrackOrder(f, r, completed);
  }

  lemma SameCredits(f: Flow, r: nat, b: bool)
    requires Inv(f)
    ensures Track(f, r, b).credits == f.credits
    ensures r !in f.waitQ ==> Untrack(f, r, b).credits == f.credits
  {
    if r in f.tracked && r !in f.waitQ {
      UntrackStartsOne(f, r, b);
    }
  }

  lemma IdleInv(credits: nat, fronts: set<nat>)
    ensures Inv(Idle(credits)) && InOrder(Idle(credits), fronts)
  {
  }

  // ---- requests that jump the queue ----

  /** Step k tracks r, which queues at the front, while all credits are used. */
  ghost predicate Jumps(credits: nat, steps: seq<Step>, fronts: set<nat>, k: nat, r: nat) {
    && k < |steps| && steps[k] == DoTrack(r) && r in fronts
    && var f := Run(credits, steps[..k], fronts);
    && r !in f.tracked && credits != 0 && |f.reqQ| == credits
  }

  /** r has been started since the first n starts. */
  predicate StartedSince(started: seq<nat>, n: nat, r: nat) {
    exists q :: n <= q < |started| && started[q] == r
  }

  /** Whenever one of ws was started since, r had been before. */
  ghost predicate StartedAhead(started: seq<nat>, n: nat, r: nat, ws: seq<nat>) {
    forall p :: n <= p < |started| && started[p] in ws ==> StartedSince(started[..p], n, r)
  }

  /** r waits, and none of ws is before it. */
  predicate WaitsAhead(q: seq<nat>, r: nat, ws: seq<nat>) {
    exists i :: 0 <= i < |q| && q[i] == r && forall j :: 0 <= j < i ==> q[j] !in ws
  }

  ghost predicate Ahead(f: Flow, n: nat, r: nat, ws: seq<nat>) {
    && StartedAhead(f.started, n, r, ws)
    && (StartedSince(f.started, n, r) || (WaitsAhead(f.waitQ, r, ws) && forall w <- ws :: w in f.waitQ))
  }

  /** Queueing a request that is not among ws changes nothing. */
  lemma QueueAhead(q: seq<nat>, x: nat, r: nat, ws: seq<nat>, front: bool)
    requires x !in ws && WaitsAhead(q, r, ws)
    ensures WaitsAhead(if front then [x] + q else q + [x], r, ws)
  {
    var i :| 0 <= i < |q| && q[i] == r && forall j :: 0 <= j < i ==> q[j] !in ws;
    var q' := if front then [x] + q else q + [x];
    var k := if front then i + 1 else i;
    assert q'[k] == r && forall j :: 0 <= j < k ==> q'[j] !in ws;
  }

  lemma TakeAhead(q: seq<nat>, r: nat, ws: seq<nat>)
    requires q != [] && q[0] != r && WaitsAhead(q, r, ws)
    ensures q[0] !in ws && WaitsAhead(q[1..], r, ws)
  {
    var i :| 0 <= i < |q| && q[i] == r && forall j :: 0 <= j < i ==> q[j] !in ws;
    assert q[1..][i - 1] == r && forall j :: 0 <= j < i - 1 ==> q[1..][j] == q[j + 1];
  }

  /** One more start, of r, of a request after r, or of one that is not among ws. */
  lemma StartAhead(started: seq<nat>, x: nat, n: nat, r: nat, ws: seq<nat>)
    requires n <= |started| && StartedAhead(started, n, r, ws) && (x !in ws || StartedSince(started, n, r))
    ensures StartedAhead(started + [x], n, r, ws)
    ensures StartedSince(started, n, r) || x == r ==> StartedSince(started + [x], n, r)
  {
    var s := started + [x];
    forall p | n <= p < |s| && s[p] in ws ensures StartedSince(s[..p], n, r) {
      assert s[..p] == started[..p];
      assert started[..|started|] == started;
    }
    if StartedSince(started, n, r) {
      var q :| n <= q < |started| && started[q] == r;
      assert s[q] == r;
    }
    if x == r {
      assert s[|started|] == r;
    }
  }

  lemma TrackAhead(f: Flow, x: nat, front: bool, n: nat, r: nat, ws: seq<nat>)
    requires Inv(f) && x !in f.tracked && n <= |f.started| && Ahead(f, n, r, ws)
    ensures Ahead(Track(f, x, front), n, r, ws)
  {
    if StartedSince(f.started, n, r) {
      StartAhead(f.started, x, n, r, ws);
    } else {
      assert x !in f.waitQ;
      QueueAhead(f.waitQ, x, r, ws, front);
      assert f.waitQ != [];
    }
    hide StartedSince, StartedAhead, WaitsAhead, Placed;
  }

  lemma AdvanceAhead(f: Flow, n: nat, r: nat, ws: seq<nat>)
    requires f.waitQ != [] && n <= |f.started| && Ahead(f, n, r, ws) && r !in ws
    ensures Ahead(Advance(f), n, r, ws)
  {
    hide StartedSince, StartedAhead, WaitsAhead;
    var h := f.waitQ[0];
    assert f.waitQ == [h] + f.waitQ[1..];
    if !StartedSince(f.started, n, r) && h != r {
      TakeAhead(f.waitQ, r, ws);
    }
    StartAhead(f.started, h, n, r, ws);
  }

  lemma DropAhead(f: Flow, x: nat, completed: bool, n: nat, r: nat, ws: seq<nat>)
    requires Ahead(f, n, r, ws)
    ensures Ahead(Drop(f, x, completed), n, r, ws)
  {
    hide Without;
  }

  lemma UntrackAhead(f: Flow, x: nat, completed: bool, n: nat, r: nat, ws: seq<nat>)
    requires Inv(f) && x !in f.waitQ && n <= |f.started| && Ahead(f, n, r, ws) && r !in ws
    ensures Ahead(Untrack(f, x, completed), n, r, ws)
  {
    hide Ahead;
    if x in f.tracked {
      UntrackStartsOne(f, x, completed);
      DropAhead(f, x, completed, n, r, ws);
      DropPlaced(f, x, completed);
      if f.waitQ != [] {
        AdvanceAhead(Drop(f, x, completed), n, r, ws);
      }
    }
  }

  lemma {:induction false} RunAhead(credits: nat, steps: seq<Step>, fronts: set<nat>, k: nat, r: nat)
    requires Jumps(credits, steps, fronts, k, r)
    ensures
      var f := Run(credits, steps[..k], fronts);
      && |f.started| <= |Run(credits, steps, fronts).started| && r !in f.waitQ
      && Ahead(Run(credits, steps, fronts), |f.started|, r, f.waitQ)
    decreases |steps|
  {
    hide Ahead, Inv, Track, Untrack, InOrder;
    var init, s := steps[..|steps| - 1], steps[|steps| - 1];
    var f := Run(credits, steps[..k], fronts);
    RunKeeps(credits, steps[..k], fronts);
    NotWaiting(f, r);
    if k == |steps| - 1 {
      JumpAhead(f, r);
    } else {
      assert init[..k] == steps[..k];
      RunAhead(credits, init, fronts, k, r);
      var g := Run(credits, init, fronts);
      RunKeeps(credits, init, fronts);
      match s
      case DoTrack(x) =>
        if x !in g.tracked {
          TrackAhead(g, x, x in fronts, |f.started|, r, f.waitQ);
          TrackStarts(g, x, x in fronts);
        }
      case DoUntrack(x, completed) =>
        if x !in g.waitQ {
          UntrackAhead(g, x, completed, |f.started|, r, f.waitQ);
          UntrackGrows(g, x, completed);
        }
    }
  }

  lemma NotWaiting(f: Flow, r: nat)
    requires Inv(f) && r !in f.tracked
    ensures r !in f.waitQ
  {
  }

  lemma TrackStarts(f: Flow, x: nat, front: bool)
    ensures f.started <= Track(f, x, front).started
  {
  }

  lemma UntrackGrows(f: Flow, x: nat, completed: bool)
    requires Inv(f) && x !in f.waitQ
    ensures f.started <= Untrack(f, x, completed).started
  {
    if x in f.tracked {
      UntrackStartsOne(f, x, completed);
    }
  }

  lemma JumpAhead(f: Flow, r: nat)
    requires Inv(f) && r !in f.tracked && f.credits != 0 && |f.reqQ| == f.credits
    ensures Track(f, r, true).started == f.started && Ahead(Track(f, r, true), |f.started|, r, f.waitQ)
  {
    assert r !in f.waitQ;
    var g := Track(f, r, true);
    assert g.waitQ[0] == r;
    assert WaitsAhead(g.waitQ, r, f.waitQ);
  }

  /**
   In every run, a request that queues at the front and is tracked while all credits are used starts
   before every request that was waiting at that moment.
   */
  lemma FrontStartsFirst(credits: nat, steps: seq<Step>, fronts: set<nat>, k: nat, r: nat, p: nat)
    requires Jumps(credits, steps, fronts, k, r)
    requires
      var f, g := Run(credits, steps[..k], fronts), Run(credits, steps, fronts);
      |f.started| <= p < |g.started| && g.started[p] in f.waitQ
    ensures
      var f, g := Run(credits, steps[..k], fronts), Run(credits, steps, fronts);
      exists q :: |f.started| <= q < p && g.started[q] == r
  {
    hide Run;
    RunAhead(credits, steps, fronts, k, r);
    var f, g := Run(credits, steps[..k], fronts), Run(credits, steps, fronts);
    assert StartedSince(g.started[..p], |f.started|, r);
    var q :| |f.started| <= q < p && g.started[..p][q] == r;
    assert g.started[q] == r;
  }

  /** No step after k tracks a request that queues at the front. */
  ghost predicate NoneJumpsAfter(credits: nat, steps: seq<Step>, fronts: set<nat>, k: nat) {
    forall i :: k < i < |steps| && steps[i].DoTrack? && steps[i].r in fronts ==>
      steps[i].r in Run(credits, steps[..i], fronts).tracked
  }

  /** As long as nothing starts and nobody else jumps the queue, r stays at its head. */
  lemma {:induction false} HeadStays(credits: nat, steps: seq<Step>, fronts: set<nat>, k: nat, r: nat)
    requires Jumps(credits, steps, fronts, k, r) && NoneJumpsAfter(credits, steps, fronts, k)
    requires Run(credits, steps, fronts).started == Run(credits, steps[..k], fronts).started
    ensures Run(credits, steps, fronts).waitQ != [] && Run(credits, steps, fronts).waitQ[0] == r
    decreases |steps|
  {
    hide Inv, Ahead, InOrder, Conserved, Untrack, Track;
    var init, s := steps[..|steps| - 1], steps[|steps| - 1];
    var f := Run(credits, steps[..k], fronts);
    if k == |steps| - 1 {
      RunKeeps(credits, init, fronts);
      JumpsToHead(f, r);
    } else {
      assert init[..k] == steps[..k];
      forall i | k < i < |init| && init[i].DoTrack? && init[i].r in fronts
        ensures init[i].r in Run(credits, init[..i], fronts).tracked
      {
        assert init[..i] == steps[..i];
      }
      RunAhead(credits, init, fronts, k, r);
      RunKeeps(credits, init, fronts);
      var g := Run(credits, init, fronts);
      StartsNothing(g, s, fronts, f.started, r);
      HeadStays(credits, init, fronts, k, r);
      HeadKept(g, s, fronts);
    }
  }

  lemma JumpsToHead(f: Flow, r: nat)
    requires Inv(f) && f.credits != 0 && |f.reqQ| == f.credits
    ensures Track(f, r, true).waitQ != [] && Track(f, r, true).waitQ[0] == r
  {
  }

  lemma StartsNothing(g: Flow, s: Step, fronts: set<nat>, started: seq<nat>, r: nat)
    requires Inv(g) && Do(g, s, fronts).started == started && |started| <= |g.started|
    ensures g.started == started
  {
    if s.DoTrack? {
      TrackStarts(g, s.r, s.r in fronts);
    } else if s.r !in g.waitQ {
      UntrackGrows(g, s.r, s.completed);
    }
  }

  lemma HeadKept(g: Flow, s: Step, fronts: set<nat>)
    requires Inv(g) && g.waitQ != [] && Do(g, s, fronts).started == g.started
    requires s.DoTrack? && s.r in fronts ==> s.r in g.tracked
    ensures Do(g, s, fronts).waitQ != [] && Do(g, s, fronts).waitQ[0] == g.waitQ[0]
  {
    if s.DoUntrack? && s.r !in g.waitQ && s.r in g.tracked {
      UntrackStartsOne(g, s.r, s.completed);
    }
  }

  /**
   In every run, if nobody else jumps the queue after it, such a request is the next one to start:
   the first step s that starts anything starts it.
   */
  lemma FrontStartsNext(credits: nat, steps: seq<Step>, fronts: set<nat>, k: nat, r: nat, s: Step)
    requires Jumps(credits, steps, fronts, k, r) && NoneJumpsAfter(credits, steps + [s], fronts, k)
    requires
      var f, g := Run(credits, steps[..k], fronts), Run(credits, steps, fronts);
      g.started == f.started && Do(g, s, fronts).started != g.started
    ensures Do(Run(credits, steps, fronts), s, fronts).started == Run(credits, steps[..k], fronts).started + [r]
  {
    var all := steps + [s];
    forall i | k < i < |steps| && steps[i].DoTrack? && steps[i].r in fronts
      ensures steps[i].r in Run(credits, steps[..i], fronts).tracked
    {
      assert all[i] == steps[i] && all[..i] == steps[..i];
    }
    HeadStays(credits, steps, fronts, k, r);
    RunKeeps(credits, steps, fronts);
    hide Run, Inv, InOrder, Conserved;
    StartsHead(Run(credits, steps, fronts), s, fronts);
  }

  /** While requests wait, only a release starts one, the head of the queue. */
  lemma StartsHead(g: Flow, s: Step, fronts: set<nat>)
    requires Inv(g) && g.waitQ != [] && Do(g, s, fronts).started != g.started
    ensures Do(g, s, fronts).started == g.started + [g.waitQ[0]]
  {
    if s.DoUntrack? && s.r !in g.waitQ && s.r in g.tracked {
      UntrackStartsOne(g, s.r, s.completed);
    }
  }

  // ---- the counters ----

  /** How many steps of the run released a completed request. */
  ghost function Replies(credits: nat, steps: seq<Step>, fronts: set<nat>): nat {
    if steps == [] then 0
    else
      var f, s := Run(credits, steps[..|steps| - 1], fronts), steps[|steps| - 1];
      Replies(credits, steps[..|steps| - 1], fronts)
      + if s.DoUntrack? && s.completed && s.r in f.reqQ then 1 else 0
  }

  /** In every run epi_reply_num counts the completed requests, and epi_req_num those and the ones in flight. */
  lemma {:induction false} CountersExact(credits: nat, steps: seq<Step>, fronts: set<nat>)
    ensures
      var f := Run(credits, steps, fronts);
      f.replyNum == Replies(credits, steps, fronts) && f.reqNum == f.replyNum + |f.reqQ|
    decreases |steps|
  {
    hide Inv, Track, Untrack, InOrder, Conserved;
    RunKeeps(credits, steps, fronts);
    assert Counted(Run(credits, steps, fronts)) by { IsCounted(Run(credits, steps, fronts)); }
    if steps != [] {
      var init, s := steps[..|steps| - 1], steps[|steps| - 1];
      CountersExact(credits, init, fronts);
      RunKeeps(credits, init, fronts);
      StepReplies(Run(credits, init, fronts), s, fronts);
    }
  }

  lemma IsCounted(f: Flow)
    requires Inv(f)
    ensures Counted(f)
  {
  }

  lemma StepReplies(f: Flow, s: Step, fronts: set<nat>)
    requires Inv(f)
    ensures Do(f, s, fronts).replyNum == f.replyNum + if s.DoUntrack? && s.completed && s.r in f.reqQ then 1 else 0
  {
    if s.DoUntrack? && s.r !in f.waitQ && s.r in f.tracked {
      UntrackStartsOne(f, s.r, s.completed);
    }
  }

  // ---- the same, in place ----

  datatype Tracked = InFlight | Waiting

  class Endpoint {
    const credits: nat
    var reqQ: seq<nat>
    var waitQ: seq<nat>
    var reqNum: int
    var replyNum: int
    var waitNum: int
    var tracked: set<nat>
    ghost var asked: seq<nat>
    ghost var started: seq<nat>

    ghost function View(): Flow
      reads this
    {
      Flow(credits, reqQ, waitQ, reqNum, replyNum, waitNum, tracked, asked, started)
    }

    constructor (c: nat)
      ensures View() == Idle(c)
    {
      credits, reqQ, waitQ, reqNum, replyNum, waitNum, tracked := c, [], [], 0, 0, 0, {};
      asked, started := [], [];
    }

    method ReqTrack(r: nat, front: bool) returns (where: Tracked)
      requires Inv(View()) && r !in tracked
      modifies this
      ensures View() == Track(old(View()), r, front) && Inv(View())
      ensures where == if r in waitQ then Waiting else InFlight
    {
      TrackKeeps(View(), r, front);
      if credits != 0 && reqNum - replyNum >= credits {
        waitQ := if front then [r] + waitQ else waitQ + [r];
        waitNum := waitNum + 1;
        where := Waiting;
      } else {
        reqQ := reqQ + [r];
        reqNum := reqNum + 1;
        started := started + [r];
        where := InFlight;
      }
      tracked := tracked + {r};
      asked := asked + [r];
    }

    /** d_list_del_init on the in-flight queue. */
    method Unlink(r: nat)
      modifies `reqQ
      ensures reqQ == Without(old(reqQ), r)
    {
      var i := 0;
      while i < |reqQ| && reqQ[i] != r
        invariant i <= |reqQ| && Without(reqQ, r) == reqQ[..i] + Without(reqQ[i..], r)
      {
        assert reqQ[i..][1..] == reqQ[i + 1..];
        i := i + 1;
      }
      if i < |reqQ| {
        assert reqQ[i..][1..] == reqQ[i + 1..];
        reqQ := reqQ[..i] + reqQ[i + 1..];
      }
    }

    /** The locked part of crt_context_req_untrack; submit are the requests to send now. */
    method UntrackLocked(r: nat, completed: bool) returns (submit: seq<nat>)
      requires Inv(View()) && r !in waitQ
      modifies this
      ensures View() == Untrack(old(View()), r, completed)
      ensures old(waitQ) == submit + waitQ
    {
      submit := [];
      if r !in tracked { return; }
      hide Promote, Inv;
      Unlink(r);
      if completed { replyNum := replyNum + 1; } else { reqNum := reqNum - 1; }
      tracked := tracked - {r};
      if credits == 0 {
        return;
      }
      assert reqNum - replyNum <= credits by { DropFits(old(View()), r, completed); }
      submit := ProcessWaitQ(credits - (reqNum - replyNum));
    }

    /** The loop of crt_context_req_untrack over the wait queue. */
    method ProcessWaitQ(free: nat) returns (submit: seq<nat>)
      modifies `waitQ, `waitNum, `reqQ, `reqNum, `started
      ensures View() == Promote(old(View()), free)
      ensures old(waitQ) == submit + waitQ
    {
      hide Promote;
      submit := [];
      var left := free;
      PromoteAt(View(), left);
      while left > 0 && waitQ != []
        invariant Promote(View(), left) == Promote(old(View()), free)
        invariant old(waitQ) == submit + waitQ
      {
        PromoteAt(View(), left);
        var head := waitQ[0];
        waitQ, waitNum := waitQ[1..], waitNum - 1;
        reqQ, reqNum := reqQ + [head], reqNum + 1;
        started := started + [head];
        submit := submit + [head];
        left := left - 1;
      }
      PromoteAt(View(), left);
    }

    /**
     crt_context_req_untrack with its recursion: requests that cannot be sent (unsendable) are
     untracked in turn.  It ends because every call that does something untracks a request.
     */
    method ReqUntrack(r: nat, completed: bool, unsendable: set<nat>)
      requires Inv(View()) && r !in waitQ
      modifies this
      ensures View() == Settled(old(View()), r, completed, unsendable) && Inv(View())
      decreases |tracked|
    {
      ghost var before := View();
      UntrackKeeps(before, r, completed);
      SubmitsHead(before, r, completed);
      SettledStep(before, r, completed, unsendable);
      hide Inv, Untrack, Settled;
      var submit := UntrackLocked(r, completed);
      assert submit == before.waitQ[..|submit|];
      while submit != []
        invariant |submit| <= 1 && Inv(View())
        invariant submit != [] ==> View() == Untrack(before, r, completed) && r in before.tracked && before.waitQ != []
        invariant submit != [] ==> submit[0] == before.waitQ[0] && submit[0] !in waitQ
        invariant submit == [] ==> View() == Settled(before, r, completed, unsendable)
        decreases |submit|
      {
        var next := submit[0];
        submit := submit[1..];
        if next in unsendable {
          Smaller(tracked, before.tracked, r);
          ReqUntrack(next, false, unsendable);
        }
      }
    }
  }

  // ---- requests that cannot be sent ----

  /** A wait queue cut after the first request that can be sent. */
  datatype Cut = Cut(failed: seq<nat>, live: seq<nat>, rest: seq<nat>)

  function CutAt(q: seq<nat>, unsendable: set<nat>): (c: Cut)
    ensures q == c.failed + c.live + c.rest
    ensures forall i :: 0 <= i < |c.failed| ==> c.failed[i] in unsendable
    ensures if c.live == [] then c.rest == [] else |c.live| == 1 && c.live[0] !in unsendable
  {
    if q == [] then Cut([], [], [])
    else if q[0] !in unsendable then Cut([], [q[0]], q[1..])
    else
      var c := CutAt(q[1..], unsendable);
      c.(failed := [q[0]] + c.failed)
  }

  /**
   Untracking a request starts the waiting ones up to the first that can be sent.  That one stays
   in flight; those before it end untracked, and so does the request itself.
   */
  ghost function Settled(f: Flow, r: nat, completed: bool, unsendable: set<nat>): Flow {
    if r !in f.tracked then f
    else
      var c := CutAt(f.waitQ, unsendable);
      var g := Drop(f, r, completed);
      g.(reqQ := g.reqQ + c.live, waitQ := c.rest, waitNum := f.waitNum - |c.failed| - |c.live|,
         reqNum := g.reqNum + |c.live|, started := f.started + c.failed + c.live,
         tracked := g.tracked - Members(c.failed))
  }

  lemma {:induction false} WithoutLast(q: seq<nat>, h: nat)
    requires h !in q
    ensures Without(q + [h], h) == q
    decreases |q|
  {
    if q != [] {
      assert (q + [h])[1..] == q[1..] + [h];
      WithoutLast(q[1..], h);
    }
  }

  lemma SubmitsHead(f: Flow, r: nat, completed: bool)
    requires Inv(f) && r !in f.waitQ
    ensures
      var q := Untrack(f, r, completed).waitQ;
      q == if r !in f.tracked || f.waitQ == [] then f.waitQ else f.waitQ[1..]
    ensures f.waitQ != [] ==> f.waitQ[0] !in f.waitQ[1..]
  {
    if r in f.tracked {
      UntrackStartsOne(f, r, completed);
    }
  }

  /** One round of crt_context_req_untrack: the request it starts is untracked too if it cannot be sent. */
  lemma SettledStep(f: Flow, r: nat, completed: bool, unsendable: set<nat>)
    requires Inv(f) && r !in f.waitQ
    ensures
      var g := Untrack(f, r, completed);
      Settled(f, r, completed, unsendable) ==
        if r in f.tracked && f.waitQ != [] && f.waitQ[0] in unsendable then Settled(g, f.waitQ[0], false, unsendable)
        else g
  {
    if r in f.tracked {
      UntrackStartsOne(f, r, completed);
      hide Untrack;
      if f.waitQ != [] {
        if f.waitQ[0] in unsendable {
          SettledAgain(f, r, completed, unsendable);
        } else {
          assert f.started + [] == f.started;
        }
      }
    }
  }

  lemma SettledAgain(f: Flow, r: nat, completed: bool, unsendable: set<nat>)
    requires Inv(f) && r in f.reqQ && f.waitQ != [] && f.waitQ[0] in unsendable
    ensures Settled(f, r, completed, unsendable)
         == Settled(Advance(Drop(f, r, completed)), f.waitQ[0], false, unsendable)
  {
    var h := f.waitQ[0];
    var c := CutAt(f.waitQ[1..], unsendable);
    WithoutExact(f.reqQ, r);
    assert h in f.waitQ && h !in f.reqQ && r in f.tracked && h in f.tracked && h != r;
    WithoutLast(Without(f.reqQ, r), h);
    assert CutAt(f.waitQ, unsendable) == Cut([h] + c.failed, c.live, c.rest);
    hide CutAt, Without, Inv;
    assert f.started + ([h] + c.failed) == f.started + [h] + c.failed;
    assert f.tracked - {r} - Members([h] + c.failed) == f.tracked - {r} - {h} - Members(c.failed);
  }

  /**
   No request is lost or reordered.  The requests that end untracked are the one that was to be,
   and those that left the wait queue but cannot be sent; what left it and can be sent is in flight.
   */
  lemma SettledExact(f: Flow, r: nat, completed: bool, unsendable: set<nat>)
    requires Inv(f) && r in f.reqQ
    ensures
      var g := Settled(f, r, completed, unsendable);
      && g.asked == f.asked && f.started <= g.started && g.started + g.waitQ == f.started + f.waitQ
      && (forall x: nat :: x in f.tracked && x !in g.tracked <==>
            x == r || (x in f.waitQ && x !in g.waitQ && x in unsendable))
      && (forall x: nat :: x in g.reqQ <==>
            (x in f.reqQ && x != r) || (x in f.waitQ && x !in g.waitQ && x !in unsendable))
  {
    var c := CutAt(f.waitQ, unsendable);
    hide CutAt;
    WithoutExact(f.reqQ, r);
    hide Without;
    assert f.started + c.failed + c.live + c.rest == f.started + f.waitQ;
    SubmitGone(f, c.failed + c.live, c.rest);
    SubmitGone(f, c.failed, c.live + c.rest);
    assert f.waitQ == c.failed + (c.live + c.rest);
  }

  lemma DropFits(f: Flow, r: nat, completed: bool)
    requires Inv(f) && r in f.tracked && r !in f.waitQ && f.credits != 0
    ensures Drop(f, r, completed).reqNum - Drop(f, r, completed).replyNum <= f.credits
  {
  }

  lemma PromoteAt(f: Flow, n: nat)
    ensures Promote(f, n) == if n == 0 || f.waitQ == [] then f else Promote(Advance(f), n - 1)
  {
  }

  lemma Smaller(s: set<nat>, t: set<nat>, r: nat)
    requires s <= t - {r} && r in t
    ensures |s| < |t|
  {
    Cardinal(s, t - {r});
  }

  lemma {:induction false} Cardinal(s: set<nat>, t: set<nat>)
    requires s <= t
    ensures |s| <= |t|
    decreases s
  {
    if s != {} {
      var x :| x in s;
      Cardinal(s - {x}, t - {x});
    }
  }

  lemma SubmitGone(f: Flow, submit: seq<nat>, rest: seq<nat>)
    requires Inv(f) && f.waitQ == submit + rest
    ensures forall x <- submit :: x !in rest
  {
    forall i, j | 0 <= i < |submit| && 0 <= j < |rest| ensures submit[i] != rest[j] {
      assert f.waitQ[i] == submit[i] && f.waitQ[|submit| + j] == rest[j];
    }
  }
}
