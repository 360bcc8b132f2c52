/**
 Which error code a collective ends with, and in which order it uses the replies of its children:
 the codes of crt_corpc_reply_hdlr, crt_corpc_fail_parent_rpc and crt_corpc_complete followed
 through whole runs.
 */
module CorpcCodes {
  import opened RankList
  import opened Broadcast
  import opened Corpc
  import opened CorpcRun

  // ----- One step -----

  /** The code that a step brings to the node it changes, DER_SUCCESS if none. */
  ghost function Brought(cfg: Config, w: World, a: Step): int
    requires Shaped(cfg, w) && Enabled(cfg, w, a)
  {
    match a
    case StartRoot(rc) => rc
    case Deliver(_, rc) => rc
    case ForwardNext(g, o) =>
      // a failed send to the last child is reported by its own reply handler
      var left := w.nodes[g].info.childNum - w.nodes[g].phase.next;
      if o.Sent? || left <= 0 || (o.SendFailed? && left == 1) then DER_SUCCESS else o.rc
    case DispatchLocal(g, rc) => if Excluded(cfg, g) then DER_SUCCESS else rc
    case FailureSettles(_) => DER_SUCCESS
    case HandlerReplies(g) => w.nodes[g].info.hdrRc
    case Answer(c) => w.nodes[c].info.hdrRc
    case Fail(_, rc, hdr) => if hdr != DER_SUCCESS then hdr else rc
  }

  /** i' has code e, if that is one, or the code of i, and a header out of the codes it has had. */
  predicate TakesCode(i: Info, i': Info, e: int) {
    && i'.rc == (if e != DER_SUCCESS then e else i.rc)
    && (i'.hdrRc == i.hdrRc || i'.hdrRc == i'.rc)
  }

  lemma RepliesTakeCode(i: Info, ops: Ops, c: nat, cciRc: int, hdr: int)
    ensures TakesCode(i, ChildReply(i, ops, c, cciRc, hdr), if hdr != DER_SUCCESS then hdr else cciRc)
    ensures TakesCode(i, LocalReply(i, ops), i.hdrRc)
  {
  }

  lemma ForwardTakesCode(n: Node, kids: seq<nat>, o: SendOutcome)
    requires n.phase.Forwarding? && n.info.childNum <= |kids| && (o.Sent? || o.rc != DER_SUCCESS)
    ensures
      var left := n.info.childNum - n.phase.next;
      TakesCode(n.info, Forward(n, kids, o).info,
                if o.Sent? || left <= 0 || (o.SendFailed? && left == 1) then DER_SUCCESS else o.rc)
  {
  }

  lemma OthersTakeCode(n: Node, kids: seq<nat>, rc: int)
    ensures TakesCode(n.info, Start(n, kids, rc).info, rc)
    ensures TakesCode(n.info, Dispatch(n, rc).info, if n.info.rootExcluded then DER_SUCCESS else rc)
    ensures TakesCode(n.info, Settle(n).info, DER_SUCCESS)
  {
  }

  /**
   The code of a node is the last one that was brought to it; its header holds one of the codes it
   has had.
   */
  lemma StepCode(cfg: Config, w: World, a: Step)
    requires Shaped(cfg, w) && AllNodesOk(cfg, w) && Enabled(cfg, w, a)
    ensures IsNode(cfg.shape, Target(cfg, a))
    ensures TakesCode(w.nodes[Target(cfg, a)].info, Do(cfg, w, a).nodes[Target(cfg, a)].info, Brought(cfg, w, a))
  {
    hide ChildReply, LocalReply, Start, Forward, Dispatch, Settle, TakesCode, Accounted, Counters, LocalState, Codes;
    var g := Target(cfg, a);
    assert NodeOk(cfg, w, g);
    var n, kids := w.nodes[g], cfg.shape.lists[g];
    match a
    case StartRoot(rc) => OthersTakeCode(n, kids, rc);
    case Deliver(_, rc) => OthersTakeCode(n, kids, rc);
    case ForwardNext(_, o) => ForwardTakesCode(n, kids, o);
    case DispatchLocal(_, rc) => OthersTakeCode(n, kids, rc);
    case FailureSettles(_) => OthersTakeCode(n, kids, DER_SUCCESS);
    case HandlerReplies(_) => RepliesTakeCode(n.info, cfg.ops, 0, 0, 0);
    case Answer(c) => RepliesTakeCode(n.info, cfg.ops, c, DER_SUCCESS, w.nodes[c].info.hdrRc);
    case Fail(c, rc, hdr) => RepliesTakeCode(n.info, cfg.ops, c, rc, hdr);
  }

  // ----- Where a code comes from -----

  /** Step a brings code e into the tree, at node d. */
  ghost predicate Origin(cfg: Config, w: World, a: Step, d: nat, e: int)
    requires Shaped(cfg, w)
  {
    && Enabled(cfg, w, a) && !a.Answer? && !a.HandlerReplies?
    && Target(cfg, a) == d && Brought(cfg, w, a) == e != DER_SUCCESS
  }

  /** Some step of the run brought e in at g or below it. */
  ghost predicate Blamed(cfg: Config, steps: seq<Step>, g: nat, e: int)
    requires IsTree(cfg.shape)
  {
    exists k: nat, d: nat :: BlamedAt(cfg, steps, k, d, g, e)
  }

  ghost predicate BlamedAt(cfg: Config, steps: seq<Step>, k: nat, d: nat, g: nat, e: int)
    requires IsTree(cfg.shape)
  {
    && k < |steps| && IsNode(cfg.shape, d) && Above(cfg.shape, g, d)
    && Origin(cfg, Run(cfg, steps[..k]), steps[k], d, e)
  }

  lemma BlamedLater(cfg: Config, steps: seq<Step>, g: nat, e: int)
    requires IsTree(cfg.shape) && steps != [] && Blamed(cfg, steps[..|steps| - 1], g, e)
    ensures Blamed(cfg, steps, g, e)
  {
    hide Run, Origin, Above;
    var init := steps[..|steps| - 1];
    var k: nat, d: nat :| BlamedAt(cfg, init, k, d, g, e);
    assert init[..k] == steps[..k];
    assert BlamedAt(cfg, steps, k, d, g, e);
  }

  /** What is blamed on a child is blamed on its parent. */
  lemma BlamedAbove(cfg: Config, steps: seq<Step>, c: nat, e: int)
    requires IsTree(cfg.shape) && IsNode(cfg.shape, c) && c != cfg.shape.root && Blamed(cfg, steps, c, e)
    ensures Blamed(cfg, steps, cfg.shape.parent[c], e)
  {
    hide Run, Origin;
    var k: nat, d: nat :| BlamedAt(cfg, steps, k, d, c, e);
    AboveParent(cfg.shape, c, d);
    assert BlamedAt(cfg, steps, k, d, cfg.shape.parent[c], e);
  }

  lemma {:induction false} AboveParent(s: Shape, c: nat, x: nat)
    requires IsTree(s) && IsNode(s, x) && IsNode(s, c) && c != s.root && Above(s, c, x)
    ensures Above(s, s.parent[c], x)
    decreases s.order[x]
  {
    if c != x {
      AboveParent(s, c, s.parent[x]);
    }
  }

  ghost predicate CodesBlamed(cfg: Config, steps: seq<Step>, g: nat)
    requires IsTree(cfg.shape) && IsNode(cfg.shape, g)
  {
    var i := Run(cfg, steps).nodes[g].info;
    && (i.rc != DER_SUCCESS ==> Blamed(cfg, steps, g, i.rc))
    && (i.hdrRc != DER_SUCCESS ==> Blamed(cfg, steps, g, i.hdrRc))
  }

  /** The code the last step brings is blamed on the node it goes to. */
  lemma BroughtBlamed(cfg: Config, steps: seq<Step>)
    requires IsTree(cfg.shape) && steps != []
    requires
      var init, a := steps[..|steps| - 1], steps[|steps| - 1];
      && Enabled(cfg, Run(cfg, init), a) && IsNode(cfg.shape, Target(cfg, a))
      && Brought(cfg, Run(cfg, init), a) != DER_SUCCESS
      && (a.Answer? ==> CodesBlamed(cfg, init, a.c)) && (a.HandlerReplies? ==> CodesBlamed(cfg, init, a.g))
    ensures
      var init, a := steps[..|steps| - 1], steps[|steps| - 1];
      Blamed(cfg, steps, Target(cfg, a), Brought(cfg, Run(cfg, init), a))
  {
    hide Run;
    var init, a := steps[..|steps| - 1], steps[|steps| - 1];
    var e := Brought(cfg, Run(cfg, init), a);
    if a.Answer? {
      BlamedAbove(cfg, init, a.c, e);
      BlamedLater(cfg, steps, Target(cfg, a), e);
    } else if a.HandlerReplies? {
      BlamedLater(cfg, steps, a.g, e);
    } else {
      assert BlamedAt(cfg, steps, |init|, Target(cfg, a), Target(cfg, a), e);
    }
  }

  lemma {:induction false} RunBlamed(cfg: Config, steps: seq<Step>, g: nat)
    requires IsTree(cfg.shape) && IsNode(cfg.shape, g)
    ensures CodesBlamed(cfg, steps, g)
    decreases |steps|
  {
    hide Do, Brought, Blamed;
    if steps != [] {
      var init, a := steps[..|steps| - 1], steps[|steps| - 1];
      var w := Run(cfg, init);
      RunBlamed(cfg, init, g);
      RunKeepsNodes(cfg, init);
      if Enabled(cfg, w, a) && Target(cfg, a) == g {
        StepCode(cfg, w, a);
        if a.Answer? {
          RunBlamed(cfg, init, a.c);
        }
        if Brought(cfg, w, a) != DER_SUCCESS {
          BroughtBlamed(cfg, steps);
        }
      } else if Enabled(cfg, w, a) {
        OneNodeChanges(cfg, w, a, g);
      } else {
        DisabledIsNoop(cfg, w, a);
      }
      var i := w.nodes[g].info;
      if i.rc != DER_SUCCESS {
        BlamedLater(cfg, steps, g, i.rc);
      }
      if i.hdrRc != DER_SUCCESS {
        BlamedLater(cfg, steps, g, i.hdrRc);
      }
    }
  }

  /**
   In every run, an error code with which a node completes was brought in, exactly so, by some step
   of the run at that node or below it.
   */
  lemma CodeHasOrigin(cfg: Config, steps: seq<Step>, g: nat)
    requires IsTree(cfg.shape) && IsNode(cfg.shape, g)
    requires
      var r := Run(cfg, steps).nodes[g].info.results;
      r != [] && r[0] != DER_SUCCESS
    ensures Blamed(cfg, steps, g, Run(cfg, steps).nodes[g].info.results[0])
  {
    hide Run, Blamed;
    RunBlamed(cfg, steps, g);
    RunKeepsNodes(cfg, steps);
    assert NodeOk(cfg, Run(cfg, steps), g);
  }

  /** In every run, the code a node that completed puts into its reply is the code it completed with. */
  lemma HeaderIsResult(cfg: Config, steps: seq<Step>, g: nat)
    requires IsTree(cfg.shape) && IsNode(cfg.shape, g)
    ensures
      var i := Run(cfg, steps).nodes[g].info;
      i.results != [] ==> i.results == [i.hdrRc]
  {
    hide Run;
    CompletesAtMostOnce(cfg, steps, g);
    RunKeepsNodes(cfg, steps);
    assert NodeOk(cfg, Run(cfg, steps), g);
  }

  /** Every error that comes into the tree during the run has code e. */
  ghost predicate OnlyCode(cfg: Config, steps: seq<Step>, e: int)
    requires IsTree(cfg.shape)
  {
    forall k: nat, d: nat, x: int :: k < |steps| && Origin(cfg, Run(cfg, steps[..k]), steps[k], d, x) ==> x == e
  }

  /** If only one error code occurs in a run, every node completes with that code or with success. */
  lemma OneCode(cfg: Config, steps: seq<Step>, g: nat, e: int)
    requires IsTree(cfg.shape) && IsNode(cfg.shape, g) && OnlyCode(cfg, steps, e)
    ensures
      var r := Run(cfg, steps).nodes[g].info.results;
      r == [] || r == [DER_SUCCESS] || r == [e]
  {
    hide Run, Origin;
    var r := Run(cfg, steps).nodes[g].info.results;
    CompletesAtMostOnce(cfg, steps, g);
    if r != [] && r[0] != DER_SUCCESS {
      CodeHasOrigin(cfg, steps, g);
      var k: nat, d: nat :| BlamedAt(cfg, steps, k, d, g, r[0]);
    }
  }

  // ----- The order of replies -----

  /** The children whose reply or failure reached g, in the order of the run. */
  ghost function Arrivals(cfg: Config, steps: seq<Step>, g: nat): seq<nat>
    requires IsTree(cfg.shape)
  {
    if steps == [] then []
    else
      var init, a := steps[..|steps| - 1], steps[|steps| - 1];
      Arrivals(cfg, init, g)
      + if (a.Answer? || a.Fail?) && Enabled(cfg, Run(cfg, init), a) && Target(cfg, a) == g then [a.c] else []
  }

  ghost predicate InOrder(n: Node, arrivals: seq<nat>) {
    arrivals == if Stranded(n) then n.info.replied + n.info.merged else n.info.merged + n.info.replied
  }

  lemma ReplyInOrder(n: Node, ops: Ops, kids: seq<nat>, excluded: bool, c: nat, cciRc: int, hdr: int,
                     arrivals: seq<nat>)
    requires NodeInv(n, ops, kids, excluded) && c in n.info.children && InOrder(n, arrivals)
    ensures InOrder(n.(info := ChildReply(n.info, ops, c, cciRc, hdr)), arrivals + [c])
  {
    hide Accounted, Counters, Codes, Distinct;
    var m, p := n.info.merged, n.info.replied;
    assert (m + p) + [c] == m + (p + [c]) && (p + m) + [c] == p + (m + [c]);
    assert p == [] ==> m + p == m && (m + [c]) + p == m + [c];
  }

  lemma LocalInOrder(n: Node, ops: Ops, kids: seq<nat>, excluded: bool, arrivals: seq<nat>)
    requires NodeInv(n, ops, kids, excluded) && n.phase.Running? && InOrder(n, arrivals)
    ensures InOrder(n.(phase := Finished, info := LocalReply(n.info, ops)), arrivals)
  {
    hide Accounted, Counters, Codes, Distinct;
    var m, p := n.info.merged, n.info.replied;
    assert (m + p) + [] == m + p;
  }

  lemma OthersInOrder(n: Node, ops: Ops, kids: seq<nat>, excluded: bool, rc: int, o: SendOutcome, arrivals: seq<nat>)
    requires NodeInv(n, ops, kids, excluded) && InOrder(n, arrivals)
    ensures n.phase.Waiting? ==> InOrder(Start(n, kids, rc), arrivals)
    ensures n.phase.Forwarding? ==> InOrder(Forward(n, kids, o), arrivals)
    ensures n.phase.Forwarded? ==> InOrder(Dispatch(n, rc), arrivals)
    ensures n.phase.Failing? ==> InOrder(Settle(n), arrivals)
  {
    hide Accounted, Counters, Codes, Distinct;
    if n.phase.Failing? {
      MergesLater(n, ops, kids, excluded);
    }
  }

  /** Before the local part is done nothing has been merged, unless replies need no order. */
  lemma MergesLater(n: Node, ops: Ops, kids: seq<nat>, excluded: bool)
    requires NodeInv(n, ops, kids, excluded) && n.phase.Failing?
    ensures n.info.merged == [] || n.info.replied == []
    ensures n.info.replied + n.info.merged == n.info.merged + n.info.replied
  {
    hide Accounted, Counters, Codes, Distinct;
    var m, p := n.info.merged, n.info.replied;
    if m == [] {
      assert p + m == p == m + p;
    } else {
      assert p == [];
      assert p + m == m == m + p;
    }
  }

  lemma StepInOrder(cfg: Config, w: World, a: Step, arrivals: seq<nat>)
    requires Shaped(cfg, w) && AllNodesOk(cfg, w) && Enabled(cfg, w, a) && IsNode(cfg.shape, Target(cfg, a))
    requires InOrder(w.nodes[Target(cfg, a)], arrivals)
    ensures InOrder(Do(cfg, w, a).nodes[Target(cfg, a)], arrivals + if a.Answer? || a.Fail? then [a.c] else [])
  {
    hide InOrder, NodeInv, ChildReply, LocalReply, Start, Forward, Dispatch, Settle;
    var g := Target(cfg, a);
    var n, kids, x := w.nodes[g], cfg.shape.lists[g], Excluded(cfg, g);
    assert NodeOk(cfg, w, g);
    assert arrivals + [] == arrivals;
    match a
    case StartRoot(rc) => OthersInOrder(n, cfg.ops, kids, x, rc, Sent, arrivals);
    case Deliver(_, rc) => OthersInOrder(n, cfg.ops, kids, x, rc, Sent, arrivals);
    case ForwardNext(_, o) => OthersInOrder(n, cfg.ops, kids, x, DER_SUCCESS, o, arrivals);
    case DispatchLocal(_, rc) => OthersInOrder(n, cfg.ops, kids, x, rc, Sent, arrivals);
    case FailureSettles(_) => OthersInOrder(n, cfg.ops, kids, x, DER_SUCCESS, Sent, arrivals);
    case HandlerReplies(_) => LocalInOrder(n, cfg.ops, kids, x, arrivals);
    case Answer(c) => ReplyInOrder(n, cfg.ops, kids, x, c, DER_SUCCESS, w.nodes[c].info.hdrRc, arrivals);
    case Fail(c, rc, hdr) => ReplyInOrder(n, cfg.ops, kids, x, c, rc, hdr, arrivals);
  }

  /**
   In every run a node uses the replies of its children in the order in which they arrived, parked
   ones included; where a failed dispatch strands parked replies, those that follow are used in
   order without them.
   */
  lemma {:induction false} RepliesInOrder(cfg: Config, steps: seq<Step>, g: nat)
    requires IsTree(cfg.shape) && IsNode(cfg.shape, g)
    ensures InOrder(Run(cfg, steps).nodes[g], Arrivals(cfg, steps, g))
    decreases |steps|
  {
    hide Do, NodeInv, Enabled;
    if steps != [] {
      hide InOrder;
      var init, a := steps[..|steps| - 1], steps[|steps| - 1];
      var w := Run(cfg, init);
      RepliesInOrder(cfg, init, g);
      RunKeepsNodes(cfg, init);
      if Enabled(cfg, w, a) && Target(cfg, a) == g {
        StepInOrder(cfg, w, a, Arrivals(cfg, init, g));
      } else {
        assert Arrivals(cfg, init, g) + [] == Arrivals(cfg, init, g);
        if Enabled(cfg, w, a) {
          OneNodeChanges(cfg, w, a, g);
        } else {
          DisabledIsNoop(cfg, w, a);
        }
      }
    }
  }
}
