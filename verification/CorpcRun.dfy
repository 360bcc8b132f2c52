/**
 A collective RPC over a whole broadcast tree: every node runs the protocol of module Corpc,
 requests travel from parents to children and replies back, RPCs may fail at any time, and
 all interleavings are allowed.  A step that is not enabled changes nothing.
 */
module CorpcRun {
  import opened RankList
  import opened Broadcast
  import opened Corpc

  /** The tree over the target group; whether the initiator itself is outside the requested scope. */
  datatype Config = Config(shape: Shape, ops: Ops, rootExcluded: bool)

  /** `requests[c]` counts the requests sent to node c. */
  datatype World = World(nodes: seq<Node>, requests: seq<nat>)

  datatype Step =
    // the initiator calls crt_req_send; rc is the outcome of its own checks
    | StartRoot(rc: int)
    // a request reaches node c; rc is the outcome of its checks (pre-forward, rank, tree, version)
    | Deliver(c: nat, rc: int)
    | ForwardNext(g: nat, o: SendOutcome)
    | DispatchLocal(g: nat, rc: int)
    // after a failed dispatch, co_local_done is set under the lock a second time
    | FailureSettles(g: nat)
    // the RPC handler of node g calls crt_reply_send
    | HandlerReplies(g: nat)
    // the reply of node c reaches its parent
    | Answer(c: nat)
    // the RPC to node c fails, by timeout or otherwise, whatever node c has done
    | Fail(c: nat, rc: int, hdr: int)

  predicate Excluded(cfg: Config, g: nat) {
    cfg.rootExcluded && g == cfg.shape.root
  }

  ghost predicate Shaped(cfg: Config, w: World) {
    IsTree(cfg.shape) && |w.nodes| == |w.requests| == |cfg.shape.parent|
  }

  ghost function Init(cfg: Config): World
    requires IsTree(cfg.shape)
  {
    var n := |cfg.shape.parent|;
    World(seq(n, g requires 0 <= g < n => Node(Waiting, Fresh(Excluded(cfg, g)), 0, false)), seq(n, _ => 0))
  }

  ghost function Put(w: World, g: nat, n: Node): World
    requires g < |w.nodes|
  {
    w.(nodes := w.nodes[g := n])
  }

  ghost predicate Enabled(cfg: Config, w: World, a: Step)
    requires Shaped(cfg, w)
  {
    var s := cfg.shape;
    match a
    case StartRoot(rc) => w.nodes[s.root].phase.Waiting?
    case Deliver(c, rc) => IsNode(s, c) && c != s.root && w.requests[c] > 0 && w.nodes[c].phase.Waiting?
    case ForwardNext(g, o) => IsNode(s, g) && w.nodes[g].phase.Forwarding? && (o.Sent? || o.rc != DER_SUCCESS)
    case DispatchLocal(g, rc) => IsNode(s, g) && w.nodes[g].phase.Forwarded?
    case FailureSettles(g) => IsNode(s, g) && w.nodes[g].phase.Failing?
    case HandlerReplies(g) => IsNode(s, g) && w.nodes[g].phase.Running?
    case Answer(c) =>
      IsNode(s, c) && c != s.root && c in w.nodes[s.parent[c]].info.children
      && w.requests[c] > 0 && w.nodes[c].info.results != []
    case Fail(c, rc, hdr) =>
      IsNode(s, c) && c != s.root && c in w.nodes[s.parent[c]].info.children && rc != DER_SUCCESS
  }

  /** The child an enabled forwarding step sends a request to. */
  ghost predicate Sends(cfg: Config, w: World, a: Step)
    requires Shaped(cfg, w) && Enabled(cfg, w, a)
  {
    && a.ForwardNext? && a.o.Sent?
    && w.nodes[a.g].phase.next < |cfg.shape.lists[a.g]| && w.nodes[a.g].phase.next < w.nodes[a.g].info.childNum
  }

  ghost function Do(cfg: Config, w: World, a: Step): (w': World)
    requires Shaped(cfg, w)
    ensures Shaped(cfg, w')
  {
    if !Enabled(cfg, w, a) then w else
    var s := cfg.shape;
    match a
    case StartRoot(rc) => Put(w, s.root, Start(w.nodes[s.root], s.lists[s.root], rc))
    case Deliver(c, rc) => Put(w, c, Start(w.nodes[c], s.lists[c], rc))
    case ForwardNext(g, o) =>
      var w1 := Put(w, g, Forward(w.nodes[g], s.lists[g], o));
      if Sends(cfg, w, a) then
        var c := s.lists[g][w.nodes[g].phase.next];
        if IsNode(s, c) then w1.(requests := w.requests[c := w.requests[c] + 1]) else w1
      else w1
    case DispatchLocal(g, rc) => Put(w, g, Dispatch(w.nodes[g], rc))
    case FailureSettles(g) => Put(w, g, Settle(w.nodes[g]))
    case HandlerReplies(g) =>
      Put(w, g, w.nodes[g].(phase := Finished, info := LocalReply(w.nodes[g].info, cfg.ops)))
    case Answer(c) =>
      var p := w.nodes[s.parent[c]];
      Put(w, s.parent[c], p.(info := ChildReply(p.info, cfg.ops, c, DER_SUCCESS, w.nodes[c].info.hdrRc)))
    case Fail(c, rc, hdr) =>
      var p := w.nodes[s.parent[c]];
      Put(w, s.parent[c], p.(info := ChildReply(p.info, cfg.ops, c, rc, hdr)))
  }

  ghost function Run(cfg: Config, steps: seq<Step>): (w: World)
    requires IsTree(cfg.shape)
    ensures Shaped(cfg, w)
  {
    if steps == [] then Init(cfg) else Do(cfg, Run(cfg, steps[..|steps| - 1]), steps[|steps| - 1])
  }

  // ----- Invariants -----

  ghost predicate NodeOk(cfg: Config, w: World, g: nat)
    requires Shaped(cfg, w) && IsNode(cfg.shape, g)
  {
    NodeInv(w.nodes[g], cfg.ops, cfg.shape.lists[g], Excluded(cfg, g))
  }

  ghost predicate AllNodesOk(cfg: Config, w: World)
    requires Shaped(cfg, w)
  {
    forall g: nat :: IsNode(cfg.shape, g) ==> NodeOk(cfg, w, g)
  }

  /** Node x completed with code 0. */
  predicate Succeeded(n: Node) {
    n.info.results == [DER_SUCCESS]
  }

  predicate Heard(n: Node, c: nat) {
    c in n.info.merged || c in n.info.replied
  }

  /** A node without error heard only from children that succeeded. */
  ghost predicate TruthfulAt(cfg: Config, w: World, p: nat)
    requires Shaped(cfg, w) && IsNode(cfg.shape, p)
  {
    w.nodes[p].info.rc == DER_SUCCESS ==>
      forall c: nat :: Heard(w.nodes[p], c) ==> IsNode(cfg.shape, c) && Succeeded(w.nodes[c])
  }

  ghost predicate Truthful(cfg: Config, w: World)
    requires Shaped(cfg, w)
  {
    forall p: nat :: IsNode(cfg.shape, p) ==> TruthfulAt(cfg, w, p)
  }

  /** Requests to c are covered by what its parent has forwarded. */
  ghost predicate RequestOk(cfg: Config, w: World, c: nat)
    requires Shaped(cfg, w) && IsNode(cfg.shape, c)
  {
    if c == cfg.shape.root then w.requests[c] == 0
    else
      var p := cfg.shape.parent[c];
      var n := SentNum(w.nodes[p].info);
      n <= |cfg.shape.lists[p]| && w.requests[c] <= if c in cfg.shape.lists[p][..n] then 1 else 0
  }

  ghost predicate RequestsOk(cfg: Config, w: World)
    requires Shaped(cfg, w)
  {
    forall c: nat :: IsNode(cfg.shape, c) ==> RequestOk(cfg, w, c)
  }

  /** Which node a step changes. */
  ghost function Target(cfg: Config, a: Step): nat
    requires IsTree(cfg.shape)
  {
    match a
    case StartRoot(_) => cfg.shape.root
    case Deliver(c, _) => c
    case ForwardNext(g, _) => g
    case DispatchLocal(g, _) => g
    case FailureSettles(g) => g
    case HandlerReplies(g) => g
    case Answer(c) => if c < |cfg.shape.parent| then cfg.shape.parent[c] else 0
    case Fail(c, _, _) => if c < |cfg.shape.parent| then cfg.shape.parent[c] else 0
  }

  lemma OneNodeChanges(cfg: Config, w: World, a: Step, g: nat)
    requires Shaped(cfg, w) && Enabled(cfg, w, a) && IsNode(cfg.shape, g) && g != Target(cfg, a)
    ensures Do(cfg, w, a).nodes[g] == w.nodes[g]
  {
    hide ChildReply, LocalReply, Start, Forward, Dispatch, Settle;
  }

  /** The changed node keeps its invariant. */
  lemma StepKeepsNode(cfg: Config, w: World, a: Step)
    requires Shaped(cfg, w) && AllNodesOk(cfg, w) && Enabled(cfg, w, a)
    ensures IsNode(cfg.shape, Target(cfg, a)) && NodeOk(cfg, Do(cfg, w, a), Target(cfg, a))
  {
    hide NodeInv, ChildReply, LocalReply, Start, Forward, Dispatch, Settle;
    var s, g := cfg.shape, Target(cfg, a);
    var kids, ex := s.lists[g], Excluded(cfg, g);
    assert NodeOk(cfg, w, g);
    match a
    case StartRoot(rc) => StartKeeps(w.nodes[g], cfg.ops, kids, ex, rc);
    case Deliver(c, rc) => StartKeeps(w.nodes[g], cfg.ops, kids, ex, rc);
    case ForwardNext(_, o) => ForwardKeeps(w.nodes[g], cfg.ops, kids, ex, o);
    case DispatchLocal(_, rc) => DispatchKeeps(w.nodes[g], cfg.ops, kids, ex, rc);
    case FailureSettles(_) => SettleKeeps(w.nodes[g], cfg.ops, kids, ex);
    case HandlerReplies(_) => LocalReplyKeeps(w.nodes[g], cfg.ops, kids, ex);
    case Answer(c) => ChildReplyKeeps(w.nodes[g], cfg.ops, kids, ex, c, DER_SUCCESS, w.nodes[c].info.hdrRc);
    case Fail(c, rc, hdr) => ChildReplyKeeps(w.nodes[g], cfg.ops, kids, ex, c, rc, hdr);
  }

  lemma StepKeepsNodes(cfg: Config, w: World, a: Step)
    requires Shaped(cfg, w) && AllNodesOk(cfg, w)
    ensures AllNodesOk(cfg, Do(cfg, w, a))
  {
    hide NodeInv;
    if Enabled(cfg, w, a) {
      StepKeepsNode(cfg, w, a);
      forall g: nat | IsNode(cfg.shape, g)
        ensures NodeOk(cfg, Do(cfg, w, a), g)
      {
        if g != Target(cfg, a) {
          OneNodeChanges(cfg, w, a, g);
          assert NodeOk(cfg, w, g);
        }
      }
    }
  }

  lemma {:induction false} RunKeepsNodes(cfg: Config, steps: seq<Step>)
    requires IsTree(cfg.shape)
    ensures AllNodesOk(cfg, Run(cfg, steps))
  {
    hide Do;
    if steps == [] {
      forall g: nat | IsNode(cfg.shape, g)
        ensures NodeOk(cfg, Init(cfg), g)
      {
        assert ListsChildren(cfg.shape, g);
      }
    } else {
      RunKeepsNodes(cfg, steps[..|steps| - 1]);
      StepKeepsNodes(cfg, Run(cfg, steps[..|steps| - 1]), steps[|steps| - 1]);
    }
  }

  /**
   In every run, every node's collective completes at most once and its handler is dispatched
   at most once; a child reply is used only after the local reply is ready, unless the root is
   excluded, and each counted child reply was used exactly once.  One of them was copied if the
   root is excluded and there is output to aggregate; all others were aggregated.
   */
  lemma CompletesAtMostOnce(cfg: Config, steps: seq<Step>, g: nat)
    requires IsTree(cfg.shape) && IsNode(cfg.shape, g)
    ensures
      var n := Run(cfg, steps).nodes[g];
      && |n.info.results| <= 1 && n.dispatched <= 1
      && (cfg.ops.aggregates && n.info.merged != [] && !n.info.rootExcluded ==>
            n.info.localDone && (n.info.localAcked || n.localFailed))
      && Distinct(n.info.merged) && (forall c: nat :: c in n.info.merged ==> c in cfg.shape.lists[g])
      && n.info.ackNum == |n.info.merged| + (if n.info.localAcked then 1 else 0)
      && n.info.copies == (if cfg.ops.aggregates && cfg.ops.hasOutput && Excluded(cfg, g) && n.info.merged != []
                           then 1 else 0)
  {
    RunKeepsNodes(cfg, steps);
    var n := Run(cfg, steps).nodes[g];
    assert NodeOk(cfg, Run(cfg, steps), g);
    if !n.phase.Waiting? {
      forall c: nat | c in n.info.merged
        ensures c in cfg.shape.lists[g]
      {
        assert c in cfg.shape.lists[g][..SentNum(n.info)];
      }
    }
  }

  // ----- What one step does to the node it changes -----

  /** Codes are sticky, results and sent requests only grow, and replies are heard only when they arrive. */
  ghost predicate Advances(n: Node, n': Node) {
    && n.info.results <= n'.info.results
    && (n'.info.rc == DER_SUCCESS ==> n.info.rc == DER_SUCCESS)
    && SentNum(n.info) <= SentNum(n'.info)
  }

  lemma ReplyAdvances(n: Node, ops: Ops, c: nat, cciRc: int, hdr: int)
    requires c in n.info.children
    ensures
      var n' := n.(info := ChildReply(n.info, ops, c, cciRc, hdr));
      && Advances(n, n')
      && (n'.info.rc == DER_SUCCESS ==> cciRc == DER_SUCCESS && hdr == DER_SUCCESS)
      && forall x :: Heard(n', x) <==> Heard(n, x) || x == c
  {
    var n1 := NoteErrors(n.info, cciRc, hdr);
    assert |n.info.children - {c}| == |n.info.children| - 1;
  }

  lemma LocalReplyAdvances(n: Node, ops: Ops)
    ensures
      var n' := n.(phase := Finished, info := LocalReply(n.info, ops));
      Advances(n, n') && forall x :: Heard(n', x) <==> Heard(n, x)
  {
  }

  lemma ForwardAdvances(n: Node, ops: Ops, kids: seq<nat>, ex: bool, o: SendOutcome)
    requires NodeInv(n, ops, kids, ex) && n.phase.Forwarding? && (o.Sent? || o.rc != DER_SUCCESS)
    ensures Advances(n, Forward(n, kids, o))
    ensures forall x :: Heard(Forward(n, kids, o), x) <==> Heard(n, x)
  {
    ForwardAccounts(n, kids, o);
    hide Accounted, SentNum, Distinct;
  }

  lemma OthersAdvance(n: Node, kids: seq<nat>, rc: int)
    ensures Advances(n, Start(n, kids, rc)) && forall x :: Heard(Start(n, kids, rc), x) <==> Heard(n, x)
    ensures Advances(n, Dispatch(n, rc)) && forall x :: Heard(Dispatch(n, rc), x) <==> Heard(n, x)
    ensures Advances(n, Settle(n)) && forall x :: Heard(Settle(n), x) <==> Heard(n, x)
  {
  }

  lemma StepAdvances(cfg: Config, w: World, a: Step)
    requires Shaped(cfg, w) && AllNodesOk(cfg, w) && Enabled(cfg, w, a)
    ensures IsNode(cfg.shape, Target(cfg, a))
    ensures
      var g := Target(cfg, a);
      var n, n' := w.nodes[g], Do(cfg, w, a).nodes[g];
      && Advances(n, n')
      && (n'.info.rc == DER_SUCCESS ==> forall x: nat :: Heard(n', x) ==>
            Heard(n, x) || (a == Answer(x) && w.nodes[x].info.hdrRc == DER_SUCCESS))
  {
    hide ChildReply, LocalReply, Forward, Start, Dispatch, Settle, NodeInv, Advances, Heard;
    var g := Target(cfg, a);
    assert NodeOk(cfg, w, g);
    match a
    case StartRoot(rc) => OthersAdvance(w.nodes[g], cfg.shape.lists[g], rc);
    case Deliver(c, rc) => OthersAdvance(w.nodes[g], cfg.shape.lists[g], rc);
    case ForwardNext(_, o) => ForwardAdvances(w.nodes[g], cfg.ops, cfg.shape.lists[g], Excluded(cfg, g), o);
    case DispatchLocal(_, rc) => OthersAdvance(w.nodes[g], cfg.shape.lists[g], rc);
    case FailureSettles(_) => OthersAdvance(w.nodes[g], cfg.shape.lists[g], DER_SUCCESS);
    case HandlerReplies(_) => LocalReplyAdvances(w.nodes[g], cfg.ops);
    case Answer(c) => ReplyAdvances(w.nodes[g], cfg.ops, c, DER_SUCCESS, w.nodes[c].info.hdrRc);
    case Fail(c, rc, hdr) => ReplyAdvances(w.nodes[g], cfg.ops, c, rc, hdr);
  }

  // ----- Code 0 is truthful -----

  lemma SucceededStays(cfg: Config, w: World, a: Step, c: nat)
    requires Shaped(cfg, w) && AllNodesOk(cfg, w) && Enabled(cfg, w, a)
    requires IsNode(cfg.shape, c) && Succeeded(w.nodes[c])
    ensures Succeeded(Do(cfg, w, a).nodes[c])
  {
    hide NodeInv;
    if c == Target(cfg, a) {
      StepAdvances(cfg, w, a);
      StepKeepsNode(cfg, w, a);
      OneResult(cfg, Do(cfg, w, a), c);
    } else {
      OneNodeChanges(cfg, w, a, c);
    }
  }

  lemma OneResult(cfg: Config, w: World, c: nat)
    requires Shaped(cfg, w) && IsNode(cfg.shape, c) && NodeOk(cfg, w, c)
    ensures |w.nodes[c].info.results| <= 1
    ensures w.nodes[c].info.results != [] && w.nodes[c].info.hdrRc == DER_SUCCESS ==> Succeeded(w.nodes[c])
  {
  }

  lemma StepKeepsTruthful(cfg: Config, w: World, a: Step)
    requires Shaped(cfg, w) && AllNodesOk(cfg, w) && Truthful(cfg, w)
    ensures Truthful(cfg, Do(cfg, w, a))
  {
    hide NodeInv, Do;
    if Enabled(cfg, w, a) {
      var w' := Do(cfg, w, a);
      StepAdvances(cfg, w, a);
      forall p: nat | IsNode(cfg.shape, p)
        ensures TruthfulAt(cfg, w', p)
      {
        assert TruthfulAt(cfg, w, p);
        if p != Target(cfg, a) {
          OneNodeChanges(cfg, w, a, p);
        }
        if w'.nodes[p].info.rc == DER_SUCCESS {
          forall c: nat | Heard(w'.nodes[p], c)
            ensures IsNode(cfg.shape, c) && Succeeded(w'.nodes[c])
          {
            if !Heard(w.nodes[p], c) {
              assert NodeOk(cfg, w, c);
              OneResult(cfg, w, c);
            }
            SucceededStays(cfg, w, a, c);
          }
        }
      }
    } else {
      assert Do(cfg, w, a) == w by { DisabledIsNoop(cfg, w, a); }
    }
  }

  lemma DisabledIsNoop(cfg: Config, w: World, a: Step)
    requires Shaped(cfg, w) && !Enabled(cfg, w, a)
    ensures Do(cfg, w, a) == w
  {
  }

  lemma {:induction false} RunKeepsTruthful(cfg: Config, steps: seq<Step>)
    requires IsTree(cfg.shape)
    ensures Truthful(cfg, Run(cfg, steps))
  {
    hide Do;
    if steps != [] {
      RunKeepsTruthful(cfg, steps[..|steps| - 1]);
      RunKeepsNodes(cfg, steps[..|steps| - 1]);
      StepKeepsTruthful(cfg, Run(cfg, steps[..|steps| - 1]), steps[|steps| - 1]);
    }
  }

  /** A node that succeeded ran its handler and heard success from all its children. */
  lemma SuccessMeans(cfg: Config, w: World, p: nat, c: nat)
    requires Shaped(cfg, w) && AllNodesOk(cfg, w) && Truthful(cfg, w)
    requires IsNode(cfg.shape, p) && Succeeded(w.nodes[p])
    ensures w.nodes[p].dispatched == if Excluded(cfg, p) then 0 else 1
    ensures c in cfg.shape.lists[p] ==> IsNode(cfg.shape, c) && Succeeded(w.nodes[c])
  {
    assert NodeOk(cfg, w, p) && TruthfulAt(cfg, w, p);
    var n, kids := w.nodes[p], cfg.shape.lists[p];
    SuccessLocal(n, cfg.ops, kids, Excluded(cfg, p));
    if c in kids {
      assert Heard(n, c);
    }
  }

  lemma SuccessLocal(n: Node, ops: Ops, kids: seq<nat>, ex: bool)
    requires NodeInv(n, ops, kids, ex) && Succeeded(n)
    ensures n.info.rc == DER_SUCCESS && n.dispatched == if ex then 0 else 1
    ensures forall c :: c in kids ==> c in n.info.merged
  {
    hide Distinct;
    assert SentNum(n.info) == |kids| && n.info.children == {} && n.info.replied == [];
    assert kids[..|kids|] == kids;
  }

  /**
   Code 0 at the root is truthful: in every run, if the root's collective completed with code 0,
   every node of the tree completed with code 0 and ran its handler exactly once, except an
   excluded root, which did not run it.
   */
  lemma {:induction false} CodeZeroMeansAll(cfg: Config, steps: seq<Step>, x: nat)
    requires IsTree(cfg.shape) && IsNode(cfg.shape, x)
    requires Succeeded(Run(cfg, steps).nodes[cfg.shape.root])
    ensures
      var n := Run(cfg, steps).nodes[x];
      Succeeded(n) && n.dispatched == if Excluded(cfg, x) then 0 else 1
    decreases cfg.shape.order[x]
  {
    hide NodeInv, Run;
    var w := Run(cfg, steps);
    RunKeepsNodes(cfg, steps);
    RunKeepsTruthful(cfg, steps);
    if x != cfg.shape.root {
      var p := cfg.shape.parent[x];
      CodeZeroMeansAll(cfg, steps, p);
      assert ListsChildren(cfg.shape, p);
      SuccessMeans(cfg, w, p, x);
    }
    SuccessMeans(cfg, w, x, x);
  }

  // ----- One request per node -----

  lemma StepKeepsRequests(cfg: Config, w: World, a: Step)
    requires Shaped(cfg, w) && AllNodesOk(cfg, w) && RequestsOk(cfg, w)
    ensures RequestsOk(cfg, Do(cfg, w, a))
  {
    hide NodeInv;
    var s, w' := cfg.shape, Do(cfg, w, a);
    if Enabled(cfg, w, a) {
      StepAdvances(cfg, w, a);
      StepKeepsNode(cfg, w, a);
      forall c: nat | IsNode(s, c)
        ensures RequestOk(cfg, w', c)
      {
        assert RequestOk(cfg, w, c);
        if c != s.root {
          var p := s.parent[c];
          if p == Target(cfg, a) {
            SentFits(cfg, w', p);
            PrefixGrows(s.lists[p], SentNum(w.nodes[p].info), SentNum(w'.nodes[p].info), c);
          } else {
            OneNodeChanges(cfg, w, a, p);
          }
        }
        RequestStep(cfg, w, a, c);
      }
    }
  }

  lemma PrefixGrows(kids: seq<nat>, i: nat, j: nat, c: nat)
    requires i <= j <= |kids|
    ensures c in kids[..i] ==> c in kids[..j]
  {
    assert kids[..i] == kids[..j][..i];
  }

  lemma SentFits(cfg: Config, w: World, p: nat)
    requires Shaped(cfg, w) && IsNode(cfg.shape, p) && NodeOk(cfg, w, p)
    ensures SentNum(w.nodes[p].info) <= |cfg.shape.lists[p]|
  {
  }

  /** A step sends c at most one request, and then c is the next child of its parent. */
  lemma RequestStep(cfg: Config, w: World, a: Step, c: nat)
    requires Shaped(cfg, w) && AllNodesOk(cfg, w) && RequestsOk(cfg, w) && Enabled(cfg, w, a)
    requires IsNode(cfg.shape, c)
    ensures
      var w', s := Do(cfg, w, a), cfg.shape;
      w'.requests[c] == w.requests[c] ||
      (&& c != s.root && w.requests[c] == 0 && w'.requests[c] == 1
       && s.parent[c] == Target(cfg, a)
       && var n := SentNum(w'.nodes[s.parent[c]].info);
          n <= |s.lists[s.parent[c]]| && c in s.lists[s.parent[c]][..n])
  {
    hide ChildReply, LocalReply, Start, Dispatch, Settle, Forward, LocalState, Codes;
    var s := cfg.shape;
    if Sends(cfg, w, a) {
      var i, kids := w.nodes[a.g].phase.next, s.lists[a.g];
      assert NodeOk(cfg, w, a.g) && ListsChildren(s, a.g);
      ForwardAccounts(w.nodes[a.g], kids, a.o);
      PrefixExtends(kids, i);
      if c == kids[i] {
        assert c in kids;
        assert RequestOk(cfg, w, c);
      }
    }
  }

  /** No node is ever sent a second request, and the root none. */
  lemma {:induction false} OneRequestEach(cfg: Config, steps: seq<Step>)
    requires IsTree(cfg.shape)
    ensures RequestsOk(cfg, Run(cfg, steps))
    ensures forall c: nat :: IsNode(cfg.shape, c) ==> Run(cfg, steps).requests[c] <= 1
  {
    hide Do;
    if steps != [] {
      OneRequestEach(cfg, steps[..|steps| - 1]);
      RunKeepsNodes(cfg, steps[..|steps| - 1]);
      StepKeepsRequests(cfg, Run(cfg, steps[..|steps| - 1]), steps[|steps| - 1]);
    } else {
      assert forall c: nat :: IsNode(cfg.shape, c) ==> RequestOk(cfg, Init(cfg), c);
    }
    assert forall c: nat :: IsNode(cfg.shape, c) ==> RequestOk(cfg, Run(cfg, steps), c);
  }

  // ----- Every run ends, and the root has completed -----

  function Weight(n: Node, kids: seq<nat>): int {
    |n.info.children| +
    match n.phase
    case Waiting => 2 * |kids| + 5
    case Forwarding(i) => 2 * (|kids| - i) + 4
    case Forwarded => 3
    case Running => 2
    case Failing => 2
    case Finished => 1
  }

  ghost function TotalWeight(cfg: Config, w: World, upTo: nat): int
    requires Shaped(cfg, w) && upTo <= |w.nodes|
  {
    if upTo == 0 then 0
    else TotalWeight(cfg, w, upTo - 1) + Weight(w.nodes[upTo - 1], cfg.shape.lists[upTo - 1])
  }

  ghost function Measure(cfg: Config, w: World): int
    requires Shaped(cfg, w)
  {
    TotalWeight(cfg, w, |w.nodes|)
  }

  lemma {:induction false} OneWeightChanges(cfg: Config, w: World, w': World, g: nat, upTo: nat)
    requires Shaped(cfg, w) && Shaped(cfg, w') && upTo <= |w.nodes| && g < |w.nodes|
    requires forall x: nat :: x < |w.nodes| && x != g ==> w'.nodes[x] == w.nodes[x]
    ensures TotalWeight(cfg, w', upTo) - TotalWeight(cfg, w, upTo)
         == if g < upTo then Weight(w'.nodes[g], cfg.shape.lists[g]) - Weight(w.nodes[g], cfg.shape.lists[g]) else 0
  {
    if upTo > 0 {
      OneWeightChanges(cfg, w, w', g, upTo - 1);
    }
  }

  lemma {:induction false} WeightNonNegative(cfg: Config, w: World, upTo: nat)
    requires Shaped(cfg, w) && AllNodesOk(cfg, w) && upTo <= |w.nodes|
    ensures TotalWeight(cfg, w, upTo) >= 0
  {
    if upTo > 0 {
      WeightNonNegative(cfg, w, upTo - 1);
      assert NodeOk(cfg, w, upTo - 1);
    }
  }

  lemma ForwardWeighs(n: Node, kids: seq<nat>, o: SendOutcome)
    requires n.phase.Forwarding? && n.phase.next <= |kids| && n.info.childNum == |kids|
    ensures Weight(Forward(n, kids, o), kids) < Weight(n, kids)
  {
    if n.phase.next < |kids| {
      var c := kids[n.phase.next];
      assert n.info.children + {c} == if c in n.info.children then n.info.children else n.info.children + {c};
      assert |n.info.children + {c}| <= |n.info.children| + 1;
    }
  }

  lemma ReplyWeighs(n: Node, kids: seq<nat>, ops: Ops, c: nat, cciRc: int, hdr: int)
    requires c in n.info.children
    ensures Weight(n.(info := ChildReply(n.info, ops, c, cciRc, hdr)), kids) < Weight(n, kids)
  {
    assert |n.info.children - {c}| == |n.info.children| - 1;
  }

  lemma OthersWeigh(n: Node, kids: seq<nat>, ops: Ops, rc: int)
    ensures n.phase.Waiting? ==> Weight(Start(n, kids, rc), kids) < Weight(n, kids)
    ensures n.phase.Forwarded? ==> Weight(Dispatch(n, rc), kids) < Weight(n, kids)
    ensures n.phase.Failing? ==> Weight(Settle(n), kids) < Weight(n, kids)
    ensures n.phase.Running? ==>
              Weight(n.(phase := Finished, info := LocalReply(n.info, ops)), kids) < Weight(n, kids)
  {
  }

  lemma NodeWeightFalls(cfg: Config, w: World, a: Step)
    requires Shaped(cfg, w) && AllNodesOk(cfg, w) && Enabled(cfg, w, a)
    ensures IsNode(cfg.shape, Target(cfg, a))
    ensures
      var g := Target(cfg, a);
      Weight(Do(cfg, w, a).nodes[g], cfg.shape.lists[g]) < Weight(w.nodes[g], cfg.shape.lists[g])
  {
    hide ChildReply, LocalReply, Start, Dispatch, Settle, Forward, Accounted, Codes, LocalState, Weight;
    var g := Target(cfg, a);
    var n, kids := w.nodes[g], cfg.shape.lists[g];
    assert NodeOk(cfg, w, g);
    match a
    case StartRoot(rc) => OthersWeigh(n, kids, cfg.ops, rc);
    case Deliver(c, rc) => OthersWeigh(n, kids, cfg.ops, rc);
    case ForwardNext(_, o) => ForwardWeighs(n, kids, o);
    case DispatchLocal(_, rc) => OthersWeigh(n, kids, cfg.ops, rc);
    case FailureSettles(_) => OthersWeigh(n, kids, cfg.ops, DER_SUCCESS);
    case HandlerReplies(_) => OthersWeigh(n, kids, cfg.ops, DER_SUCCESS);
    case Answer(c) => ReplyWeighs(n, kids, cfg.ops, c, DER_SUCCESS, w.nodes[c].info.hdrRc);
    case Fail(c, rc, hdr) => ReplyWeighs(n, kids, cfg.ops, c, rc, hdr);
  }

  /** Every step that does something brings the run closer to its end. */
  lemma StepProgresses(cfg: Config, w: World, a: Step)
    requires Shaped(cfg, w) && AllNodesOk(cfg, w) && Enabled(cfg, w, a)
    ensures 0 <= Measure(cfg, Do(cfg, w, a)) < Measure(cfg, w)
  {
    hide Do, Enabled, Weight;
    var g := Target(cfg, a);
    NodeWeightFalls(cfg, w, a);
    forall x: nat | x < |w.nodes| && x != g
      ensures Do(cfg, w, a).nodes[x] == w.nodes[x]
    {
      OneNodeChanges(cfg, w, a, x);
    }
    OneWeightChanges(cfg, w, Do(cfg, w, a), g, |w.nodes|);
    StepKeepsNodes(cfg, w, a);
    WeightNonNegative(cfg, Do(cfg, w, a), |w.nodes|);
  }

  /** Nothing is left to happen. */
  ghost predicate Ended(cfg: Config, w: World)
    requires Shaped(cfg, w)
  {
    forall a: Step :: !Enabled(cfg, w, a)
  }

  /**
   Nothing is left to do at node g: its own steps are done and none of its RPCs is outstanding.
   Requests may still be under way to it or to others, or lost.
   */
  ghost predicate EndedAt(cfg: Config, w: World, g: nat)
    requires Shaped(cfg, w)
  {
    forall a: Step :: Target(cfg, a) == g && !a.Deliver? && !a.Answer? ==> !Enabled(cfg, w, a)
  }

  lemma OutstandingIsChild(cfg: Config, w: World, g: nat, c: nat)
    requires Shaped(cfg, w) && IsNode(cfg.shape, g) && NodeOk(cfg, w, g) && c in w.nodes[g].info.children
    ensures IsNode(cfg.shape, c) && c != cfg.shape.root && cfg.shape.parent[c] == g
  {
    assert ListsChildren(cfg.shape, g);
    assert c in cfg.shape.lists[g][..SentNum(w.nodes[g].info)];
    assert c in cfg.shape.lists[g];
  }

  lemma EndedNode(cfg: Config, w: World, g: nat)
    requires Shaped(cfg, w) && IsNode(cfg.shape, g) && NodeOk(cfg, w, g) && EndedAt(cfg, w, g)
    ensures w.nodes[g].phase.Waiting? || (w.nodes[g].phase.Finished? && w.nodes[g].info.children == {})
    ensures g == cfg.shape.root ==> !w.nodes[g].phase.Waiting?
  {
    var n := w.nodes[g];
    assert Target(cfg, StartRoot(0)) == cfg.shape.root && Target(cfg, ForwardNext(g, Sent)) == g;
    assert Target(cfg, DispatchLocal(g, 0)) == g && Target(cfg, HandlerReplies(g)) == g;
    assert Target(cfg, FailureSettles(g)) == g;
    if n.info.children != {} {
      var c :| c in n.info.children;
      OutstandingIsChild(cfg, w, g, c);
      assert Target(cfg, Fail(c, 1, 0)) == g && Enabled(cfg, w, Fail(c, 1, 0));
    }
  }

  /** At an end, what keeps a node from completing is a reply parked where the local dispatch failed. */
  lemma EndedParked(cfg: Config, w: World, g: nat)
    requires Shaped(cfg, w) && IsNode(cfg.shape, g) && NodeOk(cfg, w, g) && EndedAt(cfg, w, g)
    requires !w.nodes[g].phase.Waiting?
    ensures
      var n := w.nodes[g];
      && n.phase.Finished? && (|n.info.results| == 1 <==> n.info.replied == [])
      && (n.info.replied != [] ==> n.localFailed && cfg.ops.aggregates)
  {
    hide Enabled;
    EndedNode(cfg, w, g);
  }

  /** The step settles a failed dispatch at g while a reply is parked there. */
  ghost predicate LosesAt(cfg: Config, w: World, a: Step, g: nat)
    requires Shaped(cfg, w)
  {
    a == FailureSettles(g) && Enabled(cfg, w, a) && w.nodes[g].info.replied != []
  }

  /** Some step of the run does. */
  ghost predicate Lost(cfg: Config, steps: seq<Step>, g: nat)
    requires IsTree(cfg.shape)
  {
    exists k :: 0 <= k < |steps| && LosesAt(cfg, Run(cfg, steps[..k]), steps[k], g)
  }

  /** A parked reply that nobody will look at again. */
  predicate Stranded(n: Node) {
    n.phase.Finished? && n.localFailed && n.info.replied != []
  }

  lemma ReplyStrands(n: Node, ops: Ops, kids: seq<nat>, ex: bool, c: nat, cciRc: int, hdr: int)
    requires NodeInv(n, ops, kids, ex) && c in n.info.children
    ensures Stranded(n.(info := ChildReply(n.info, ops, c, cciRc, hdr))) <==> Stranded(n)
  {
    hide Accounted, Counters, Codes, Distinct;
  }

  lemma ForwardStrands(n: Node, ops: Ops, kids: seq<nat>, ex: bool, o: SendOutcome)
    requires NodeInv(n, ops, kids, ex) && n.phase.Forwarding?
    ensures !Stranded(n) && !Stranded(Forward(n, kids, o))
  {
    hide Accounted, Counters, Codes, Distinct;
  }

  lemma OthersStrand(n: Node, ops: Ops, kids: seq<nat>, ex: bool, rc: int)
    requires NodeInv(n, ops, kids, ex)
    ensures n.phase.Waiting? ==> !Stranded(n) && !Stranded(Start(n, kids, rc))
    ensures n.phase.Forwarded? ==> !Stranded(n) && !Stranded(Dispatch(n, rc))
    ensures n.phase.Failing? ==> !Stranded(n) && (Stranded(Settle(n)) <==> n.info.replied != [])
    ensures n.phase.Running? ==>
              !Stranded(n) && !Stranded(n.(phase := Finished, info := LocalReply(n.info, ops)))
  {
    hide Accounted, Counters, Codes, Distinct;
  }

  /** A reply is stranded by settling a failed dispatch and by nothing else, and for good. */
  lemma StepStrands(cfg: Config, w: World, a: Step, g: nat)
    requires Shaped(cfg, w) && AllNodesOk(cfg, w) && IsNode(cfg.shape, g)
    ensures Stranded(Do(cfg, w, a).nodes[g]) <==> Stranded(w.nodes[g]) || LosesAt(cfg, w, a, g)
  {
    hide ChildReply, LocalReply, Forward, Start, Dispatch, Settle, NodeInv, Stranded;
    if Enabled(cfg, w, a) {
      if g != Target(cfg, a) {
        OneNodeChanges(cfg, w, a, g);
      } else {
        assert NodeOk(cfg, w, g);
        var n, kids, ex := w.nodes[g], cfg.shape.lists[g], Excluded(cfg, g);
        match a
        case StartRoot(rc) => OthersStrand(n, cfg.ops, kids, ex, rc);
        case Deliver(c, rc) => OthersStrand(n, cfg.ops, kids, ex, rc);
        case ForwardNext(_, o) => ForwardStrands(n, cfg.ops, kids, ex, o);
        case DispatchLocal(_, rc) => OthersStrand(n, cfg.ops, kids, ex, rc);
        case FailureSettles(_) => OthersStrand(n, cfg.ops, kids, ex, DER_SUCCESS);
        case HandlerReplies(_) => OthersStrand(n, cfg.ops, kids, ex, DER_SUCCESS);
        case Answer(c) => ReplyStrands(n, cfg.ops, kids, ex, c, DER_SUCCESS, w.nodes[c].info.hdrRc);
        case Fail(c, rc, hdr) => ReplyStrands(n, cfg.ops, kids, ex, c, rc, hdr);
      }
    }
  }

  lemma LostLater(cfg: Config, steps: seq<Step>, g: nat)
    requires IsTree(cfg.shape) && steps != []
    ensures
      var init := steps[..|steps| - 1];
      Lost(cfg, steps, g) <==> Lost(cfg, init, g) || LosesAt(cfg, Run(cfg, init), steps[|steps| - 1], g)
  {
    hide Run, LosesAt;
    var init := steps[..|steps| - 1];
    forall k | 0 <= k < |init| ensures init[..k] == steps[..k] && init[k] == steps[k] {
    }
    if Lost(cfg, init, g) {
      var k :| 0 <= k < |init| && LosesAt(cfg, Run(cfg, init[..k]), init[k], g);
      assert LosesAt(cfg, Run(cfg, steps[..k]), steps[k], g);
    }
    if Lost(cfg, steps, g) {
      var k :| 0 <= k < |steps| && LosesAt(cfg, Run(cfg, steps[..k]), steps[k], g);
      assert k < |init| ==> LosesAt(cfg, Run(cfg, init[..k]), init[k], g);
    }
  }

  lemma {:induction false} LostIffStranded(cfg: Config, steps: seq<Step>, g: nat)
    requires IsTree(cfg.shape) && IsNode(cfg.shape, g)
    ensures Lost(cfg, steps, g) <==> Stranded(Run(cfg, steps).nodes[g])
    decreases |steps|
  {
    hide Do, LosesAt, Lost;
    if steps == [] {
      assert !Lost(cfg, steps, g) by { LostNever(cfg, g); }
    } else {
      var init, a := steps[..|steps| - 1], steps[|steps| - 1];
      LostIffStranded(cfg, init, g);
      RunKeepsNodes(cfg, init);
      StepStrands(cfg, Run(cfg, init), a, g);
      LostLater(cfg, steps, g);
    }
  }

  lemma LostNever(cfg: Config, g: nat)
    requires IsTree(cfg.shape)
    ensures !Lost(cfg, [], g)
  {
  }

  /**
   When nothing is left to do at a node that took part, whatever the rest of the tree does, it has
   completed exactly once if and only if no step of the run settled a failed local dispatch there
   while a child reply was parked.
   */
  lemma EndedCompletesIff(cfg: Config, steps: seq<Step>, g: nat)
    requires IsTree(cfg.shape) && IsNode(cfg.shape, g)
    requires EndedAt(cfg, Run(cfg, steps), g) && !Run(cfg, steps).nodes[g].phase.Waiting?
    ensures |Run(cfg, steps).nodes[g].info.results| == if Lost(cfg, steps, g) then 0 else 1
  {
    hide Run, Enabled, NodeInv, Lost, EndedAt;
    RunKeepsNodes(cfg, steps);
    assert NodeOk(cfg, Run(cfg, steps), g);
    EndedParked(cfg, Run(cfg, steps), g);
    LostIffStranded(cfg, steps, g);
    OneResult(cfg, Run(cfg, steps), g);
  }

  /**
   The root always takes part, so its collective completes exactly once or loses a parked reply,
   which takes a failed local dispatch.
   */
  lemma RootCompletes(cfg: Config, steps: seq<Step>)
    requires IsTree(cfg.shape) && EndedAt(cfg, Run(cfg, steps), cfg.shape.root)
    ensures |Run(cfg, steps).nodes[cfg.shape.root].info.results| == if Lost(cfg, steps, cfg.shape.root) then 0 else 1
    ensures Lost(cfg, steps, cfg.shape.root) ==> Run(cfg, steps).nodes[cfg.shape.root].localFailed
  {
    hide Run, Enabled, Lost, EndedAt, NodeInv;
    RunKeepsNodes(cfg, steps);
    assert NodeOk(cfg, Run(cfg, steps), cfg.shape.root);
    EndedNode(cfg, Run(cfg, steps), cfg.shape.root);
    EndedCompletesIff(cfg, steps, cfg.shape.root);
    LostIffStranded(cfg, steps, cfg.shape.root);
  }

  /** A run in which nothing is left to happen has ended at every node. */
  lemma EndedEverywhere(cfg: Config, w: World, g: nat)
    requires Shaped(cfg, w) && Ended(cfg, w)
    ensures EndedAt(cfg, w, g)
  {
  }

  // ----- A run that loses a reply -----

  /** A root with one child, whose opcode aggregates replies. */
  ghost function Pair(): Config {
    Config(Shape(0, [0, 0], [0, 1], [[1], []]), Ops(true, true), false)
  }

  lemma PairIsTree()
    ensures IsTree(Pair().shape)
  {
    var s := Pair().shape;
    assert ListsChildren(s, 0) && ListsChildren(s, 1);
  }

  lemma RunNext(cfg: Config, steps: seq<Step>, a: Step)
    requires IsTree(cfg.shape)
    ensures Run(cfg, steps + [a]) == Do(cfg, Run(cfg, steps), a)
  {
    assert (steps + [a])[..|steps|] == steps;
  }

  /** The pair with these two nodes, and r requests to the child. */
  function Both(root: Node, child: Node, r: nat): World {
    World([root, child], [0, r])
  }

  function Idle(): Info {
    Fresh(false)
  }

  /** The root, having forwarded to its child. */
  function Asked(): Node {
    Node(Forwarded, Idle().(childNum := 1, children := {1}), 0, false)
  }

  lemma RootAsks()
    ensures IsTree(Pair().shape)
    ensures
      var cfg, w0 := Pair(), Both(Node(Waiting, Idle(), 0, false), Node(Waiting, Idle(), 0, false), 0);
      && var w1 := Do(cfg, w0, StartRoot(DER_SUCCESS));
      && var w2 := Do(cfg, w1, ForwardNext(0, Sent));
      && Do(cfg, w2, ForwardNext(0, Sent)) == Both(Asked(), Node(Waiting, Idle(), 0, false), 1)
  {
    PairIsTree();
    var cfg, n := Pair(), Node(Waiting, Idle(), 0, false);
    assert cfg.shape.lists[0] == [1];
    var w1 := Do(cfg, Both(n, n, 0), StartRoot(DER_SUCCESS));
    assert w1 == Both(Node(Forwarding(0), Idle().(childNum := 1), 0, false), n, 0);
    var w2 := Do(cfg, w1, ForwardNext(0, Sent));
    assert Idle().children + {1} == {1};
    assert w2 == Both(Node(Forwarding(1), Idle().(childNum := 1, children := {1}), 0, false), n, 1);
  }

  /** The root, whose handler has replied while the child is outstanding. */
  function Replied(): Node {
    Node(Finished, Asked().info.(ackNum := 1, localDone := true, localAcked := true), 1, false)
  }

  /** The root after the RPC to its child has failed with rc. */
  function GaveUp(rc: int): Node {
    Node(Finished, Replied().info.(children := {}, merged := [1], ackNum := 2, rc := rc, hdrRc := rc, results := [rc]),
         1, false)
  }

  lemma RootReplies()
    ensures IsTree(Pair().shape)
    ensures
      var cfg, w0 := Pair(), Both(Asked(), Node(Waiting, Idle(), 0, false), 1);
      Do(cfg, Do(cfg, w0, DispatchLocal(0, DER_SUCCESS)), HandlerReplies(0))
        == Both(Replied(), Node(Waiting, Idle(), 0, false), 1)
  {
    PairIsTree();
    var cfg, w0 := Pair(), Both(Asked(), Node(Waiting, Idle(), 0, false), 1);
    var w1 := Do(cfg, w0, DispatchLocal(0, DER_SUCCESS));
    assert w1 == Both(Node(Running, Asked().info, 1, false), Node(Waiting, Idle(), 0, false), 1);
    RepliedInfo();
    hide LocalReply;
  }

  lemma RepliedInfo()
    ensures LocalReply(Asked().info, Pair().ops) == Replied().info
  {
    var n := Asked().info;
    assert NoteErrors(n, DER_SUCCESS, n.hdrRc) == n;
    DrainNothing(n.(localDone := true));
    hide Drain, NoteErrors;
    assert CompleteIfDone(Replied().info) == Replied().info;
    hide CompleteIfDone;
  }

  lemma DrainNothing(n: Info)
    requires n.replied == []
    ensures Drain(n) == n
  {
    assert n.merged + [] == n.merged;
  }

  lemma RootGivesUp(rc: int)
    requires rc != DER_SUCCESS
    ensures IsTree(Pair().shape)
    ensures
      var n := Node(Waiting, Idle(), 0, false);
      Do(Pair(), Both(Replied(), n, 1), Fail(1, rc, DER_SUCCESS)) == Both(GaveUp(rc), n, 1)
  {
    PairIsTree();
    var info := ChildReply(Replied().info, Pair().ops, 1, rc, DER_SUCCESS);
    assert info.children == {} && info.merged == [1];
    assert info == GaveUp(rc).info;
  }

  lemma GivenUpEnded(rc: int)
    requires IsTree(Pair().shape)
    ensures
      var w := Both(GaveUp(rc), Node(Waiting, Idle(), 0, false), 1);
      EndedAt(Pair(), w, 0) && !Ended(Pair(), w)
  {
    assert Enabled(Pair(), Both(GaveUp(rc), Node(Waiting, Idle(), 0, false), 1), Deliver(1, 0));
  }

  /**
   A request that never arrives does not keep the root from completing: here the RPC to the child
   fails with rc while the child is still waiting for the request.
   */
  lemma LostRequestCompletes(rc: int) returns (steps: seq<Step>)
    requires rc != DER_SUCCESS
    ensures IsTree(Pair().shape)
    ensures
      var w := Run(Pair(), steps);
      && EndedAt(Pair(), w, 0) && !Ended(Pair(), w) && w.nodes[0].info.results == [rc]
      && w.nodes[1].phase.Waiting? && w.requests[1] == 1
  {
    PairIsTree();
    var cfg, n := Pair(), Node(Waiting, Idle(), 0, false);
    assert Run(cfg, []) == Both(n, n, 0);
    RootAsks();
    RootReplies();
    RootGivesUp(rc);
    GivenUpEnded(rc);
    hide Run, Do, Ended, EndedAt;
    RunThree(cfg, [], StartRoot(DER_SUCCESS), ForwardNext(0, Sent), ForwardNext(0, Sent));
    var s1 := [] + [StartRoot(DER_SUCCESS)] + [ForwardNext(0, Sent)] + [ForwardNext(0, Sent)];
    RunThree(cfg, s1, DispatchLocal(0, DER_SUCCESS), HandlerReplies(0), Fail(1, rc, DER_SUCCESS));
    steps := s1 + [DispatchLocal(0, DER_SUCCESS)] + [HandlerReplies(0)] + [Fail(1, rc, DER_SUCCESS)];
  }

  /** The child, having answered. */
  function Answered(): Node {
    Node(Finished, Idle().(ackNum := 1, localDone := true, localAcked := true, results := [DER_SUCCESS]), 1, false)
  }

  lemma ChildAnswers()
    ensures IsTree(Pair().shape)
    ensures
      var cfg, w0 := Pair(), Both(Asked(), Node(Waiting, Idle(), 0, false), 1);
      && var w1 := Do(cfg, w0, Deliver(1, DER_SUCCESS));
      && var w2 := Do(cfg, w1, ForwardNext(1, Sent));
      && var w3 := Do(cfg, w2, DispatchLocal(1, DER_SUCCESS));
      && Do(cfg, w3, HandlerReplies(1)) == Both(Asked(), Answered(), 1)
  {
    PairIsTree();
    var cfg, w0 := Pair(), Both(Asked(), Node(Waiting, Idle(), 0, false), 1);
    assert cfg.shape.lists[1] == [];
    var w1 := Do(cfg, w0, Deliver(1, DER_SUCCESS));
    assert w1 == Both(Asked(), Node(Forwarding(0), Idle(), 0, false), 1);
    var w2 := Do(cfg, w1, ForwardNext(1, Sent));
    assert w2 == Both(Asked(), Node(Forwarded, Idle(), 0, false), 1);
    var w3 := Do(cfg, w2, DispatchLocal(1, DER_SUCCESS));
    assert w3 == Both(Asked(), Node(Running, Idle(), 1, false), 1);
    var info := LocalReply(Idle(), cfg.ops);
    assert info.merged == [] && info.results == [DER_SUCCESS];
    assert info == Answered().info;
  }

  /** The root, whose own dispatch failed after it parked the child's reply. */
  function Failed(rc: int, settled: bool): Node {
    Node(if settled then Finished else Failing,
         Idle().(childNum := 1, replied := [1], failedNum := 1, rc := rc, hdrRc := rc, localDone := settled), 0, true)
  }

  lemma RootFails(rc: int)
    requires rc != DER_SUCCESS
    ensures IsTree(Pair().shape)
    ensures
      var cfg := Pair();
      && var w1 := Do(cfg, Both(Asked(), Answered(), 1), Answer(1));
      && Do(cfg, w1, DispatchLocal(0, rc)) == Both(Failed(rc, false), Answered(), 1)
    ensures Do(Pair(), Both(Failed(rc, false), Answered(), 1), FailureSettles(0))
         == Both(Failed(rc, true), Answered(), 1)
  {
    PairIsTree();
    ParkedInfo();
    FailedInfo(rc);
    hide ChildReply, FailChildren;
    var parked := Node(Forwarded, Idle().(childNum := 1, replied := [1]), 0, false);
    assert Do(Pair(), Both(Asked(), Answered(), 1), Answer(1)) == Both(parked, Answered(), 1);
    assert Do(Pair(), Both(parked, Answered(), 1), DispatchLocal(0, rc)) == Both(Failed(rc, false), Answered(), 1);
  }

  lemma ParkedInfo()
    ensures ChildReply(Asked().info, Pair().ops, 1, DER_SUCCESS, DER_SUCCESS) == Idle().(childNum := 1, replied := [1])
  {
    var i, parked := Asked().info, Idle().(childNum := 1, replied := [1]);
    assert NoteErrors(i, DER_SUCCESS, DER_SUCCESS) == i;
    assert Park(i, 1) == parked by { ParkOne(i, 1); }
    hide Park;
    assert CompleteIfDone(parked) == parked;
  }

  lemma ParkOne(n: Info, c: nat)
    requires n.children == {c} && n.replied == []
    ensures Park(n, c) == n.(children := {}, replied := [c])
  {
  }

  lemma FailedInfo(rc: int)
    ensures FailChildren(Idle().(childNum := 1, replied := [1]), 1, rc) == Failed(rc, false).info
  {
  }

  lemma FailedPairEnded(rc: int)
    requires IsTree(Pair().shape)
    ensures Ended(Pair(), Both(Failed(rc, true), Answered(), 1))
  {
  }

  /**
   The exception is real: in this run the child's reply arrives, the root's own dispatch fails
   with rc, the run ends, and the root's collective has not completed.
   */
  lemma ParkedReplyIsLost(rc: int) returns (steps: seq<Step>)
    requires rc != DER_SUCCESS
    ensures IsTree(Pair().shape)
    ensures Ended(Pair(), Run(Pair(), steps)) && Run(Pair(), steps).nodes[0].info.results == []
    ensures Lost(Pair(), steps, 0)
  {
    PairIsTree();
    var cfg, n := Pair(), Node(Waiting, Idle(), 0, false);
    assert Run(cfg, []) == Both(n, n, 0);
    RootAsks();
    ChildAnswers();
    RootFails(rc);
    FailedPairEnded(rc);
    hide Run, Do, Ended;
    RunThree(cfg, [], StartRoot(DER_SUCCESS), ForwardNext(0, Sent), ForwardNext(0, Sent));
    var s1 := [] + [StartRoot(DER_SUCCESS)] + [ForwardNext(0, Sent)] + [ForwardNext(0, Sent)];
    RunThree(cfg, s1, Deliver(1, DER_SUCCESS), ForwardNext(1, Sent), DispatchLocal(1, DER_SUCCESS));
    var s2 := s1 + [Deliver(1, DER_SUCCESS)] + [ForwardNext(1, Sent)] + [DispatchLocal(1, DER_SUCCESS)];
    RunThree(cfg, s2, HandlerReplies(1), Answer(1), DispatchLocal(0, rc));
    var s3 := s2 + [HandlerReplies(1)] + [Answer(1)] + [DispatchLocal(0, rc)];
    RunNext(cfg, s3, FailureSettles(0));
    steps := s3 + [FailureSettles(0)];
    assert steps[..|s3|] == s3 && LosesAt(cfg, Run(cfg, steps[..|s3|]), steps[|s3|], 0);
  }

  lemma RunThree(cfg: Config, steps: seq<Step>, a: Step, b: Step, c: Step)
    requires IsTree(cfg.shape)
    ensures Run(cfg, steps + [a] + [b] + [c]) == Do(cfg, Do(cfg, Do(cfg, Run(cfg, steps), a), b), c)
  {
    hide Run, Do;
    RunNext(cfg, steps, a);
    RunNext(cfg, steps + [a], b);
    RunNext(cfg, steps + [a] + [b], c);
  }
}
