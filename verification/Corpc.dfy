/**
 One node of a collective RPC: the counters of crt_corpc_info in src/cart/crt_corpc.c and the
 lock-protected sections that change them.

 `Info` is the record as a value and the functions below are the critical sections; class
 CorpcInfo is the record as the code updates it in place, with methods proved against them.
 */
module Corpc {
  import opened RankList

  /** coi_co_ops is not NULL; cr_output_size > 0 */
  datatype Ops = Ops(aggregates: bool, hasOutput: bool)

  /**
   crt_corpc_info with the reply header code (cch_rc).  `children` is co_child_rpcs and
   `replied` is co_replied_rpcs.  Three histories are added: `merged` lists the child replies
   counted so far, `copies` counts those that were copied rather than aggregated, and
   `results` lists the codes of all completions.
   */
  datatype Info = Info(rootExcluded: bool, childNum: nat, ackNum: nat, failedNum: nat, localDone: bool,
                       rc: int, hdrRc: int, children: set<nat>, replied: seq<nat>,
                       merged: seq<nat>, copies: nat, localAcked: bool, results: seq<int>)

  const DER_SUCCESS: int := 0

  function Fresh(rootExcluded: bool): Info {
    Info(rootExcluded, 0, 0, 0, false, DER_SUCCESS, DER_SUCCESS, {}, [], [], 0, false, [])
  }

  /** What must be accounted for: every child and, unless the root is excluded, the local handler. */
  function WaitNum(n: Info): nat {
    n.childNum + if n.rootExcluded then 0 else 1
  }

  function DoneNum(n: Info): nat {
    n.ackNum + n.failedNum
  }

  /** crt_corpc_fail_parent_rpc */
  function FailParent(n: Info, rc: int): Info {
    n.(rc := rc, hdrRc := rc)
  }

  /** crt_corpc_complete: the root's callback gets co_rc, another node replies with its header code. */
  function Complete(n: Info): Info {
    n.(hdrRc := if n.rc != DER_SUCCESS then n.rc else n.hdrRc,
       results := n.results + [n.rc])
  }

  function CompleteIfDone(n: Info): Info {
    var done := DoneNum(n) == WaitNum(n);
    n.(hdrRc := if done && n.rc != DER_SUCCESS then n.rc else n.hdrRc,
       results := if done then n.results + [n.rc] else n.results)
  }

  /** crt_corpc_fail_child_rpc */
  function FailChildren(n: Info, failed: nat, rc: int): Info {
    CompleteIfDone(FailParent(n.(failedNum := n.failedNum + failed), rc))
  }

  /** The error propagation at the start of crt_corpc_reply_hdlr. */
  function NoteErrors(n: Info, cciRc: int, childHdr: int): Info {
    n.(localDone := n.localDone || n.rootExcluded,
       rc := if childHdr != DER_SUCCESS then childHdr else if cciRc != DER_SUCCESS then cciRc else n.rc,
       hdrRc := if childHdr != DER_SUCCESS then childHdr else n.hdrRc)
  }

  /** Aggregate the replies parked in co_replied_rpcs. */
  function Drain(n: Info): Info {
    n.(ackNum := n.ackNum + |n.replied|, merged := n.merged + n.replied, replied := [])
  }

  /** Count the reply of child c: copied if it is the first and the root is excluded, else aggregated. */
  function Merge(n: Info, ops: Ops, c: nat): Info {
    n.(ackNum := n.ackNum + 1, children := n.children - {c}, merged := n.merged + [c],
       copies := n.copies + if ops.aggregates && n.rootExcluded && n.ackNum == 0 && ops.hasOutput then 1 else 0)
  }

  function Park(n: Info, c: nat): Info {
    n.(children := n.children - {c}, replied := n.replied + [c])
  }

  /** crt_corpc_reply_hdlr for the reply of child c */
  function ChildReply(n: Info, ops: Ops, c: nat, cciRc: int, childHdr: int): Info {
    var n1 := NoteErrors(n, cciRc, childHdr);
    CompleteIfDone(if ops.aggregates && !n1.localDone then Park(n1, c) else Merge(n1, ops, c))
  }

  /** crt_corpc_reply_hdlr for the reply of the local handler, whose header is the parent's own */
  function LocalReply(n: Info, ops: Ops): Info {
    var n1 := NoteErrors(n, DER_SUCCESS, n.hdrRc);
    var n2 := if ops.aggregates then Drain(n1.(localDone := true)) else n1;
    CompleteIfDone(n2.(ackNum := n2.ackNum + 1, localAcked := true))
  }

  /** crt_corpc_info as updated in place */
  class CorpcInfo {
    const rootExcluded: bool
    const ops: Ops
    var childNum: nat
    var ackNum: nat
    var failedNum: nat
    var localDone: bool
    var rc: int
    var hdrRc: int
    var children: set<nat>
    var replied: seq<nat>
    var merged: seq<nat>
    var copies: nat
    ghost var localAcked: bool
    ghost var results: seq<int>

    ghost function View(): Info
      reads this
    {
      Info(rootExcluded, childNum, ackNum, failedNum, localDone, rc, hdrRc, children, replied,
           merged, copies, localAcked, results)
    }

    /** crt_corpc_info_init */
    constructor (rootExcluded: bool, ops: Ops)
      ensures View() == Fresh(rootExcluded) && this.ops == ops
    {
      this.rootExcluded, this.ops := rootExcluded, ops;
      childNum, ackNum, failedNum, localDone, rc, hdrRc := 0, 0, 0, false, DER_SUCCESS, DER_SUCCESS;
      children, replied, merged, copies, localAcked, results := {}, [], [], 0, false, [];
    }

    method FailParentRpc(failedRc: int)
      modifies this
      ensures View() == FailParent(old(View()), failedRc)
    {
      hdrRc := failedRc;
      rc := failedRc;
    }

    method CompleteRpc()
      modifies this
      ensures View() == Complete(old(View()))
    {
      results := results + [rc];
      if rc != DER_SUCCESS {
        hdrRc := rc;
      }
    }

    method FailChildRpc(failed: nat, failedRc: int)
      modifies this
      ensures View() == FailChildren(old(View()), failed, failedRc)
    {
      var waitNum := childNum;
      if !rootExcluded {
        waitNum := waitNum + 1;
      }
      var doneNum := ackNum + failedNum + failed;
      rc := failedRc;
      failedNum := failedNum + failed;
      FailParentRpc(failedRc);
      if waitNum == doneNum {
        CompleteRpc();
      }
    }

    /** crt_corpc_reply_hdlr; `local` says that the handler on this node replied, else child c did. */
    method ReplyHdlr(local: bool, c: nat, cciRc: int, childHdr: int)
      requires local ==> !rootExcluded && cciRc == DER_SUCCESS && childHdr == hdrRc
      modifies this
      ensures View() == if local then LocalReply(old(View()), ops)
                        else ChildReply(old(View()), ops, c, cciRc, childHdr)
    {
      hide CompleteIfDone, NoteErrors;
      NoteErrorCodes(cciRc, childHdr);
      if local {
        if ops.aggregates {
          localDone := true;
          DrainReplied();
        }
        ackNum := ackNum + 1;
        localAcked := true;
      } else if !ops.aggregates || localDone {
        MergeReply(c);
      } else {
        children := children - {c};
        replied := replied + [c];
      }
      CompleteWhenDone();
    }

    /** The end of crt_corpc_reply_hdlr. */
    method CompleteWhenDone()
      modifies this
      ensures View() == CompleteIfDone(old(View()))
    {
      var waitNum := childNum + if rootExcluded then 0 else 1;
      if waitNum == ackNum + failedNum {
        CompleteRpc();
      }
    }

    method NoteErrorCodes(cciRc: int, childHdr: int)
      modifies this
      ensures View() == NoteErrors(old(View()), cciRc, childHdr)
    {
      if rootExcluded {
        localDone := true;
      }
      if cciRc != DER_SUCCESS {
        rc := cciRc;
      }
      if childHdr != DER_SUCCESS {
        FailParentRpc(childHdr);
      }
    }

    method MergeReply(c: nat)
      modifies this
      ensures View() == Merge(old(View()), ops, c)
    {
      if ops.aggregates && rootExcluded && ackNum == 0 && ops.hasOutput {
        copies := copies + 1;
      }
      merged := merged + [c];
      ackNum := ackNum + 1;
      children := children - {c};
    }

    /** The loop that aggregates previously replied RPCs. */
    method DrainReplied()
      modifies this
      ensures View() == Drain(old(View()))
    {
      while replied != []
        invariant View() == old(View()).(ackNum := ackNum, merged := merged, replied := replied)
        invariant ackNum + |replied| == old(ackNum + |replied|)
        invariant merged + replied == old(merged + replied)
        decreases |replied|
      {
        merged := merged + [replied[0]];
        ackNum := ackNum + 1;
        replied := replied[1..];
      }
    }
  }

  // ----- What one node keeps -----

  /**
   Where crt_corpc_req_hdlr is: not started, about to forward to child i, forwarded, handler
   running, between the two locked sections after a failed local dispatch, returned.
   */
  datatype Phase = Waiting | Forwarding(next: nat) | Forwarded | Running | Failing | Finished

  /** `dispatched` counts handler runs; `localFailed` says that the local dispatch failed. */
  datatype Node = Node(phase: Phase, info: Info, dispatched: nat, localFailed: bool)

  function SentNum(n: Info): nat {
    |n.children| + |n.replied| + |n.merged|
  }

  /** Children given up without an RPC. */
  function FailedUnsent(n: Node): int {
    n.info.failedNum - if n.localFailed then 1 else 0
  }

  /** A collective with no child and an excluded root waits for nothing and completes after forwarding. */
  predicate Noop(n: Node) {
    n.info.rootExcluded && n.info.childNum == 0 && (n.phase.Forwarding? || n.phase.Forwarded?)
  }

  /** The replies counted or parked and the RPCs outstanding are those of the first children, each once. */
  ghost predicate Accounted(n: Info, kids: seq<nat>) {
    && SentNum(n) <= |kids|
    && Distinct(n.merged) && Distinct(n.replied)
    && (forall c :: c in n.merged ==> c !in n.replied && c !in n.children)
    && (forall c :: c in n.replied ==> c !in n.children)
    && (forall c :: c in n.merged || c in n.replied || c in n.children <==> c in kids[..SentNum(n)])
  }

  ghost predicate Counters(n: Node) {
    && FailedUnsent(n) >= 0
    && (if n.phase.Forwarding?
        then SentNum(n.info) == n.phase.next <= n.info.childNum && n.info.failedNum == 0
        else SentNum(n.info) + FailedUnsent(n) == n.info.childNum)
    && n.info.ackNum == |n.info.merged| + (if n.info.localAcked then 1 else 0)
    && |n.info.results| == (if DoneNum(n.info) == WaitNum(n.info) && !Noop(n) then 1 else 0)
  }

  ghost predicate LocalState(n: Node, ops: Ops) {
    && (n.info.localAcked ==> n.phase.Finished? && !n.info.rootExcluded)
    && (n.localFailed ==> (n.phase.Failing? || n.phase.Finished?) && !n.info.rootExcluded)
    && !(n.info.localAcked && n.localFailed)
    && (n.phase.Finished? && !n.info.rootExcluded ==> n.info.localAcked || n.localFailed)
    && (n.phase.Failing? ==> n.localFailed)
    && (n.phase.Running? ==> !n.info.rootExcluded)
    && n.dispatched == (if n.phase.Running? || n.info.localAcked then 1 else 0)
    // a child reply is used only once the local reply is ready, unless the root is excluded
    && (ops.aggregates && n.info.merged != [] ==> n.info.localDone)
    && (n.info.localDone ==> n.info.rootExcluded || n.info.localAcked || (n.localFailed && n.phase.Finished?))
    && (n.localFailed && n.phase.Finished? ==> n.info.localDone)
    && (n.info.localAcked && ops.aggregates ==> n.info.localDone)
    && (n.info.replied != [] ==> ops.aggregates && !n.info.rootExcluded && !n.info.localAcked)
    && n.info.copies == (if ops.aggregates && ops.hasOutput && n.info.rootExcluded && n.info.merged != [] then 1 else 0)
  }

  ghost predicate Codes(n: Node, kids: seq<nat>) {
    && (n.info.rc == DER_SUCCESS ==>
          n.info.hdrRc == DER_SUCCESS && n.info.failedNum == 0 && n.info.childNum == |kids|)
    && (n.info.results != [] ==>
          n.info.results[0] == n.info.rc == n.info.hdrRc)
  }

  ghost predicate NodeInv(n: Node, ops: Ops, kids: seq<nat>, excluded: bool) {
    && n.info.rootExcluded == excluded
    && Distinct(kids) && n.info.childNum <= |kids| && (n.phase.Forwarding? ==> n.info.childNum == |kids|)
    && (if n.phase.Waiting? then n == Node(Waiting, Fresh(excluded), 0, false)
        else Accounted(n.info, kids) && Counters(n) && LocalState(n, ops) && Codes(n, kids))
  }

  // ----- The steps of one node -----

  /** Entry of crt_corpc_req_hdlr: the pre-forward callback, the rank, the tree and the version are checked. */
  function Start(n: Node, kids: seq<nat>, rc: int): Node {
    if rc == DER_SUCCESS then n.(phase := Forwarding(0), info := n.info.(childNum := |kids|))
    else n.(phase := Forwarded, info := FailParent(n.info, rc))
  }

  datatype SendOutcome = Sent | SendFailed(rc: int) | CreateFailed(rc: int)

  /** One round of the forwarding loop, or its end. */
  function Forward(n: Node, kids: seq<nat>, o: SendOutcome): Node
    requires n.phase.Forwarding?
  {
    var i, n' := n.phase.next, n.info;
    if i >= n'.childNum || i >= |kids| then n.(phase := Forwarded)
    else
      match o
      case Sent => n.(phase := Forwarding(i + 1), info := n'.(children := n'.children + {kids[i]}))
      case CreateFailed(rc) => n.(phase := Forwarded, info := FailChildren(n', n'.childNum - i, rc))
      case SendFailed(rc) =>
        var n1 := n'.(children := n'.children + {kids[i]});
        n.(phase := Forwarded,
           info := if i != n'.childNum - 1 then FailChildren(n1, n'.childNum - i - 1, rc) else n1)
  }

  /** The end of crt_corpc_req_hdlr: an empty collective completes, or the handler is dispatched. */
  function Dispatch(n: Node, rc: int): Node {
    var n1 := if n.info.childNum == 0 && n.info.rootExcluded then Complete(n.info) else n.info;
    if n.info.rootExcluded then n.(phase := Finished, info := n1)
    else if rc == DER_SUCCESS then n.(phase := Running, dispatched := n.dispatched + 1)
    else n.(phase := Failing, info := FailChildren(n.info, 1, rc), localFailed := true)
  }

  /** The second locked section after a failed local dispatch: replies already parked stay where they are. */
  function Settle(n: Node): Node {
    n.(phase := Finished, info := n.info.(localDone := true))
  }

  lemma {:induction false} PrefixExtends(kids: seq<nat>, i: nat)
    requires Distinct(kids) && i < |kids|
    ensures kids[..i + 1] == kids[..i] + [kids[i]] && kids[i] !in kids[..i]
  {
  }

  lemma StartKeeps(n: Node, ops: Ops, kids: seq<nat>, excluded: bool, rc: int)
    requires NodeInv(n, ops, kids, excluded) && n.phase.Waiting?
    ensures NodeInv(Start(n, kids, rc), ops, kids, excluded)
  {
  }

  lemma SendAccounts(n: Info, kids: seq<nat>)
    requires Distinct(kids) && Accounted(n, kids) && SentNum(n) < |kids|
    ensures
      var n' := n.(children := n.children + {kids[SentNum(n)]});
      Accounted(n', kids) && SentNum(n') == SentNum(n) + 1
  {
    hide Distinct;
    PrefixExtends(kids, SentNum(n));
    var c := kids[SentNum(n)];
    assert c !in n.children && c !in n.merged && c !in n.replied;
  }

  /** Accounts depend on the lists only. */
  lemma SameAccounts(n: Info, n': Info, kids: seq<nat>)
    requires Accounted(n, kids)
    requires n.children == n'.children && n.replied == n'.replied && n.merged == n'.merged
    ensures Accounted(n', kids) && SentNum(n') == SentNum(n)
  {
  }

  lemma ForwardAccounts(n: Node, kids: seq<nat>, o: SendOutcome)
    requires n.phase.Forwarding? && Distinct(kids) && Accounted(n.info, kids)
    requires n.info.childNum == |kids| && SentNum(n.info) == n.phase.next
    ensures Accounted(Forward(n, kids, o).info, kids)
    ensures SentNum(Forward(n, kids, o).info)
         == n.phase.next + if n.phase.next < |kids| && !o.CreateFailed? then 1 else 0
  {
    hide Accounted;
    var i, n' := n.phase.next, Forward(n, kids, o);
    if i >= n.info.childNum || o.CreateFailed? {
      SameAccounts(n.info, n'.info, kids);
    } else {
      SendAccounts(n.info, kids);
      SameAccounts(n.info.(children := n.info.children + {kids[i]}), n'.info, kids);
    }
  }

  /** While children are left to forward to the collective has not completed. */
  lemma StillForwarding(n: Node, ops: Ops, kids: seq<nat>, excluded: bool)
    requires NodeInv(n, ops, kids, excluded) && n.phase.Forwarding?
    ensures !n.info.localAcked && !n.localFailed
    ensures n.phase.next < |kids| ==> DoneNum(n.info) < |kids| && n.info.results == []
  {
  }

  lemma ForwardCounters(n: Node, ops: Ops, kids: seq<nat>, excluded: bool, o: SendOutcome)
    requires NodeInv(n, ops, kids, excluded) && n.phase.Forwarding?
    ensures Counters(Forward(n, kids, o)) && Accounted(Forward(n, kids, o).info, kids)
  {
    ForwardAccounts(n, kids, o);
    StillForwarding(n, ops, kids, excluded);
    hide Accounted, SentNum, LocalState, Codes, Distinct;
  }

  lemma ForwardRest(n: Node, ops: Ops, kids: seq<nat>, excluded: bool, o: SendOutcome)
    requires NodeInv(n, ops, kids, excluded) && n.phase.Forwarding?
    requires o.Sent? || o.rc != DER_SUCCESS
    ensures LocalState(Forward(n, kids, o), ops) && Codes(Forward(n, kids, o), kids)
  {
    StillForwarding(n, ops, kids, excluded);
    hide Accounted, Counters, Distinct;
  }

  lemma ForwardKeeps(n: Node, ops: Ops, kids: seq<nat>, excluded: bool, o: SendOutcome)
    requires NodeInv(n, ops, kids, excluded) && n.phase.Forwarding?
    requires o.Sent? || o.rc != DER_SUCCESS
    ensures NodeInv(Forward(n, kids, o), ops, kids, excluded)
  {
    hide Accounted, Counters, LocalState, Codes, Distinct;
    ForwardCounters(n, ops, kids, excluded, o);
    ForwardRest(n, ops, kids, excluded, o);
  }

  lemma DispatchKeeps(n: Node, ops: Ops, kids: seq<nat>, excluded: bool, rc: int)
    requires NodeInv(n, ops, kids, excluded) && n.phase.Forwarded?
    ensures NodeInv(Dispatch(n, rc), ops, kids, excluded)
  {
  }

  lemma SettleKeeps(n: Node, ops: Ops, kids: seq<nat>, excluded: bool)
    requires NodeInv(n, ops, kids, excluded) && n.phase.Failing?
    ensures NodeInv(Settle(n), ops, kids, excluded)
  {
    hide Distinct;
    SameAccounts(n.info, Settle(n).info, kids);
  }

  /** The state and the step of the local reply, one part of the invariant at a time. */
  lemma LocalReplyCounters(n: Node, ops: Ops, kids: seq<nat>, excluded: bool)
    requires NodeInv(n, ops, kids, excluded) && n.phase.Running?
    ensures Counters(n.(phase := Finished, info := LocalReply(n.info, ops)))
    ensures Accounted(LocalReply(n.info, ops), kids)
  {
    hide Codes;
    var n' := LocalReply(n.info, ops);
    assert n'.merged == if ops.aggregates then n.info.merged + n.info.replied else n.info.merged;
    assert n.info.merged + [] == n.info.merged;
    assert forall c :: c in n.info.merged + n.info.replied <==> c in n.info.merged || c in n.info.replied;
  }

  lemma LocalReplyRest(n: Node, ops: Ops, kids: seq<nat>, excluded: bool)
    requires NodeInv(n, ops, kids, excluded) && n.phase.Running?
    ensures LocalState(n.(phase := Finished, info := LocalReply(n.info, ops)), ops)
    ensures Codes(n.(phase := Finished, info := LocalReply(n.info, ops)), kids)
  {
    hide Accounted;
    assert DoneNum(n.info) < WaitNum(n.info) by { LocalPending(n, ops, kids, excluded); }
  }

  /** While the local handler is pending the collective has not completed. */
  lemma LocalPending(n: Node, ops: Ops, kids: seq<nat>, excluded: bool)
    requires NodeInv(n, ops, kids, excluded) && n.phase.Running?
    ensures DoneNum(n.info) < WaitNum(n.info) && n.info.results == []
  {
  }

  lemma LocalReplyKeeps(n: Node, ops: Ops, kids: seq<nat>, excluded: bool)
    requires NodeInv(n, ops, kids, excluded) && n.phase.Running?
    ensures NodeInv(n.(phase := Finished, info := LocalReply(n.info, ops)), ops, kids, excluded)
  {
    hide Accounted, Counters, LocalState, Codes;
    LocalReplyCounters(n, ops, kids, excluded);
    LocalReplyRest(n, ops, kids, excluded);
  }

  lemma MergeAccounts(n: Info, ops: Ops, kids: seq<nat>, c: nat)
    requires Accounted(n, kids) && c in n.children
    ensures Accounted(Merge(n, ops, c), kids) && SentNum(Merge(n, ops, c)) == SentNum(n)
  {
    DistinctAppend(n.merged, c);
  }

  lemma ParkAccounts(n: Info, kids: seq<nat>, c: nat)
    requires Accounted(n, kids) && c in n.children
    ensures Accounted(Park(n, c), kids) && SentNum(Park(n, c)) == SentNum(n)
  {
    DistinctAppend(n.replied, c);
  }

  lemma ChildReplyAccounts(n: Info, ops: Ops, kids: seq<nat>, c: nat, cciRc: int, childHdr: int)
    requires Accounted(n, kids) && c in n.children
    ensures Accounted(ChildReply(n, ops, c, cciRc, childHdr), kids)
    ensures SentNum(ChildReply(n, ops, c, cciRc, childHdr)) == SentNum(n)
  {
    hide Accounted;
    var n1 := NoteErrors(n, cciRc, childHdr);
    SameAccounts(n, n1, kids);
    if ops.aggregates && !n1.localDone {
      ParkAccounts(n1, kids, c);
      SameAccounts(Park(n1, c), CompleteIfDone(Park(n1, c)), kids);
    } else {
      MergeAccounts(n1, ops, kids, c);
      SameAccounts(Merge(n1, ops, c), CompleteIfDone(Merge(n1, ops, c)), kids);
    }
  }

  lemma ChildReplyCounters(n: Node, ops: Ops, kids: seq<nat>, excluded: bool, c: nat, cciRc: int, childHdr: int)
    requires NodeInv(n, ops, kids, excluded) && c in n.info.children
    ensures Counters(n.(info := ChildReply(n.info, ops, c, cciRc, childHdr)))
    ensures Accounted(ChildReply(n.info, ops, c, cciRc, childHdr), kids)
  {
    ChildReplyAccounts(n.info, ops, kids, c, cciRc, childHdr);
    NotDoneYet(n, ops, kids, excluded);
    hide Accounted, Codes, LocalState, SentNum;
  }

  lemma ChildReplyRest(n: Node, ops: Ops, kids: seq<nat>, excluded: bool, c: nat, cciRc: int, childHdr: int)
    requires NodeInv(n, ops, kids, excluded) && c in n.info.children
    ensures LocalState(n.(info := ChildReply(n.info, ops, c, cciRc, childHdr)), ops)
    ensures Codes(n.(info := ChildReply(n.info, ops, c, cciRc, childHdr)), kids)
  {
    NotDoneYet(n, ops, kids, excluded);
    assert n.info.ackNum == |n.info.merged| + if n.info.localAcked then 1 else 0;
    hide Accounted, Counters;
  }

  lemma ChildReplyKeeps(n: Node, ops: Ops, kids: seq<nat>, excluded: bool, c: nat, cciRc: int, childHdr: int)
    requires NodeInv(n, ops, kids, excluded) && c in n.info.children
    ensures NodeInv(n.(info := ChildReply(n.info, ops, c, cciRc, childHdr)), ops, kids, excluded)
  {
    hide Accounted, Counters, LocalState, Codes;
    ChildReplyCounters(n, ops, kids, excluded, c, cciRc, childHdr);
    ChildReplyRest(n, ops, kids, excluded, c, cciRc, childHdr);
  }

  /** While an RPC is outstanding the collective has not completed. */
  lemma NotDoneYet(n: Node, ops: Ops, kids: seq<nat>, excluded: bool)
    requires NodeInv(n, ops, kids, excluded) && n.info.children != {}
    ensures DoneNum(n.info) < WaitNum(n.info) && n.info.results == [] && n.info.childNum > 0
  {
  }
}
