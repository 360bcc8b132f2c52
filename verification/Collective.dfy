/**
 A collective RPC end to end: the filter adjustment of crt_corpc_req_create, the target group
 and tree of crt_tree.c, and the run of the protocol, put together for the caller.
 */
module Collective {
  import opened RankList
  import opened Topologies
  import opened Broadcast
  import opened Tree
  import opened Corpc
  import opened CorpcRun
  import opened CorpcCodes

  /** What crt_corpc_req_create hands to crt_corpc_info_init. */
  datatype Request = Request(filter: Option<seq<nat>>, rootExcluded: bool)

  /** An initiator outside the requested scope is put into the filtered group and flagged. */
  function AdjustFilter(exclusive: bool, filter: Option<seq<nat>>, root: nat): Request {
    var listed := filter.Some? && root in filter.value;
    if exclusive && !listed && filter.Some? then Request(Some(filter.value + [root]), true)
    else if !exclusive && listed then Request(Some(RankList.Filtered([root], filter.value, true)), true)
    else Request(filter, false)
  }

  /** The ranks the caller asked for. */
  predicate InScope(membs: seq<nat>, exclusive: bool, filter: Option<seq<nat>>, x: nat) {
    x in membs && (if filter.Some? then (x in filter.value) == exclusive else true)
  }

  /** The filter list every node works with, after crt_corpc_info_init. */
  function NodeFilter(r: Request): Option<seq<nat>> {
    if r.filter.Some? then Some(Uniq(Sort(r.filter.value))) else None
  }

  ghost function TargetGroup(membs: seq<nat>, exclusive: bool, filter: Option<seq<nat>>, root: nat): Tree.Filtered
    requires exclusive ==> filter.Some?
  {
    FilterGroup(membs, exclusive, NodeFilter(AdjustFilter(exclusive, filter, root)))
  }

  /** The target group is the requested scope plus the initiator, which is flagged when it is not in the scope. */
  lemma TargetGroupIsScope(membs: seq<nat>, exclusive: bool, filter: Option<seq<nat>>, root: nat)
    requires Distinct(membs) && root in membs && (exclusive ==> filter.Some?)
    requires TargetGroup(membs, exclusive, filter, root).Group?
    ensures
      var ranks := TargetGroup(membs, exclusive, filter, root).ranks;
      && Distinct(ranks) && root in ranks
      && (forall x: nat :: x in ranks <==> InScope(membs, exclusive, filter, x) || x == root)
      && (AdjustFilter(exclusive, filter, root).rootExcluded <==> !InScope(membs, exclusive, filter, root))
  {
    hide Uniq, Sort, FilterGroup;
    var r := AdjustFilter(exclusive, filter, root);
    if r.filter.Some? {
      DupSortUniqIsSetIff(r.filter.value);
      if filter.Some? {
        KeptSelects([root], filter.value, true);
      }
      assert Uniq(Sort(r.filter.value)) == [] ==> r.filter.value == [] by {
        if r.filter.value != [] {
          assert r.filter.value[0] in Uniq(Sort(r.filter.value));
        }
      }
    }
    FilterGroupSelects(membs, exclusive, NodeFilter(r));
  }

  /**
   A collective has a target group always if it is not exclusive, because the initiator is in it,
   and otherwise if and only if all listed ranks are members and none is listed more than twice.
   */
  lemma TargetGroupExists(membs: seq<nat>, exclusive: bool, filter: Option<seq<nat>>, root: nat)
    requires Distinct(membs) && root in membs && (exclusive ==> filter.Some?)
    ensures TargetGroup(membs, exclusive, filter, root).Group? <==>
              (exclusive ==> AtMost(filter.value, 2) && forall x: nat :: x in filter.value ==> x in membs)
  {
    if exclusive {
      ExclusiveGroupExists(membs, filter.value, root);
    } else {
      OtherGroupExists(membs, filter, root);
    }
  }

  lemma OtherGroupExists(membs: seq<nat>, filter: Option<seq<nat>>, root: nat)
    requires Distinct(membs) && root in membs
    ensures TargetGroup(membs, false, filter, root).Group?
  {
    hide Uniq, Sort;
    var r := AdjustFilter(false, filter, root);
    SortedMembers(membs);
    if r.filter.Some? {
      DupSortUniqIsSetIff(r.filter.value);
      KeptSelects([root], filter.value, true);
      KeptSelects(Uniq(Sort(r.filter.value)), Uniq(Sort(membs)), true);
    }
  }

  lemma ExclusiveGroupExists(membs: seq<nat>, listed: seq<nat>, root: nat)
    requires Distinct(membs) && root in membs
    ensures TargetGroup(membs, true, Some(listed), root).Group?
       <==> AtMost(listed, 2) && forall x: nat :: x in listed ==> x in membs
  {
    hide Uniq, Sort, FilterGroup;
    var l := AdjustFilter(true, Some(listed), root).filter.value;
    assert l == if root in listed then listed else listed + [root];
    ExclusiveAcceptedIff(membs, l);
    if root !in listed {
      AtMostOneMore(listed, root);
    }
  }

  /** A rank that is not listed can be added once. */
  lemma AtMostOneMore(listed: seq<nat>, root: nat)
    requires root !in listed
    ensures AtMost(listed + [root], 2) <==> AtMost(listed, 2)
  {
    forall x: nat
      ensures Count(listed + [root], x) == Count(listed, x) + if x == root then 1 else 0
    {
      CountConcat(listed, [root], x);
      CountCons(root, [], x);
    }
  }

  /** The run over the tree that every node derives from the same members, version and filter. */
  ghost function ConfigOf(ranks: seq<nat>, root: nat, t: Topology, ops: Ops, rootExcluded: bool): Config
    requires Proper(t) && root in ranks
  {
    Config(ShapeOf(t, |ranks|, IndexOf(ranks, root)), ops, rootExcluded)
  }

  /** How often the RPC handler ran on rank x. */
  ghost function HandlerRuns(ranks: seq<nat>, w: World, x: nat): nat
    requires |w.nodes| == |ranks|
  {
    if x in ranks then w.nodes[IndexOf(ranks, x)].dispatched else 0
  }

  /**
   The promise to the caller.  For every group, filter, topology and run: if the initiator's
   completion callback gets code 0, the handler ran exactly once on every rank of the requested
   scope and on no other rank.
   */
  lemma CodeZero(membs: seq<nat>, exclusive: bool, filter: Option<seq<nat>>, root: nat,
                 t: Topology, ops: Ops, steps: seq<Step>, x: nat)
    requires Distinct(membs) && root in membs && (exclusive ==> filter.Some?) && Proper(t)
    requires TargetGroup(membs, exclusive, filter, root).Group?
    ensures
      var ranks := TargetGroup(membs, exclusive, filter, root).ranks;
      && root in ranks
      && var cfg := ConfigOf(ranks, root, t, ops, AdjustFilter(exclusive, filter, root).rootExcluded);
      && IsTree(cfg.shape)
      && var w := Run(cfg, steps);
         Succeeded(w.nodes[cfg.shape.root]) ==>
           HandlerRuns(ranks, w, x) == if InScope(membs, exclusive, filter, x) then 1 else 0
  {
    hide Run, AdjustFilter, TargetGroup;
    TargetGroupIsScope(membs, exclusive, filter, root);
    var ranks: seq<nat> := TargetGroup(membs, exclusive, filter, root).ranks;
    var cfg := ConfigOf(ranks, root, t, ops, AdjustFilter(exclusive, filter, root).rootExcluded);
    TopologyIsTree(t, |ranks|, IndexOf(ranks, root));
    var w := Run(cfg, steps);
    if Succeeded(w.nodes[cfg.shape.root]) && x in ranks {
      CodeZeroMeansAll(cfg, steps, IndexOf(ranks, x));
    }
  }

  /**
   And for every run in which it gets an error code: some step of the run brought exactly that code
   in at some rank of the target group.  If only one error code occurs, that is the one it gets.
   */
  lemma ErrorCode(ranks: seq<nat>, root: nat, t: Topology, ops: Ops, rootExcluded: bool, steps: seq<Step>, e: int)
    requires Proper(t) && root in ranks
    ensures
      var cfg := ConfigOf(ranks, root, t, ops, rootExcluded);
      && IsTree(cfg.shape)
      && var r := Run(cfg, steps).nodes[cfg.shape.root].info.results;
      && (r == [e] && e != DER_SUCCESS ==>
            exists k: nat, i: nat :: k < |steps| && i < |ranks| && Origin(cfg, Run(cfg, steps[..k]), steps[k], i, e))
      && (OnlyCode(cfg, steps, e) ==> r == [] || r == [DER_SUCCESS] || r == [e])
  {
    hide Run, Origin, OnlyCode;
    var cfg := ConfigOf(ranks, root, t, ops, rootExcluded);
    TopologyIsTree(t, |ranks|, IndexOf(ranks, root));
    var r := Run(cfg, steps).nodes[cfg.shape.root].info.results;
    if r == [e] && e != DER_SUCCESS {
      CodeHasOrigin(cfg, steps, cfg.shape.root);
      var k: nat, d: nat :| BlamedAt(cfg, steps, k, d, cfg.shape.root, e);
    }
    if OnlyCode(cfg, steps, e) {
      OneCode(cfg, steps, cfg.shape.root, e);
    }
  }

  /**
   And the callback comes: once nothing is left to do at the initiator, exactly once, unless its
   own dispatch failed while a child reply was parked.
   */
  lemma CallbackOnce(ranks: seq<nat>, root: nat, t: Topology, ops: Ops, rootExcluded: bool, steps: seq<Step>)
    requires Proper(t) && root in ranks
    ensures
      var cfg := ConfigOf(ranks, root, t, ops, rootExcluded);
      && IsTree(cfg.shape)
      && var n := Run(cfg, steps).nodes[cfg.shape.root];
      && |n.info.results| <= 1
      && (EndedAt(cfg, Run(cfg, steps), cfg.shape.root) ==>
            && |n.info.results| == (if Lost(cfg, steps, cfg.shape.root) then 0 else 1)
            && (!n.localFailed ==> |n.info.results| == 1))
  {
    hide Run, Lost, EndedAt;
    var cfg := ConfigOf(ranks, root, t, ops, rootExcluded);
    TopologyIsTree(t, |ranks|, IndexOf(ranks, root));
    CompletesAtMostOnce(cfg, steps, cfg.shape.root);
    if EndedAt(cfg, Run(cfg, steps), cfg.shape.root) {
      RootCompletes(cfg, steps);
    }
  }
}
