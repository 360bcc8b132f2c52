/**
 Coalescing of IV fetches for one key on one node (src/cart/crt_iv.c): crt_ivf_rpc_issue,
 handle_ivfetch_response and crt_ivf_pending_reqs_process as they interleave.

 Each step is one critical section.  The entry of the key in progress is found through the
 namespace lock and then locked itself; the thread that handles a response keeps it locked while
 it drains the list of pending fetches, gives it up, and takes it once more to release it.
 The callers' callbacks run inside that drain, and one that fetches the same key again waits for
 the lock its own thread holds.
 */
module IvFetch {
  /**
   struct ivf_key_in_progress.  gen tells one entry for the key from a later one; holder is the
   fetch whose response handler holds kip_lock; skipped counts the handlers that found another
   RPC in progress when they came back to release the entry.
   */
  datatype Entry = Entry(gen: nat, inProgress: bool, refcnt: int, pending: seq<nat>, holder: Holder, skipped: nat)

  datatype Holder = Nobody | HeldBy(f: nat)

  datatype Slot = Absent | Present(e: Entry)

  /**
   Where a fetch stands: its RPC is on its way, its response has arrived, its handler drains the
   pending list of entry gen, has given up the lock, has released the entry but not yet finalised
   (only after an error), it waits on a pending list, or it is over.
   */
  datatype Stage =
    | Sent
    | Arrived(ok: bool)
    | Draining(gen: nat, ok: bool, own: bool)
    | Released(gen: nat, ok: bool)
    | Closing
    | Waits
    | Over

  /**
   finalized records the fetches in the order their callers were told the result; stuck says that
   the draining thread waits for its own lock, with the namespace lock in hand.
   */
  datatype Node = Node(slot: Slot, nextGen: nat, stages: map<nat, Stage>, finalized: seq<nat>, stuck: bool)

  /** Refetch(f): a callback that the handler of f makes while it holds the entry fetches the key again. */
  datatype Step =
    | Issue(f: nat)
    | Respond(f: nat, ok: bool)
    | Grab(f: nat)
    | Finalize(f: nat)
    | Pop(f: nat)
    | Close(f: nat)
    | Refetch(f: nat)

  predicate Free(n: Node) {
    n.slot.Present? ==> n.slot.e.holder == Nobody
  }

  predicate Enabled(n: Node, s: Step)
    decreases s.Refetch?
  {
    match s
    case Issue(f) => f !in n.stages && Free(n)
    case Respond(f, _) => f in n.stages && n.stages[f] == Sent
    case Grab(f) => f in n.stages && n.stages[f].Arrived? && n.slot.Present? && Free(n)
    case Finalize(f) =>
      f in n.stages && (n.stages[f] == Closing || OwnTurn(n, f))
    case Pop(f) =>
      f in n.stages && n.stages[f].Draining? && (n.stages[f].ok ==> n.stages[f].own) && n.slot.Present? && !n.stuck
    case Close(f) => f in n.stages && n.stages[f].Released? && n.slot.Present? && Free(n)
    case Refetch(f) => OwnTurn(n, f) || (Enabled(n, Pop(f)) && n.slot.e.pending != [])
  }

  /** After a successful fetch the handler first tells its own caller. */
  predicate OwnTurn(n: Node, f: nat) {
    f in n.stages && n.stages[f].Draining? && n.stages[f].ok && !n.stages[f].own && !n.stuck
  }

  /** The step whose callback a Refetch is. */
  function Callback(n: Node, f: nat): Step {
    if OwnTurn(n, f) then Finalize(f) else Pop(f)
  }

  /** crt_ivf_rpc_issue up to the point where the RPC is sent. */
  function DoIssue(n: Node, f: nat): Node {
    if n.slot.Present? && n.slot.e.inProgress then
      n.(slot := Present(n.slot.e.(pending := n.slot.e.pending + [f])), stages := n.stages[f := Waits])
    else if n.slot.Present? then
      n.(slot := Present(n.slot.e.(inProgress := true, refcnt := n.slot.e.refcnt + 1)), stages := n.stages[f := Sent])
    else
      n.(slot := Present(Entry(n.nextGen, true, 1, [], Nobody, 0)), nextGen := n.nextGen + 1,
         stages := n.stages[f := Sent])
  }

  /** Finalise the next pending fetch, or finish the drain and give up the lock. */
  function DoPop(n: Node, f: nat): Node
    requires Enabled(n, Pop(f))
  {
    var e := n.slot.e;
    if e.pending != [] then
      n.(slot := Present(e.(pending := e.pending[1..])), stages := n.stages[e.pending[0] := Over],
         finalized := n.finalized + [e.pending[0]])
    else
      n.(slot := Present(e.(inProgress := false, holder := Nobody)),
         stages := n.stages[f := Released(n.stages[f].gen, n.stages[f].ok)])
  }

  /** The second visit to the entry: drop one reference, unless another RPC is in progress by now. */
  function DoClose(n: Node, f: nat): Node
    requires Enabled(n, Close(f))
  {
    var e := n.slot.e;
    n.(slot := if e.inProgress then Present(e.(skipped := e.skipped + 1))
               else if e.refcnt == 1 then Absent
               else Present(e.(refcnt := e.refcnt - 1)),
       stages := n.stages[f := if n.stages[f].ok then Over else Closing])
  }

  function Do(n: Node, s: Step): Node
    decreases s.Refetch?
  {
    if !Enabled(n, s) then n
    else
      match s
      case Issue(f) => DoIssue(n, f)
      case Respond(f, ok) => n.(stages := n.stages[f := Arrived(ok)])
      case Grab(f) =>
        n.(slot := Present(n.slot.e.(holder := HeldBy(f))),
           stages := n.stages[f := Draining(n.slot.e.gen, n.stages[f].ok, false)])
      case Finalize(f) =>
        n.(stages := n.stages[f := if n.stages[f] == Closing then Over else n.stages[f].(own := true)],
           finalized := n.finalized + [f])
      case Pop(f) => DoPop(n, f)
      case Close(f) => DoClose(n, f)
      case Refetch(f) => Do(n, Callback(n, f)).(stuck := true)
  }

  function Run(steps: seq<Step>): Node {
    if steps == [] then Node(Absent, 0, map[], [], false) else Do(Run(steps[..|steps| - 1]), steps[|steps| - 1])
  }

  // ---- the invariant ----

  /** The fetch has an RPC of its own that is not yet dealt with. */
  predicate Busy(s: Stage) {
    s == Sent || s.Arrived? || s.Draining?
  }

  /** The fetch holds a reference on the entry. */
  predicate Refers(s: Stage) {
    Busy(s) || s.Released?
  }

  function BusySet(n: Node): set<nat> {
    set f | f in n.stages && Busy(n.stages[f])
  }

  function Referrers(n: Node): set<nat> {
    set f | f in n.stages && Refers(n.stages[f])
  }

  /** An entry exists as long as anybody will still lock it, and it is the one they know. */
  predicate Anchored(n: Node) {
    && (n.slot == Absent ==> forall f <- n.stages :: !Refers(n.stages[f]) && n.stages[f] != Waits)
    && (n.slot.Present? ==> forall f <- n.stages ::
          (n.stages[f].Draining? || n.stages[f].Released? ==> n.stages[f].gen == n.slot.e.gen))
    && (n.slot.Present? ==> n.slot.e.gen < n.nextGen)
  }

  predicate Counted(n: Node) {
    && (n.slot.Present? ==> n.slot.e.refcnt == |Referrers(n)| + n.slot.e.skipped && n.slot.e.refcnt > 0)
    && (n.slot.Present? ==> |BusySet(n)| == if n.slot.e.inProgress then 1 else 0)
  }

  predicate Locked(n: Node) {
    n.slot.Present? ==>
      && (forall f <- n.stages :: (n.slot.e.holder == HeldBy(f) <==> n.stages[f].Draining?))
      && (n.slot.e.holder.HeldBy? ==> n.slot.e.holder.f in n.stages)
  }

  predicate StuckHolds(n: Node) {
    n.stuck ==> n.slot.Present? && n.slot.e.holder.HeldBy?
  }

  predicate Listed(n: Node) {
    n.slot.Present? ==>
      var p := n.slot.e.pending;
      && (forall i, j :: 0 <= i < j < |p| ==> p[i] != p[j])
      && (forall i :: 0 <= i < |p| ==> p[i] in n.stages && n.stages[p[i]] == Waits)
      && (forall f <- n.stages :: n.stages[f] == Waits ==> f in p)
      && (p != [] ==> n.slot.e.inProgress)
  }

  /** The caller of this fetch has been told. */
  predicate Told(s: Stage) {
    s == Over || (s.Draining? && s.ok && s.own) || (s.Released? && s.ok)
  }

  function Times(log: seq<nat>, f: nat): nat {
    if log == [] then 0 else Times(log[..|log| - 1], f) + if log[|log| - 1] == f then 1 else 0
  }

  ghost predicate ToldOnce(n: Node) {
    forall f: nat :: Times(n.finalized, f) == if f in n.stages && Told(n.stages[f]) then 1 else 0
  }

  ghost predicate Inv(n: Node) {
    Anchored(n) && Counted(n) && Locked(n) && Listed(n) && ToldOnce(n) && StuckHolds(n)
  }

  lemma TimesAppend(log: seq<nat>, x: nat, f: nat)
    ensures Times(log + [x], f) == Times(log, f) + if x == f then 1 else 0
  {
    assert (log + [x])[..|log|] == log;
  }

  /** How one change of stage moves the two sets. */
  lemma OneApart(a: set<nat>, b: set<nat>, f: nat)
    requires a - {f} == b - {f}
    ensures |b| - |a| == (if f in b then 1 else 0) - (if f in a then 1 else 0)
  {
    if f in a {
      assert a == (a - {f}) + {f};
    } else {
      assert a == a - {f};
    }
    if f in b {
      assert b == (b - {f}) + {f};
    } else {
      assert b == b - {f};
    }
  }

  lemma SetsMove(n: Node, m: Node, f: nat, s: Stage)
    requires m.stages == n.stages[f := s]
    ensures BusySet(m) == if Busy(s) then BusySet(n) + {f} else BusySet(n) - {f}
    ensures Referrers(m) == if Refers(s) then Referrers(n) + {f} else Referrers(n) - {f}
  {
  }

  lemma ToldMove(n: Node, m: Node, f: nat, s: Stage)
    requires ToldOnce(n) && m.stages == n.stages[f := s]
    requires f in n.stages && Told(n.stages[f]) ==> Told(s)
    requires m.finalized == n.finalized + if Told(s) && !(f in n.stages && Told(n.stages[f])) then [f] else []
    ensures ToldOnce(m)
  {
    forall g: nat ensures Times(m.finalized, g) == if g in m.stages && Told(m.stages[g]) then 1 else 0 {
      TimesAppend(n.finalized, f, g);
      assert n.finalized + [] == n.finalized;
    }
  }

  lemma ToldKeeps(n: Node, s: Step)
    requires ToldOnce(n) && Listed(n) && Enabled(n, s) && !s.Refetch?
    ensures ToldOnce(Do(n, s))
  {
    hide ToldOnce;
    var m := Do(n, s);
    assert n.finalized + [] == n.finalized;
    if s.Pop? && n.slot.e.pending != [] {
      ToldMove(n, m, n.slot.e.pending[0], Over);
    } else {
      ToldMove(n, m, s.f, m.stages[s.f]);
    }
  }

  lemma LockedKeeps(n: Node, s: Step)
    requires Locked(n) && Listed(n) && Anchored(n) && Enabled(n, s) && !s.Refetch?
    ensures Locked(Do(n, s))
  {
  }

  /** A drain is a busy fetch of its own, and there is only one. */
  lemma DrainBusy(n: Node, f: nat)
    requires Counted(n) && n.slot.Present? && f in n.stages && Busy(n.stages[f])
    ensures n.slot.e.inProgress && BusySet(n) == {f}
  {
    assert f in BusySet(n);
    var rest := BusySet(n) - {f};
    assert BusySet(n) == rest + {f};
    assert |BusySet(n)| == |rest| + 1;
  }

  lemma ListedKeeps(n: Node, s: Step)
    requires Listed(n) && Anchored(n) && Counted(n) && Enabled(n, s) && !s.Refetch?
    ensures Listed(Do(n, s))
  {
    var m := Do(n, s);
    if s.Pop? && n.slot.e.pending != [] {
      PopListed(n, m);
    } else if s.Issue? {
      IssueListed(n, s.f);
    }
  }

  lemma IssueListed(n: Node, f: nat)
    requires Listed(n) && Anchored(n) && Enabled(n, Issue(f))
    ensures Listed(DoIssue(n, f))
  {
    var m := DoIssue(n, f);
    if n.slot.Present? && n.slot.e.inProgress {
      var p, q := n.slot.e.pending, m.slot.e.pending;
      assert q == p + [f];
      forall g | g in m.stages && m.stages[g] == Waits ensures g in q {
        if g == f {
          assert q[|p|] == f;
        } else {
          assert g in p;
        }
      }
    }
  }

  lemma PopListed(n: Node, m: Node)
    requires Listed(n) && n.slot.Present? && n.slot.e.pending != []
    requires m.slot == Present(n.slot.e.(pending := n.slot.e.pending[1..]))
    requires m.stages == n.stages[n.slot.e.pending[0] := Over]
    ensures Listed(m)
  {
    var p, q := n.slot.e.pending, m.slot.e.pending;
    assert forall i :: 0 <= i < |q| ==> q[i] == p[i + 1];
    forall f | f in m.stages && m.stages[f] == Waits ensures f in q {
      assert f in p && f != p[0];
    }
  }

  lemma CountedKeeps(n: Node, s: Step)
    requires Listed(n) && Anchored(n) && Counted(n) && Enabled(n, s) && !s.Refetch?
    ensures Counted(Do(n, s))
  {
    hide BusySet, Referrers, Anchored;
    var m := Do(n, s);
    match s
    case Issue(f) => IssueCounted(n, f);
    case Respond(f, _) => StageStays(n, m, f);
    case Grab(f) => StageStays(n, m, f);
    case Finalize(f) => StageStays(n, m, f);
    case Pop(f) =>
      if n.slot.e.pending != [] {
        StageStays(n, m, n.slot.e.pending[0]);
      } else {
        PopCounted(n, f);
      }
    case Close(f) => CloseCounted(n, f);
  }

  lemma StageStays(n: Node, m: Node, f: nat)
    requires f in n.stages && f in m.stages && m.stages == n.stages[f := m.stages[f]]
    requires Busy(m.stages[f]) == Busy(n.stages[f]) && Refers(m.stages[f]) == Refers(n.stages[f])
    ensures BusySet(m) == BusySet(n) && Referrers(m) == Referrers(n)
  {
  }

  lemma IssueCounted(n: Node, f: nat)
    requires Anchored(n) && Counted(n) && Enabled(n, Issue(f))
    ensures Counted(DoIssue(n, f))
  {
    hide BusySet, Referrers, Anchored;
    var m := DoIssue(n, f);
    SetsGrow(n, m, f);
    if n.slot == Absent {
      NobodyThere(n);
    }
  }

  /** A new fetch joins both sets or neither. */
  lemma SetsGrow(n: Node, m: Node, f: nat)
    requires f !in n.stages && f in m.stages && m.stages == n.stages[f := m.stages[f]]
    ensures |BusySet(m)| == |BusySet(n)| + if Busy(m.stages[f]) then 1 else 0
    ensures |Referrers(m)| == |Referrers(n)| + if Refers(m.stages[f]) then 1 else 0
  {
    OneApart(BusySet(n), BusySet(m), f);
    OneApart(Referrers(n), Referrers(m), f);
  }

  lemma NobodyThere(n: Node)
    requires Anchored(n) && n.slot == Absent
    ensures BusySet(n) == {} && Referrers(n) == {}
  {
  }

  lemma PopCounted(n: Node, f: nat)
    requires Counted(n) && Enabled(n, Pop(f)) && n.slot.e.pending == []
    ensures Counted(DoPop(n, f))
  {
    var m := DoPop(n, f);
    SetsMove(n, m, f, m.stages[f]);
    DrainBusy(n, f);
    assert f in Referrers(n);
    assert BusySet(m) == {} && Referrers(m) == Referrers(n);
  }

  lemma CloseCounted(n: Node, f: nat)
    requires Counted(n) && Enabled(n, Close(f))
    ensures Counted(DoClose(n, f))
  {
    var m := DoClose(n, f);
    SetsMove(n, m, f, m.stages[f]);
    assert f in Referrers(n) && f !in BusySet(n);
    hide BusySet, Referrers;
    assert BusySet(m) == BusySet(n);
    assert |Referrers(m)| == |Referrers(n)| - 1;
  }

  lemma AnchoredKeeps(n: Node, s: Step)
    requires Listed(n) && Anchored(n) && Counted(n) && Enabled(n, s) && !s.Refetch?
    ensures Anchored(Do(n, s))
  {
    if s.Close? {
      CloseAnchored(n, s.f);
    }
  }

  lemma CloseAnchored(n: Node, f: nat)
    requires Listed(n) && Anchored(n) && Counted(n) && Enabled(n, Close(f))
    ensures Anchored(DoClose(n, f))
  {
    var e, m := n.slot.e, DoClose(n, f);
    if m.slot == Absent {
      assert f in Referrers(n);
      var rest := Referrers(n) - {f};
      assert |rest| == 0;
      assert rest == {};
      forall g | g in m.stages ensures !Refers(m.stages[g]) && m.stages[g] != Waits {
        assert g !in rest;
        assert n.stages[g] == Waits ==> g in e.pending;
      }
    }
  }

  lemma PlainKeeps(n: Node, s: Step)
    requires Inv(n) && Enabled(n, s) && !s.Refetch?
    ensures Inv(Do(n, s))
  {
    AnchoredKeeps(n, s);
    CountedKeeps(n, s);
    LockedKeeps(n, s);
    ListedKeeps(n, s);
    ToldKeeps(n, s);
    assert StuckHolds(Do(n, s)) by { StuckKeeps(n, s); }
    hide Anchored, Counted, Locked, Listed, ToldOnce, StuckHolds;
  }

  lemma StuckKeeps(n: Node, s: Step)
    requires StuckHolds(n) && Locked(n) && Enabled(n, s) && !s.Refetch?
    ensures StuckHolds(Do(n, s))
  {
  }

  /** A thread that waits for its own lock changes nothing else. */
  lemma StuckSame(n: Node)
    requires Inv(n) && n.slot.Present? && n.slot.e.holder.HeldBy?
    ensures Inv(n.(stuck := true))
  {
    var m := n.(stuck := true);
    assert BusySet(m) == BusySet(n) && Referrers(m) == Referrers(n);
  }

  /** A callback leaves the lock with the handler. */
  lemma CallbackHolds(n: Node, f: nat)
    requires Inv(n) && Enabled(n, Refetch(f))
    ensures
      var m := Do(n, Callback(n, f));
      && Enabled(n, Callback(n, f)) && m.slot.Present? && m.slot.e.holder == HeldBy(f)
      && f in m.stages && m.stages[f].Draining?
  {
    hide Counted, ToldOnce;
  }

  lemma DoKeeps(n: Node, s: Step)
    requires Inv(n)
    ensures Inv(Do(n, s))
  {
    hide Inv;
    if Enabled(n, s) {
      if s.Refetch? {
        CallbackHolds(n, s.f);
        PlainKeeps(n, Callback(n, s.f));
        StuckSame(Do(n, Callback(n, s.f)));
      } else {
        PlainKeeps(n, s);
      }
    }
  }

  lemma {:induction false} RunKeeps(steps: seq<Step>)
    ensures Inv(Run(steps))
    decreases |steps|
  {
    hide Inv, Do;
    if steps == [] {
      EmptyInv();
    } else {
      RunKeeps(steps[..|steps| - 1]);
      DoKeeps(Run(steps[..|steps| - 1]), steps[|steps| - 1]);
    }
  }

  lemma EmptyInv()
    ensures Inv(Node(Absent, 0, map[], [], false))
  {
  }

  // ---- what it means ----

  /** In every run, at most one fetch of the key has an RPC on its way or a response being handled. */
  lemma OneRpcPerKey(steps: seq<Step>, f: nat, g: nat)
    requires f in Run(steps).stages && Busy(Run(steps).stages[f])
    requires g in Run(steps).stages && Busy(Run(steps).stages[g])
    ensures f == g
  {
    hide Run;
    RunKeeps(steps);
    DrainBusy(Run(steps), f);
    DrainBusy(Run(steps), g);
  }

  /** In every run, a fetch waits only while some other fetch of the key is busy. */
  lemma WaitingMeansBusy(steps: seq<Step>, f: nat)
    requires f in Run(steps).stages && Run(steps).stages[f] == Waits
    ensures exists g :: g in Run(steps).stages && g != f && Busy(Run(steps).stages[g])
  {
    hide Run;
    RunKeeps(steps);
    var n := Run(steps);
    assert f in n.slot.e.pending;
    var g :| g in BusySet(n);
  }

  /** In every run, an entry that a response handler will still lock has not been freed. */
  lemma EntryOutlivesHandlers(steps: seq<Step>, f: nat)
    requires f in Run(steps).stages && Refers(Run(steps).stages[f])
    ensures
      var n := Run(steps);
      && n.slot.Present? && n.slot.e.refcnt > 0
      && (n.stages[f].Draining? || n.stages[f].Released? ==> n.slot.e.gen == n.stages[f].gen)
  {
    hide Run;
    RunKeeps(steps);
  }

  /** In every run, no caller is told twice. */
  lemma ToldAtMostOnce(steps: seq<Step>, f: nat)
    ensures Times(Run(steps).finalized, f) <= 1
  {
    hide Run;
    RunKeeps(steps);
  }

  /** Nothing is left to happen but new fetches. */
  ghost predicate Quiet(n: Node) {
    forall s: Step :: !s.Issue? ==> !Enabled(n, s)
  }

  /** As long as some fetch is not over and no thread waits for its own lock, some thread can go on. */
  lemma SomebodyMoves(n: Node, f: nat) returns (s: Step)
    requires Inv(n) && f in n.stages && n.stages[f] != Over && !n.stuck
    ensures !s.Issue? && !s.Refetch? && Enabled(n, s)
  {
    var g := f;
    if n.stages[f] == Waits {
      assert f in n.slot.e.pending;
      g :| g in BusySet(n);
    }
    if n.slot.Present? && n.slot.e.holder.HeldBy? {
      g := n.slot.e.holder.f;
    }
    match n.stages[g]
    case Sent => s := Respond(g, true);
    case Arrived(_) => s := Grab(g);
    case Draining(_, ok, own) => s := if ok && !own then Finalize(g) else Pop(g);
    case Released(_, _) => s := Close(g);
    case Closing => s := Finalize(g);
    case Waits => assert false;
    case Over => assert false;
  }

  /** Some callback of the run fetched the key again while its handler held the entry. */
  ghost predicate Refetched(steps: seq<Step>) {
    exists k :: 0 <= k < |steps| && RefetchAt(steps, k)
  }

  ghost predicate RefetchAt(steps: seq<Step>, k: nat)
    requires k < |steps|
  {
    steps[k].Refetch? && Enabled(Run(steps[..k]), steps[k])
  }

  /** A thread that waits for its own lock does so for good, and nobody gets past it. */
  lemma StuckStays(n: Node, s: Step)
    requires Inv(n) && n.stuck
    ensures
      var m, f := Do(n, s), n.slot.e.holder.f;
      && m.stuck && m.slot.Present? && m.slot.e.holder == HeldBy(f)
      && f in n.stages && f in m.stages && m.stages[f] == n.stages[f] && n.stages[f].Draining?
      && !Enabled(n, Issue(s.f))
  {
    hide Counted, ToldOnce, Listed, Anchored;
  }

  lemma {:induction false} StuckIffRefetched(steps: seq<Step>)
    ensures Run(steps).stuck <==> Refetched(steps)
    decreases |steps|
  {
    hide Do, Inv, Enabled;
    if steps != [] {
      var init, s := steps[..|steps| - 1], steps[|steps| - 1];
      StuckIffRefetched(init);
      RunKeeps(init);
      if Run(init).stuck {
        StuckStays(Run(init), s);
      } else {
        StuckStarts(Run(init), s);
      }
      RefetchLater(steps);
    }
  }

  lemma StuckStarts(n: Node, s: Step)
    requires !n.stuck
    ensures Do(n, s).stuck <==> s.Refetch? && Enabled(n, s)
  {
  }

  lemma RefetchLater(steps: seq<Step>)
    requires steps != []
    ensures Refetched(steps) <==> Refetched(steps[..|steps| - 1]) || RefetchAt(steps, |steps| - 1)
  {
    hide Run, Enabled;
    var init := steps[..|steps| - 1];
    forall k: nat | k < |init| ensures RefetchAt(init, k) <==> RefetchAt(steps, k) {
      assert init[..k] == steps[..k];
    }
    if Refetched(init) {
      var k :| 0 <= k < |init| && RefetchAt(init, k);
      assert RefetchAt(steps, k);
    }
  }

  /**
   When a run has come to rest, every fetch is over and its caller was told exactly once, if and
   only if no callback fetched the key again while its handler held the entry.
   */
  lemma EveryFetchEnds(steps: seq<Step>)
    requires Quiet(Run(steps))
    ensures (forall f <- Run(steps).stages :: Run(steps).stages[f] == Over && Times(Run(steps).finalized, f) == 1)
       <==> !Refetched(steps)
  {
    hide Run, Refetched;
    RunKeeps(steps);
    StuckIffRefetched(steps);
    var n := Run(steps);
    if n.stuck {
      StuckStays(n, Issue(0));
    } else {
      forall f | f in n.stages ensures n.stages[f] == Over && Times(n.finalized, f) == 1 {
        if n.stages[f] != Over {
          var s := SomebodyMoves(n, f);
        }
      }
    }
  }

  /** It does happen: the caller of a successful fetch fetches the key again in its callback. */
  lemma RefetchDeadlocks()
    ensures
      var n := Run([Issue(0), Respond(0, true), Grab(0), Refetch(0)]);
      Quiet(n) && 0 in n.stages && n.stages[0].Draining? && forall f: nat :: !Enabled(n, Issue(f))
  {
    FirstGrab();
    hide Run;
    RunNext([Issue(0), Respond(0, true), Grab(0)], Refetch(0));
    assert [Issue(0), Respond(0, true), Grab(0)] + [Refetch(0)] == [Issue(0), Respond(0, true), Grab(0), Refetch(0)];
  }

  // ---- runs end ----

  /** How much a fetch has before it. */
  function Weight(s: Stage): nat {
    match s
    case Sent => 6
    case Arrived(_) => 5
    case Draining(_, ok, own) => if ok && !own then 4 else 3
    case Released(_, _) => 2
    case Closing => 1
    case Waits => 1
    case Over => 0
  }

  function Level(n: Node, w: nat): set<nat> {
    set f | f in n.stages && Weight(n.stages[f]) >= w
  }

  /** The weights of all fetches together, counted level by level. */
  function Measure(n: Node): nat {
    |Level(n, 1)| + |Level(n, 2)| + |Level(n, 3)| + |Level(n, 4)| + |Level(n, 5)| + |Level(n, 6)|
  }

  lemma LevelMoves(n: Node, m: Node, f: nat, s: Stage, w: nat)
    requires m.stages == n.stages[f := s]
    ensures |Level(m, w)| - |Level(n, w)|
         == (if Weight(s) >= w then 1 else 0) - (if f in n.stages && Weight(n.stages[f]) >= w then 1 else 0)
  {
    OneApart(Level(n, w), Level(m, w), f);
    hide Weight;
  }

  lemma MeasureMoves(n: Node, m: Node, f: nat, s: Stage)
    requires m.stages == n.stages[f := s]
    ensures Measure(m) - Measure(n) == Weight(s) - if f in n.stages then Weight(n.stages[f]) else 0
  {
    hide Level;
    LevelMoves(n, m, f, s, 1);
    LevelMoves(n, m, f, s, 2);
    LevelMoves(n, m, f, s, 3);
    LevelMoves(n, m, f, s, 4);
    LevelMoves(n, m, f, s, 5);
    LevelMoves(n, m, f, s, 6);
  }

  /** Every step but a new fetch brings the run closer to rest. */
  lemma StepLowers(n: Node, s: Step)
    requires Inv(n) && Enabled(n, s)
    ensures if s.Issue? then Measure(Do(n, s)) <= Measure(n) + 6 else Measure(Do(n, s)) < Measure(n)
    decreases s.Refetch?
  {
    hide Measure, Counted, ToldOnce, Anchored, Locked;
    var m := Do(n, s);
    if s.Refetch? {
      CallbackHolds(n, s.f);
      var cb := Callback(n, s.f);
      StepLowers(n, cb);
      MeasureMoves(Do(n, cb), m, s.f, m.stages[s.f]);
    } else if s.Pop? && n.slot.e.pending != [] {
      MeasureMoves(n, m, n.slot.e.pending[0], Over);
    } else {
      MeasureMoves(n, m, s.f, m.stages[s.f]);
    }
  }

  /** The steps of the run that issue a fetch, and those that do anything else. */
  function Issues(steps: seq<Step>): nat {
    if steps == [] then 0 else Issues(steps[..|steps| - 1]) + if steps[|steps| - 1].Issue? then 1 else 0
  }

  function Moves(steps: seq<Step>): nat {
    if steps == [] then 0
    else
      var s := steps[|steps| - 1];
      Moves(steps[..|steps| - 1]) + if !s.Issue? && Enabled(Run(steps[..|steps| - 1]), s) then 1 else 0
  }

  /** In every run at most six steps are taken for each fetch that is issued. */
  lemma {:induction false} RunsEnd(steps: seq<Step>)
    ensures Measure(Run(steps)) + Moves(steps) <= 6 * Issues(steps)
    decreases |steps|
  {
    hide Measure, Do, Enabled;
    if steps == [] {
      assert Measure(Run([])) == 0 by { NothingToDo(); }
    } else {
      var init, s := steps[..|steps| - 1], steps[|steps| - 1];
      RunsEnd(init);
      RunKeeps(init);
      if Enabled(Run(init), s) {
        StepLowers(Run(init), s);
      } else {
        DisabledIsNoop(Run(init), s);
      }
    }
  }

  lemma NothingToDo()
    ensures Measure(Run([])) == 0
  {
    forall w: nat ensures Level(Run([]), w) == {} {
    }
  }

  lemma DisabledIsNoop(n: Node, s: Step)
    requires !Enabled(n, s)
    ensures Do(n, s) == n
  {
  }

  // ---- entries that stay behind ----

  /** A handler came back to release the entry and found another RPC in progress. */
  ghost predicate SkipAt(steps: seq<Step>, k: nat)
    requires k < |steps|
  {
    var n := Run(steps[..k]);
    steps[k].Close? && Enabled(n, steps[k]) && n.slot.e.inProgress
  }

  ghost predicate Skipped(steps: seq<Step>) {
    exists k :: 0 <= k < |steps| && SkipAt(steps, k)
  }

  predicate Kept(n: Node) {
    n.slot.Present? && n.slot.e.skipped > 0
  }

  /** An entry that lost a release this way is never freed, and no other way leads there. */
  lemma StepKept(n: Node, s: Step)
    requires Inv(n)
    ensures Kept(Do(n, s)) <==> Kept(n) || (s.Close? && Enabled(n, s) && n.slot.e.inProgress)
    decreases s.Refetch?
  {
    if s.Refetch? && Enabled(n, s) {
      CallbackHolds(n, s.f);
      StepKept(n, Callback(n, s.f));
    } else if s.Close? && Enabled(n, s) {
      assert s.f in Referrers(n);
      assert Referrers(n) == (Referrers(n) - {s.f}) + {s.f};
      assert |Referrers(n)| >= 1;
    }
  }

  lemma SkipLater(steps: seq<Step>)
    requires steps != []
    ensures Skipped(steps) <==> Skipped(steps[..|steps| - 1]) || SkipAt(steps, |steps| - 1)
  {
    hide Run, Enabled;
    var init := steps[..|steps| - 1];
    forall k: nat | k < |init| ensures SkipAt(init, k) <==> SkipAt(steps, k) {
      assert init[..k] == steps[..k];
    }
    if Skipped(init) {
      var k :| 0 <= k < |init| && SkipAt(init, k);
      assert SkipAt(steps, k);
    }
  }

  lemma {:induction false} KeptIffSkipped(steps: seq<Step>)
    ensures Kept(Run(steps)) <==> Skipped(steps)
    decreases |steps|
  {
    hide Do, Inv, Enabled;
    if steps != [] {
      var init, s := steps[..|steps| - 1], steps[|steps| - 1];
      KeptIffSkipped(init);
      RunKeeps(init);
      StepKept(Run(init), s);
      SkipLater(steps);
    }
  }

  /**
   A key at rest still has an entry if and only if some handler of the run, on its second visit,
   found another RPC in progress, or a callback fetched the key again while its handler held the
   entry.
   */
  lemma RestingEntry(steps: seq<Step>)
    requires Quiet(Run(steps))
    ensures Run(steps).slot.Present? <==> Skipped(steps) || Refetched(steps)
  {
    hide Run, Refetched, Skipped;
    RunKeeps(steps);
    KeptIffSkipped(steps);
    StuckIffRefetched(steps);
    EveryFetchEnds(steps);
    var n := Run(steps);
    if !n.stuck {
      assert Referrers(n) == {};
    }
  }

  // ---- the order in which callers are told ----

  /** The fetches that were issued while an RPC for the key was in progress, in order. */
  function Parked(steps: seq<Step>): seq<nat> {
    if steps == [] then []
    else
      var n, s := Run(steps[..|steps| - 1]), steps[|steps| - 1];
      Parked(steps[..|steps| - 1])
      + if s.Issue? && Enabled(n, s) && n.slot.Present? && n.slot.e.inProgress then [s.f] else []
  }

  function OnlyIn(q: seq<nat>, p: seq<nat>): seq<nat> {
    if q == [] then [] else OnlyIn(q[..|q| - 1], p) + if q[|q| - 1] in p then [q[|q| - 1]] else []
  }

  function PendingOf(n: Node): seq<nat> {
    if n.slot.Present? then n.slot.e.pending else []
  }

  /** The parked fetches are those that wait and some that are over. */
  ghost predicate ParkedOk(n: Node, p: seq<nat>) {
    && (forall f <- p :: f in n.stages && (n.stages[f] == Waits || n.stages[f] == Over))
    && (forall f <- n.stages :: n.stages[f] == Waits ==> f in p)
    && (forall f <- n.finalized :: f in n.stages)
  }

  ghost predicate InTurn(n: Node, p: seq<nat>) {
    ParkedOk(n, p) && OnlyIn(n.finalized, p) + PendingOf(n) == p
  }

  lemma {:induction false} OnlyInMore(q: seq<nat>, p: seq<nat>, f: nat)
    requires f !in q
    ensures OnlyIn(q, p + [f]) == OnlyIn(q, p)
    decreases |q|
  {
    if q != [] {
      OnlyInMore(q[..|q| - 1], p, f);
      assert q[|q| - 1] in q;
    }
  }

  lemma OnlyInNext(q: seq<nat>, p: seq<nat>, f: nat)
    ensures OnlyIn(q + [f], p) == OnlyIn(q, p) + if f in p then [f] else []
  {
    assert (q + [f])[..|q|] == q;
  }

  lemma IssueParked(n: Node, f: nat, p: seq<nat>)
    requires ParkedOk(n, p) && Enabled(n, Issue(f))
    ensures ParkedOk(DoIssue(n, f), p + if n.slot.Present? && n.slot.e.inProgress then [f] else [])
  {
  }

  lemma QueueInTurn(told: seq<nat>, q: seq<nat>, p: seq<nat>, f: nat)
    requires OnlyIn(told, p) + q == p && f !in told
    ensures OnlyIn(told, p + [f]) + (q + [f]) == p + [f]
  {
    OnlyInMore(told, p, f);
    hide OnlyIn;
    var t := OnlyIn(told, p);
    assert (t + q) + [f] == t + (q + [f]);
  }

  lemma IssueInTurn(n: Node, f: nat, p: seq<nat>)
    requires InTurn(n, p) && Enabled(n, Issue(f))
    ensures InTurn(DoIssue(n, f), p + if n.slot.Present? && n.slot.e.inProgress then [f] else [])
  {
    IssueParked(n, f, p);
    assert f !in n.finalized;
    hide ParkedOk;
    QueueInTurn(n.finalized, PendingOf(n), p, f);
    hide OnlyIn;
    assert p + [] == p;
  }

  /** One more fetch is told: the next one that waits, or one that never did. */
  lemma TellInTurn(told: seq<nat>, q: seq<nat>, p: seq<nat>, f: nat)
    requires OnlyIn(told, p) + q == p && (f in p ==> q != [] && q[0] == f)
    ensures OnlyIn(told + [f], p) + (if f in p then q[1..] else q) == p
  {
    OnlyInNext(told, p, f);
    hide OnlyIn;
    if f in p {
      var t := OnlyIn(told, p);
      assert q == [f] + q[1..];
      assert t + ([f] + q[1..]) == (t + [f]) + q[1..];
    } else {
      assert OnlyIn(told, p) + [] == OnlyIn(told, p);
    }
  }

  lemma PopInTurn(n: Node, f: nat, p: seq<nat>)
    requires Listed(n) && InTurn(n, p) && Enabled(n, Pop(f))
    ensures InTurn(DoPop(n, f), p)
  {
    hide OnlyIn;
    var q := n.slot.e.pending;
    if q != [] {
      assert n.stages[q[0]] == Waits;
      TellInTurn(n.finalized, q, p, q[0]);
    }
  }

  lemma TellsOwn(n: Node, f: nat, p: seq<nat>)
    requires InTurn(n, p) && Enabled(n, Finalize(f))
    ensures InTurn(Do(n, Finalize(f)), p)
  {
    hide OnlyIn;
    assert f !in p;
    TellInTurn(n.finalized, PendingOf(n), p, f);
  }

  lemma OthersInTurn(n: Node, s: Step, p: seq<nat>)
    requires Inv(n) && InTurn(n, p) && Enabled(n, s) && (s.Respond? || s.Grab? || s.Close?)
    ensures InTurn(Do(n, s), p)
  {
    hide Anchored, Counted, Locked, ToldOnce, OnlyIn;
    assert s.f !in p;
  }

  lemma StuckInTurn(n: Node, s: Step, p: seq<nat>)
    requires s.Refetch? && Enabled(n, s) && InTurn(Do(n, Callback(n, s.f)), p)
    ensures InTurn(Do(n, s), p)
  {
    assert Do(n, s) == Do(n, Callback(n, s.f)).(stuck := true);
    hide Do, OnlyIn;
  }

  lemma PlainInTurn(n: Node, s: Step, p: seq<nat>)
    requires Inv(n) && InTurn(n, p) && Enabled(n, s) && !s.Issue? && !s.Refetch?
    ensures InTurn(Do(n, s), p)
  {
    match s
    case Respond(_, _) => OthersInTurn(n, s, p);
    case Grab(_) => OthersInTurn(n, s, p);
    case Finalize(f) => TellsOwn(n, f, p);
    case Pop(f) => PopInTurn(n, f, p);
    case Close(_) => OthersInTurn(n, s, p);
    hide InTurn, Inv;
  }

  lemma StepInTurn(n: Node, s: Step, p: seq<nat>)
    requires Inv(n) && InTurn(n, p) && Enabled(n, s) && !s.Issue?
    ensures InTurn(Do(n, s), p)
  {
    hide InTurn, Inv, Do, DoPop, DoClose;
    if s.Refetch? {
      CallbackHolds(n, s.f);
      PlainInTurn(n, Callback(n, s.f), p);
      StuckInTurn(n, s, p);
    } else {
      PlainInTurn(n, s, p);
    }
  }

  /**
   In every run, the fetches that found an RPC in progress are told in the order in which they were
   issued: those told so far come first, then those on the pending list, in order.
   */
  lemma {:induction false} ToldInTurn(steps: seq<Step>)
    ensures InTurn(Run(steps), Parked(steps))
    decreases |steps|
  {
    hide Do, Enabled, Inv;
    if steps != [] {
      hide InTurn;
      var init, s := steps[..|steps| - 1], steps[|steps| - 1];
      ToldInTurn(init);
      RunKeeps(init);
      assert Parked(init) + [] == Parked(init);
      if !Enabled(Run(init), s) {
        DisabledIsNoop(Run(init), s);
      } else if s.Issue? {
        IssueInTurn(Run(init), s.f, Parked(init));
        IssueDone(Run(init), s.f);
      } else {
        StepInTurn(Run(init), s, Parked(init));
      }
    }
  }

  lemma IssueDone(n: Node, f: nat)
    requires Enabled(n, Issue(f))
    ensures Do(n, Issue(f)) == DoIssue(n, f)
  {
  }

  /** The response to fetch f arrived during the run and was a success. */
  ghost predicate Succeeded(steps: seq<Step>, f: nat) {
    exists k :: 0 <= k < |steps| && SucceedsAt(steps, k, f)
  }

  ghost predicate SucceedsAt(steps: seq<Step>, k: nat, f: nat)
    requires k < |steps|
  {
    steps[k] == Respond(f, true) && Enabled(Run(steps[..k]), steps[k])
  }

  /** What the handler of f goes by. */
  predicate ResultIs(s: Stage, ok: bool) {
    match s
    case Sent => !ok
    case Arrived(o) => o == ok
    case Draining(_, o, _) => o == ok
    case Released(_, o) => o == ok
    case Closing => !ok
    case Waits => !ok
    case Over => true
  }

  lemma StepResult(n: Node, s: Step, f: nat, ok: bool)
    requires Inv(n) && (if f in n.stages then ResultIs(n.stages[f], ok) else !ok)
    ensures f in Do(n, s).stages ==> ResultIs(Do(n, s).stages[f], ok || (s == Respond(f, true) && Enabled(n, s)))
    ensures f in n.stages ==> f in Do(n, s).stages
    decreases s.Refetch?
  {
    hide Counted, ToldOnce, Anchored, Locked;
    if s.Refetch? && Enabled(n, s) {
      CallbackHolds(n, s.f);
      StepResult(n, Callback(n, s.f), f, ok);
    }
  }

  lemma SucceededLater(steps: seq<Step>, f: nat)
    requires steps != []
    ensures Succeeded(steps, f) <==> Succeeded(steps[..|steps| - 1], f) || SucceedsAt(steps, |steps| - 1, f)
  {
    hide Run, Enabled;
    var init := steps[..|steps| - 1];
    forall k: nat | k < |init| ensures SucceedsAt(init, k, f) <==> SucceedsAt(steps, k, f) {
      assert init[..k] == steps[..k];
    }
    if Succeeded(init, f) {
      var k :| 0 <= k < |init| && SucceedsAt(init, k, f);
      assert SucceedsAt(steps, k, f);
    }
  }

  lemma {:induction false} RunResult(steps: seq<Step>, f: nat)
    ensures
      var n := Run(steps);
      if f in n.stages then ResultIs(n.stages[f], Succeeded(steps, f)) else !Succeeded(steps, f)
    decreases |steps|
  {
    hide Do, Inv, ResultIs, Enabled;
    if steps != [] {
      var init, s := steps[..|steps| - 1], steps[|steps| - 1];
      RunResult(init, f);
      RunKeeps(init);
      SucceededLater(steps, f);
      StepResult(Run(init), s, f, Succeeded(init, f));
      if SucceedsAt(steps, |init|, f) {
        RespondsKnown(Run(init), s, f);
      }
    }
  }

  lemma RespondsKnown(n: Node, s: Step, f: nat)
    requires s == Respond(f, true) && Enabled(n, s)
    ensures f in n.stages
  {
  }

  /**
   In every run, when a handler tells a waiting caller, its own caller has been told if and only if the
   fetch succeeded: after a success it comes first, after a failure last.
   */
  lemma OwnCallerInTurn(steps: seq<Step>, g: nat)
    requires Enabled(Run(steps), Pop(g))
    ensures Times(Run(steps).finalized, g) == if Succeeded(steps, g) then 1 else 0
  {
    hide Run, Succeeded;
    RunKeeps(steps);
    RunResult(steps, g);
    hide Anchored, Counted, Locked, Listed;
  }

  lemma RunNext(steps: seq<Step>, s: Step)
    ensures Run(steps + [s]) == Do(Run(steps), s)
  {
    assert (steps + [s])[..|steps|] == steps;
  }

  /** It does happen: a second fetch between the two visits of the first one's handler. */
  lemma EntryStaysBehind() returns (steps: seq<Step>)
    ensures Quiet(Run(steps)) && Run(steps).slot.Present?
  {
    steps := SecondGrab();
    hide Run, Quiet;
    var s5 := steps + [Finalize(1)];
    RunNext(steps, Finalize(1));
    assert Run(s5) == Node(Present(Entry(0, true, 2, [], HeldBy(1), 1)), 1,
                           map[0 := Over, 1 := Draining(0, true, true)], [0, 1], false);
    var s6 := s5 + [Pop(1)];
    RunNext(s5, Pop(1));
    assert Run(s6) == Node(Present(Entry(0, false, 2, [], Nobody, 1)), 1,
                           map[0 := Over, 1 := Released(0, true)], [0, 1], false);
    RunNext(s6, Close(1));
    steps := s6 + [Close(1)];
    assert Run(steps) == Node(Present(Entry(0, false, 1, [], Nobody, 1)), 1, map[0 := Over, 1 := Over], [0, 1], false);
    AllOver(Run(steps));
  }

  lemma AllOver(n: Node)
    requires forall f <- n.stages :: n.stages[f] == Over
    ensures Quiet(n)
  {
  }

  lemma SecondGrab() returns (steps: seq<Step>)
    ensures Run(steps) == Node(Present(Entry(0, true, 2, [], HeldBy(1), 1)), 1,
                               map[0 := Over, 1 := Draining(0, true, false)], [0], false)
  {
    hide Run;
    var first := [Issue(0), Respond(0, true), Grab(0), Finalize(0), Pop(0)];
    var a := FirstFetch();
    RunNext(first, Issue(1));
    var s1 := first + [Issue(1)];
    RunNext(s1, Close(0));
    var s2 := s1 + [Close(0)];
    assert Run(s2) == Node(Present(Entry(0, true, 2, [], Nobody, 1)), 1, map[0 := Over, 1 := Sent], [0], false);
    RunNext(s2, Respond(1, true));
    var s3 := s2 + [Respond(1, true)];
    RunNext(s3, Grab(1));
    steps := s3 + [Grab(1)];
  }

  lemma FirstGrab()
    ensures Run([Issue(0), Respond(0, true), Grab(0)])
         == Node(Present(Entry(0, true, 1, [], HeldBy(0), 0)), 1, map[0 := Draining(0, true, false)], [], false)
  {
    RunNext([], Issue(0));
    assert Run([]) == Node(Absent, 0, map[], [], false);
    hide Run;
    assert [] + [Issue(0)] == [Issue(0)];
    RunNext([Issue(0)], Respond(0, true));
    assert [Issue(0)] + [Respond(0, true)] == [Issue(0), Respond(0, true)];
    RunNext([Issue(0), Respond(0, true)], Grab(0));
    assert [Issue(0), Respond(0, true)] + [Grab(0)] == [Issue(0), Respond(0, true), Grab(0)];
  }

  lemma FirstFetch() returns (n: Node)
    ensures n == Run([Issue(0), Respond(0, true), Grab(0), Finalize(0), Pop(0)])
    ensures n == Node(Present(Entry(0, false, 1, [], Nobody, 0)), 1, map[0 := Released(0, true)], [0], false)
  {
    FirstGrab();
    hide Run;
    RunNext([Issue(0), Respond(0, true), Grab(0)], Finalize(0));
    assert [Issue(0), Respond(0, true), Grab(0)] + [Finalize(0)] == [Issue(0), Respond(0, true), Grab(0), Finalize(0)];
    RunNext([Issue(0), Respond(0, true), Grab(0), Finalize(0)], Pop(0));
    assert [Issue(0), Respond(0, true), Grab(0), Finalize(0)] + [Pop(0)]
        == [Issue(0), Respond(0, true), Grab(0), Finalize(0), Pop(0)];
    n := Run([Issue(0), Respond(0, true), Grab(0), Finalize(0), Pop(0)]);
  }
}
