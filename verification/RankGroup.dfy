/**
 Membership of a secondary group (src/cart/crt_group.c): the sparse member list with its free
 indices, and the two tables between secondary and primary ranks.
 */
module RankGroup {
  import opened RankList

  const NO_RANK: nat := 0xFFFF_FFFF
  const REALLOC_SIZE: nat := 32

  /** struct crt_grp_membs: the sparse list, the free indices, gp_size and the linear list. */
  datatype Slots = Slots(membs: seq<nat>, free: seq<nat>, size: int, linear: seq<nat>)

  /** The members in slot order. */
  function Compact(membs: seq<nat>): seq<nat> {
    Kept([NO_RANK], membs, true)
  }

  /** grp_regen_linear_list. */
  function Regen(s: Slots): Slots {
    s.(linear := Compact(s.membs))
  }

  /** A full list grows by REALLOC_SIZE holes, all of them free. */
  function Room(s: Slots): Slots {
    if s.free != [] then s
    else s.(membs := s.membs + seq(REALLOC_SIZE, _ => NO_RANK), free := seq(REALLOC_SIZE, i => |s.membs| + i))
  }

  /** grp_add_to_membs_list. */
  function AddMember(s: Slots, rank: nat): Slots {
    var t := Room(s);
    if t.free == [] || t.free[0] >= |t.membs| then s
    else Regen(t.(membs := t.membs[t.free[0] := rank], free := t.free[1..], size := t.size + 1))
  }

  /** The end of crt_group_rank_remove_internal. */
  function DropMember(s: Slots, rank: nat): Slots {
    if rank !in s.membs then s
    else
      var i := IndexOf(s.membs, rank);
      Regen(s.(membs := s.membs[i := NO_RANK], free := [i] + s.free, size := s.size - 1))
  }

  /** The free indices are exactly the holes, members are distinct, and size counts them. */
  ghost predicate SlotsInv(s: Slots) {
    && (forall i, j :: 0 <= i < j < |s.free| ==> s.free[i] != s.free[j])
    && (forall i: nat :: i in s.free <==> i < |s.membs| && s.membs[i] == NO_RANK)
    && (forall i, j :: 0 <= i < j < |s.membs| && s.membs[i] != NO_RANK ==> s.membs[i] != s.membs[j])
    && s.size == |Compact(s.membs)|
    && s.linear == Compact(s.membs)
  }

  lemma {:induction false} CompactAppend(a: seq<nat>, b: seq<nat>)
    ensures Compact(a + b) == Compact(a) + Compact(b)
    decreases |a|
  {
    if a == [] {
      assert a + b == b;
    } else {
      assert (a + b)[1..] == a[1..] + b;
      CompactAppend(a[1..], b);
    }
  }

  lemma {:induction false} CompactHoles(n: nat)
    ensures Compact(seq(n, _ => NO_RANK)) == []
    decreases n
  {
    if n > 0 {
      assert seq(n, _ => NO_RANK)[1..] == seq(n - 1, _ => NO_RANK);
      CompactHoles(n - 1);
    }
  }

  lemma CompactUpdate(m: seq<nat>, i: nat, r: nat)
    requires i < |m| && (m[i] == NO_RANK) != (r == NO_RANK)
    ensures |Compact(m[i := r])| == |Compact(m)| + if r == NO_RANK then -1 else 1
  {
    var a, b := m[..i], m[i + 1..];
    assert m == a + ([m[i]] + b) && m[i := r] == a + ([r] + b);
    CompactAppend(a, [m[i]] + b);
    CompactAppend(a, [r] + b);
    CompactAppend([m[i]], b);
    CompactAppend([r], b);
    CompactOne(m[i]);
    CompactOne(r);
  }

  lemma CompactOne(r: nat)
    ensures Compact([r]) == if r == NO_RANK then [] else [r]
  {
    assert [r][1..] == [] && Kept([NO_RANK], [], true) == [];
  }

  lemma RoomKeeps(s: Slots)
    requires SlotsInv(s)
    ensures SlotsInv(Room(s)) && Room(s).free != [] && Room(s).size == s.size
    ensures Compact(Room(s).membs) == Compact(s.membs)
    ensures forall r: nat :: r != NO_RANK ==> (r in Room(s).membs <==> r in s.membs)
  {
    if s.free == [] {
      CompactAppend(s.membs, seq(REALLOC_SIZE, _ => NO_RANK));
      CompactHoles(REALLOC_SIZE);
      hide Compact;
      var t := Room(s);
      assert Compact(t.membs) == Compact(s.membs) + [] == Compact(s.membs);
      forall i: nat | i < |t.membs| && t.membs[i] == NO_RANK ensures i in t.free {
        assert i < |s.membs| ==> i in s.free;
        assert t.free[i - |s.membs|] == i;
      }
    }
  }

  lemma AddKeeps(s: Slots, rank: nat)
    requires SlotsInv(s) && rank !in s.membs && rank != NO_RANK
    ensures SlotsInv(AddMember(s, rank)) && AddMember(s, rank).size == s.size + 1
    ensures forall r: nat :: r != NO_RANK ==> (r in AddMember(s, rank).membs <==> r in s.membs || r == rank)
  {
    RoomKeeps(s);
    var t := Room(s);
    var i := t.free[0];
    assert i in t.free;
    CompactUpdate(t.membs, i, rank);
    hide Compact, Room;
    var u := AddMember(s, rank);
    assert u.membs == t.membs[i := rank];
    FillHole(t, i, rank);
  }

  /** What filling the first free index does to the members and the free indices. */
  lemma FillHole(t: Slots, i: nat, rank: nat)
    requires SlotsInv(t) && t.free != [] && i == t.free[0] < |t.membs| && rank !in t.membs && rank != NO_RANK
    ensures
      var m, free := t.membs[i := rank], t.free[1..];
      && (forall j: nat :: j in free <==> j < |m| && m[j] == NO_RANK)
      && (forall j, k :: 0 <= j < k < |free| ==> free[j] != free[k])
      && (forall j, k :: 0 <= j < k < |m| && m[j] != NO_RANK ==> m[j] != m[k])
      && (forall r: nat :: r != NO_RANK ==> (r in m <==> r in t.membs || r == rank))
  {
    hide Compact;
    var m, free := t.membs[i := rank], t.free[1..];
    assert i in t.free && t.membs[i] == NO_RANK;
    assert t.free == [i] + free;
    assert i !in free && forall j: nat :: j in free <==> j in t.free && j != i;
    forall r: nat | r != NO_RANK ensures r in m <==> r in t.membs || r == rank {
      if r in t.membs {
        var k :| 0 <= k < |t.membs| && t.membs[k] == r;
        assert m[k] == r;
      }
      assert m[i] == rank;
    }
  }

  lemma DropKeeps(s: Slots, rank: nat)
    requires SlotsInv(s) && rank in s.membs && rank != NO_RANK
    ensures SlotsInv(DropMember(s, rank)) && DropMember(s, rank).size == s.size - 1
    ensures forall r: nat :: r != NO_RANK ==> (r in DropMember(s, rank).membs <==> r in s.membs && r != rank)
  {
    var i := IndexOf(s.membs, rank);
    CompactUpdate(s.membs, i, NO_RANK);
    hide Compact, IndexOf;
    MakeHole(s, i);
  }

  lemma MakeHole(s: Slots, i: nat)
    requires SlotsInv(s) && i < |s.membs| && s.membs[i] != NO_RANK
    ensures
      var m, free := s.membs[i := NO_RANK], [i] + s.free;
      && (forall j: nat :: j in free <==> j < |m| && m[j] == NO_RANK)
      && (forall j, k :: 0 <= j < k < |free| ==> free[j] != free[k])
      && (forall j, k :: 0 <= j < k < |m| && m[j] != NO_RANK ==> m[j] != m[k])
      && (forall r: nat :: r != NO_RANK ==> (r in m <==> r in s.membs && r != s.membs[i]))
  {
    hide Compact;
    var m, free := s.membs[i := NO_RANK], [i] + s.free;
    assert i !in s.free;
    forall r: nat | r != NO_RANK ensures r in m <==> r in s.membs && r != s.membs[i] {
      if r in s.membs && r != s.membs[i] {
        var k :| 0 <= k < |s.membs| && s.membs[k] == r;
        assert m[k] == r;
      }
    }
  }

  /** Dropping the member that was added last gives back what there was, room for it included. */
  lemma DropUndoesAdd(s: Slots, rank: nat)
    requires SlotsInv(s) && rank !in s.membs && rank != NO_RANK
    ensures DropMember(AddMember(s, rank), rank) == Room(s)
  {
    RoomKeeps(s);
    var t := Room(s);
    var i := t.free[0];
    assert i in t.free && t.membs[i] == NO_RANK;
    var m := t.membs[i := rank];
    assert rank !in t.membs;
    assert m[i] == rank && forall j :: 0 <= j < |m| && m[j] == rank ==> j == i;
    OnlyIndex(m, rank, i);
    hide Room, Compact, IndexOf;
    assert m[i := NO_RANK] == t.membs && [i] + t.free[1..] == t.free;
    assert t.linear == Compact(t.membs);
  }

  lemma OnlyIndex(m: seq<nat>, x: nat, i: nat)
    requires i < |m| && m[i] == x && forall j :: 0 <= j < |m| && m[j] == x ==> j == i
    ensures IndexOf(m, x) == i
  {
  }

  /** The index that became free last is used first. */
  lemma AddReusesIndex(s: Slots, rank: nat, next: nat)
    requires SlotsInv(s) && rank in s.membs && rank != NO_RANK && next != NO_RANK
    ensures AddMember(DropMember(s, rank), next).membs == s.membs[IndexOf(s.membs, rank) := next]
  {
    hide Compact, IndexOf;
  }

  // ---- the two tables ----

  datatype Group = Group(s2p: map<nat, nat>, p2s: map<nat, nat>, slots: Slots)

  /** The tables are inverse to each other and lead into the primary group. */
  ghost predicate Inverse(g: Group, prim: seq<nat>) {
    && (forall s <- g.s2p :: g.s2p[s] in g.p2s && g.p2s[g.s2p[s]] == s && g.s2p[s] in prim)
    && (forall p <- g.p2s :: g.p2s[p] in g.s2p && g.s2p[g.p2s[p]] == p)
  }

  ghost predicate Inv(g: Group, prim: seq<nat>) {
    && Inverse(g, prim) && SlotsInv(g.slots)
    && NO_RANK !in g.s2p
    && (forall r: nat :: r != NO_RANK ==> (r in g.slots.membs <==> r in g.s2p))
  }

  datatype Code = Success | OutOfGroup | Exists

  predicate CanAdd(g: Group, prim: seq<nat>, sec: nat, p: nat) {
    p in prim && sec !in g.s2p && p !in g.p2s
  }

  /** crt_group_secondary_rank_add_internal. */
  function AddCode(g: Group, prim: seq<nat>, sec: nat, p: nat): Code {
    if p !in prim then OutOfGroup else if sec in g.s2p || p in g.p2s then Exists else Success
  }

  function AddRank(g: Group, sec: nat, p: nat): Group {
    Group(g.s2p[sec := p], g.p2s[p := sec], AddMember(g.slots, sec))
  }

  /** crt_group_rank_remove_internal on a secondary group. */
  function RemoveRank(g: Group, sec: nat): Group {
    if sec !in g.s2p then g else Group(g.s2p - {sec}, g.p2s - {g.s2p[sec]}, DropMember(g.slots, sec))
  }

  lemma AddRankKeeps(g: Group, prim: seq<nat>, sec: nat, p: nat)
    requires Inv(g, prim) && CanAdd(g, prim, sec, p) && sec != NO_RANK
    ensures Inv(AddRank(g, sec, p), prim)
  {
    hide SlotsInv, AddMember, Room;
    AddKeeps(g.slots, sec);
  }

  lemma RemoveRankKeeps(g: Group, prim: seq<nat>, sec: nat)
    requires Inv(g, prim)
    ensures Inv(RemoveRank(g, sec), prim)
  {
    hide SlotsInv, DropMember;
    if sec in g.s2p {
      DropKeeps(g.slots, sec);
    }
  }

  /** Removing what was just added leaves both tables and the list as they were, up to new holes at its end. */
  lemma RemoveUndoesAdd(g: Group, prim: seq<nat>, sec: nat, p: nat)
    requires Inv(g, prim) && CanAdd(g, prim, sec, p) && sec != NO_RANK
    ensures
      var h := RemoveRank(AddRank(g, sec, p), sec);
      h.s2p == g.s2p && h.p2s == g.p2s && h.slots == Room(g.slots)
  {
    hide SlotsInv, AddMember, DropMember, Room;
    DropUndoesAdd(g.slots, sec);
    assert g.s2p[sec := p] - {sec} == g.s2p && g.p2s[p := sec] - {p} == g.p2s;
    hide Inv, Inverse;
  }

  /** An addition is accepted if and only if the group is consistent after it; the code says what is wrong. */
  lemma AcceptedIffConsistent(g: Group, prim: seq<nat>, sec: nat, p: nat)
    requires Inv(g, prim) && sec != NO_RANK
    ensures AddCode(g, prim, sec, p) == Success <==> Inv(AddRank(g, sec, p), prim)
    ensures AddCode(g, prim, sec, p) == OutOfGroup <==> p !in prim
  {
    var h := AddRank(g, sec, p);
    if AddCode(g, prim, sec, p) == Success {
      AddRankKeeps(g, prim, sec, p);
    } else if p !in prim {
      assert h.s2p[sec] == p;
    } else if sec in g.s2p {
      AddedTwice(g.slots, sec);
    } else {
      assert g.p2s[p] in h.s2p && h.s2p[g.p2s[p]] == p && h.p2s[p] == sec;
    }
  }

  lemma AddedTwice(s: Slots, rank: nat)
    requires SlotsInv(s) && rank in s.membs && rank != NO_RANK
    ensures !SlotsInv(AddMember(s, rank))
  {
    RoomKeeps(s);
    var t := Room(s);
    var i := t.free[0];
    assert i in t.free && t.membs[i] == NO_RANK;
    assert rank in t.membs;
    hide Room, Compact;
    var j :| 0 <= j < |t.membs| && t.membs[j] == rank;
    var m := AddMember(s, rank).membs;
    assert m[i] == rank && m[j] == rank && i != j;
  }

  // ---- removal from the primary group ----

  /** crt_grp_remove_from_secondaries for one secondary group. */
  function RemovePrimary(g: Group, rank: nat): Group {
    if rank in g.p2s then RemoveRank(g, g.p2s[rank]) else g
  }

  /** After a primary rank has gone, no table leads to it. */
  lemma RemovePrimaryKeeps(g: Group, prim: seq<nat>, rank: nat)
    requires Inv(g, prim)
    ensures Inv(RemovePrimary(g, rank), Kept([rank], prim, true))
  {
    hide SlotsInv, DropMember;
    var h := RemovePrimary(g, rank);
    if rank in g.p2s {
      RemoveRankKeeps(g, prim, g.p2s[rank]);
    }
    KeptSelects([rank], prim, true);
  }

  // ---- modification ----

  datatype Op = Replace | Add | Remove

  /** The positions in mod of ranks that are not yet members. */
  function NewAt(linear: seq<nat>, mod: seq<nat>, k: nat): seq<nat>
    requires k <= |mod|
    decreases |mod| - k
  {
    if k == |mod| then []
    else if mod[k] in linear then NewAt(linear, mod, k + 1)
    else [k] + NewAt(linear, mod, k + 1)
  }

  function ToAdd(linear: seq<nat>, mod: seq<nat>, op: Op): seq<nat> {
    if op == Remove then [] else NewAt(linear, mod, 0)
  }

  function ToRemove(linear: seq<nat>, mod: seq<nat>, op: Op): seq<nat> {
    match op
    case Replace => Kept(mod, linear, true)
    case Add => []
    case Remove => Kept(linear, mod, false)
  }

  // ---- room for the ranks to remove ----

  /** How often mod lists a member that it lists again further on. */
  function Repeats(linear: seq<nat>, mod: seq<nat>): nat {
    if mod == [] then 0
    else (if mod[0] in linear && mod[0] in mod[1..] then 1 else 0) + Repeats(linear, mod[1..])
  }

  function Listed(linear: seq<nat>, mod: seq<nat>): set<nat> {
    set x | x in linear && x in mod
  }

  lemma {:induction false} RemovedCount(linear: seq<nat>, mod: seq<nat>)
    ensures |Kept(linear, mod, false)| == Repeats(linear, mod) + |Listed(linear, mod)|
    decreases |mod|
  {
    if mod == [] {
      assert Listed(linear, mod) == {};
    } else {
      var h, t := mod[0], mod[1..];
      RemovedCount(linear, t);
      assert mod == [h] + t;
      assert Listed(linear, mod) == Listed(linear, t) + if h in linear then {h} else {};
    }
  }

  lemma {:induction false} MembersCount(linear: seq<nat>, mod: seq<nat>)
    requires Distinct(linear)
    ensures |linear| == |Listed(linear, mod)| + |Kept(mod, linear, true)|
    decreases |linear|
  {
    if linear == [] {
      assert Listed(linear, mod) == {};
    } else {
      var h, t := linear[0], linear[1..];
      assert Distinct(t) by {
        forall i, j | 0 <= i < j < |t| ensures t[i] != t[j] {
          assert linear[i + 1] != linear[j + 1];
        }
      }
      MembersCount(t, mod);
      assert linear == [h] + t && h !in t;
      assert Listed(linear, mod) == Listed(t, mod) + if h in mod then {h} else {};
    }
  }

  /**
   crt_group_mod_get allocates one place per member for the ranks to remove.  They fit when a
   replacement or an addition is asked for; when a removal is, they fit if and only if mod
   repeats members no more often than there are members it does not list.
   */
  lemma RemovedFitIff(s: Slots, mod: seq<nat>, op: Op)
    requires SlotsInv(s)
    ensures |ToRemove(s.linear, mod, op)| <= |s.linear| <==>
              (op == Remove ==> Repeats(s.linear, mod) <= |Kept(mod, s.linear, true)|)
  {
    CompactDistinct(s.membs);
    RemovedCount(s.linear, mod);
    MembersCount(s.linear, mod);
    hide Kept, Repeats;
  }

  lemma {:induction false} CompactDistinct(membs: seq<nat>)
    requires forall i, j :: 0 <= i < j < |membs| && membs[i] != NO_RANK ==> membs[i] != membs[j]
    ensures Distinct(Compact(membs))
    decreases |membs|
  {
    if membs != [] {
      var t := membs[1..];
      forall i, j | 0 <= i < j < |t| && t[i] != NO_RANK ensures t[i] != t[j] {
        assert membs[i + 1] != membs[j + 1];
      }
      CompactDistinct(t);
      KeptSelects([NO_RANK], t, true);
      assert membs[0] != NO_RANK ==> membs[0] !in t;
    }
  }

  /** A list of ranks without repetitions always fits. */
  lemma {:induction false} DistinctNeverRepeats(linear: seq<nat>, mod: seq<nat>)
    requires Distinct(mod)
    ensures Repeats(linear, mod) == 0
    decreases |mod|
  {
    if mod != [] {
      var t := mod[1..];
      assert Distinct(t) by {
        forall i, j | 0 <= i < j < |t| ensures t[i] != t[j] {
          assert mod[i + 1] != mod[j + 1];
        }
      }
      DistinctNeverRepeats(linear, t);
      assert mod[0] !in t;
    }
  }

  /** The smallest list that does not fit names the only member twice. */
  lemma RemovedOverflow(r: nat)
    ensures |ToRemove([r], [r, r], Remove)| == 2
  {
    assert [r, r][1..] == [r] && [r][1..] == [];
    assert Kept([r], [r, r], false) == [r] + Kept([r], [r], false);
  }

  predicate Positions(idx: seq<nat>, n: nat) {
    forall k :: 0 <= k < |idx| ==> idx[k] < n
  }

  datatype Progress = Progress(group: Group, code: Code, done: seq<nat>)

  /** The adding loop of crt_group_secondary_modify: it stops at the first rank that is refused. */
  function AddAll(g: Group, prim: seq<nat>, secs: seq<nat>, prims: seq<nat>, idx: seq<nat>): Progress
    requires |secs| == |prims| && Positions(idx, |secs|)
    decreases |idx|
  {
    if idx == [] then Progress(g, Success, [])
    else
      var code := AddCode(g, prim, secs[idx[0]], prims[idx[0]]);
      if code != Success then Progress(g, code, [])
      else
        var rest := AddAll(AddRank(g, secs[idx[0]], prims[idx[0]]), prim, secs, prims, idx[1..]);
        Progress(rest.group, rest.code, [secs[idx[0]]] + rest.done)
  }

  function RemoveAll(g: Group, ranks: seq<nat>): Group
    decreases |ranks|
  {
    if ranks == [] then g else RemoveAll(RemoveRank(g, ranks[0]), ranks[1..])
  }

  datatype Outcome = Outcome(group: Group, code: Code)

  lemma {:induction false} NewAtBounds(linear: seq<nat>, mod: seq<nat>, k: nat)
    requires k <= |mod|
    ensures Positions(NewAt(linear, mod, k), |mod|) && |NewAt(linear, mod, k)| <= |mod| - k
    ensures forall i <- NewAt(linear, mod, k) :: k <= i < |mod| && mod[i] !in linear
    ensures forall i: nat :: k <= i < |mod| && mod[i] !in linear ==> i in NewAt(linear, mod, k)
    decreases |mod| - k
  {
    if k < |mod| {
      NewAtBounds(linear, mod, k + 1);
    }
  }

  /** crt_group_secondary_modify on arguments it accepts. */
  function Modify(g: Group, prim: seq<nat>, secs: seq<nat>, prims: seq<nat>, op: Op): Outcome
    requires op != Remove ==> |secs| == |prims|
  {
    if op == Remove then Outcome(RemoveAll(g, ToRemove(g.slots.linear, secs, op)), Success)
    else
      var idx := ToAdd(g.slots.linear, secs, op);
      NewAtBounds(g.slots.linear, secs, 0);
      var added := AddAll(g, prim, secs, prims, idx);
      if added.code != Success then Outcome(RemoveAll(added.group, added.done), added.code)
      else Outcome(RemoveAll(added.group, ToRemove(g.slots.linear, secs, op)), Success)
  }

  ghost predicate ValidRanks(secs: seq<nat>) {
    forall i :: 0 <= i < |secs| ==> secs[i] != NO_RANK
  }

  /** What a sequence of removals leaves in the tables. */
  lemma {:induction false} RemoveAllExact(g: Group, prim: seq<nat>, ranks: seq<nat>)
    requires Inv(g, prim)
    ensures
      var h := RemoveAll(g, ranks);
      && Inv(h, prim)
      && (forall s: nat :: s in h.s2p <==> s in g.s2p && s !in ranks)
      && (forall s <- h.s2p :: h.s2p[s] == g.s2p[s])
    decreases |ranks|
  {
    hide Inv, DropMember;
    if ranks != [] {
      var g1 := RemoveRank(g, ranks[0]);
      RemoveRankKeeps(g, prim, ranks[0]);
      RemoveAllExact(g1, prim, ranks[1..]);
      assert ranks == [ranks[0]] + ranks[1..];
    }
  }

  /** What a sequence of additions puts into the tables. */
  lemma {:induction false} AddAllExact(g: Group, prim: seq<nat>, secs: seq<nat>, prims: seq<nat>, idx: seq<nat>)
    requires Inv(g, prim) && |secs| == |prims| && Positions(idx, |secs|) && ValidRanks(secs)
    ensures
      var r := AddAll(g, prim, secs, prims, idx);
      && Inv(r.group, prim)
      && (forall s: nat :: s in r.group.s2p <==> s in g.s2p || s in r.done)
      && (forall s <- g.s2p :: r.group.s2p[s] == g.s2p[s] && s !in r.done)
      && (r.code == Success ==> forall k :: 0 <= k < |idx| ==>
            secs[idx[k]] in r.done && secs[idx[k]] in r.group.s2p && r.group.s2p[secs[idx[k]]] == prims[idx[k]])
      && (r.code == Success ==> forall s <- r.done :: exists k :: 0 <= k < |idx| && secs[idx[k]] == s)
    decreases |idx|
  {
    hide Inv, AddMember;
    if idx != [] {
      var s, p := secs[idx[0]], prims[idx[0]];
      if AddCode(g, prim, s, p) == Success {
        var g1 := AddRank(g, s, p);
        AddRankKeeps(g, prim, s, p);
        AddAllExact(g1, prim, secs, prims, idx[1..]);
        var r := AddAll(g, prim, secs, prims, idx);
        var rest := AddAll(g1, prim, secs, prims, idx[1..]);
        assert s in g1.s2p && g1.s2p[s] == p;
        assert r.done == [s] + rest.done;
        if r.code == Success {
          forall x | x in r.done ensures exists k :: 0 <= k < |idx| && secs[idx[k]] == x {
            if x == s {
              assert secs[idx[0]] == x;
            } else {
              var k :| 0 <= k < |idx| - 1 && secs[idx[1..][k]] == x;
              assert secs[idx[k + 1]] == x;
            }
          }
          forall k | 0 <= k < |idx|
            ensures secs[idx[k]] in r.done && secs[idx[k]] in r.group.s2p && r.group.s2p[secs[idx[k]]] == prims[idx[k]]
          {
            if k > 0 {
              assert idx[k] == idx[1..][k - 1];
            }
          }
        }
      }
    }
  }

  /** Consistent groups with the same mapping have the same inverse and the same members. */
  lemma SameGroup(g: Group, h: Group, prim: seq<nat>)
    requires Inv(g, prim) && Inv(h, prim)
    requires (forall s: nat :: s in h.s2p <==> s in g.s2p) && forall s <- h.s2p :: h.s2p[s] == g.s2p[s]
    ensures h.s2p == g.s2p && h.p2s == g.p2s
    ensures forall x: nat :: x != NO_RANK ==> (x in h.slots.membs <==> x in g.slots.membs)
  {
    hide SlotsInv;
    assert forall p :: p in g.p2s ==> p in h.p2s && h.p2s[p] == g.p2s[p];
    assert forall p :: p in h.p2s ==> p in g.p2s;
  }

  /** Every modification keeps the group consistent; one that is refused changes no mapping and no member. */
  lemma ModifyKeeps(g: Group, prim: seq<nat>, secs: seq<nat>, prims: seq<nat>, op: Op)
    requires Inv(g, prim) && ValidRanks(secs) && (op != Remove ==> |secs| == |prims|)
    ensures
      var r := Modify(g, prim, secs, prims, op);
      && Inv(r.group, prim)
      && (r.code != Success ==> r.group.s2p == g.s2p && r.group.p2s == g.p2s)
      && (r.code != Success ==> forall x: nat :: x != NO_RANK ==> (x in r.group.slots.membs <==> x in g.slots.membs))
  {
    hide Inv, AddAll, RemoveAll, NewAt, Kept;
    if op == Remove {
      RemoveAllExact(g, prim, ToRemove(g.slots.linear, secs, op));
    } else {
      var idx := ToAdd(g.slots.linear, secs, op);
      NewAtBounds(g.slots.linear, secs, 0);
      AddAllExact(g, prim, secs, prims, idx);
      var added := AddAll(g, prim, secs, prims, idx);
      if added.code != Success {
        RemoveAllExact(added.group, prim, added.done);
        SameGroup(g, RemoveAll(added.group, added.done), prim);
      } else {
        RemoveAllExact(added.group, prim, ToRemove(g.slots.linear, secs, op));
      }
    }
  }

  lemma LinearIsMembers(g: Group, prim: seq<nat>)
    requires Inv(g, prim)
    ensures forall x: nat :: x in g.slots.linear <==> x in g.s2p
  {
    hide Inverse, Kept;
    KeptSelects([NO_RANK], g.slots.membs, true);
  }

  lemma ToRemoveExact(g: Group, secs: seq<nat>, op: Op)
    requires forall x: nat :: x in g.slots.linear <==> x in g.s2p
    ensures forall x: nat :: x in ToRemove(g.slots.linear, secs, op) <==>
              x in g.s2p && ((op == Replace && x !in secs) || (op == Remove && x in secs))
  {
    hide Kept;
    KeptSelects(secs, g.slots.linear, true);
    KeptSelects(g.slots.linear, secs, false);
  }

  predicate Wanted(g: Group, secs: seq<nat>, op: Op, x: nat) {
    match op
    case Replace => x in secs
    case Add => x in g.s2p || x in secs
    case Remove => x in g.s2p && x !in secs
  }

  /**
   A modification that succeeds leaves exactly the wanted members; those that stay keep their
   primary rank, and a new one gets the primary rank listed beside it.
   */
  lemma ModifyExact(g: Group, prim: seq<nat>, secs: seq<nat>, prims: seq<nat>, op: Op)
    requires Inv(g, prim) && ValidRanks(secs) && (op != Remove ==> |secs| == |prims|)
    requires Modify(g, prim, secs, prims, op).code == Success
    ensures
      var h := Modify(g, prim, secs, prims, op).group;
      && (forall x: nat :: x in h.s2p <==> Wanted(g, secs, op, x))
      && (forall x <- h.s2p :: x in g.s2p ==> h.s2p[x] == g.s2p[x])
      && (op != Remove ==> forall i: nat :: i < |secs| && secs[i] !in g.s2p ==>
            secs[i] in h.s2p && h.s2p[secs[i]] == prims[i])
  {
    hide Inv, AddAll, RemoveAll, NewAt, Kept;
    var linear := g.slots.linear;
    LinearIsMembers(g, prim);
    var del := ToRemove(linear, secs, op);
    ToRemoveExact(g, secs, op);
    if op == Remove {
      RemoveAllExact(g, prim, del);
    } else {
      var idx := ToAdd(linear, secs, op);
      NewAtBounds(linear, secs, 0);
      AddAllExact(g, prim, secs, prims, idx);
      var added := AddAll(g, prim, secs, prims, idx);
      RemoveAllExact(added.group, prim, del);
      var h := RemoveAll(added.group, del);
      forall x: nat ensures x in h.s2p <==> Wanted(g, secs, op, x) {
        if x in secs && x !in g.s2p {
          var i: nat :| i < |secs| && secs[i] == x;
          assert i in idx;
          var k :| 0 <= k < |idx| && idx[k] == i;
        }
      }
      forall i: nat | i < |secs| && secs[i] !in g.s2p ensures secs[i] in h.s2p && h.s2p[secs[i]] == prims[i] {
        assert i in idx;
        var k :| 0 <= k < |idx| && idx[k] == i;
      }
    }
  }

  // ---- which modifications are accepted ----

  /** Position i lists a pair that can be added: both ranks are free, and the primary one is a member. */
  predicate Addable(g: Group, prim: seq<nat>, secs: seq<nat>, prims: seq<nat>, i: nat)
    requires i < |secs| == |prims|
  {
    prims[i] in prim && secs[i] !in g.s2p && prims[i] !in g.p2s
  }

  /** Positions i and j share no rank. */
  predicate Apart(secs: seq<nat>, prims: seq<nat>, i: nat, j: nat)
    requires i < |secs| == |prims| && j < |secs|
  {
    secs[i] != secs[j] && prims[i] != prims[j]
  }

  ghost predicate AllAddable(g: Group, prim: seq<nat>, secs: seq<nat>, prims: seq<nat>, idx: seq<nat>)
    requires |secs| == |prims| && Positions(idx, |secs|)
  {
    && (forall k :: 0 <= k < |idx| ==> Addable(g, prim, secs, prims, idx[k]))
    && (forall k, l :: 0 <= k < l < |idx| ==> Apart(secs, prims, idx[k], idx[l]))
  }

  /** After one pair is added, a position is addable if it was and shares no rank with that pair. */
  lemma AddableLater(g: Group, prim: seq<nat>, secs: seq<nat>, prims: seq<nat>, i: nat, j: nat)
    requires i < |secs| == |prims| && j < |secs|
    ensures Addable(AddRank(g, secs[i], prims[i]), prim, secs, prims, j) <==>
              Addable(g, prim, secs, prims, j) && Apart(secs, prims, i, j)
  {
    hide AddMember;
  }

  lemma AllAddableSplit(g: Group, prim: seq<nat>, secs: seq<nat>, prims: seq<nat>, idx: seq<nat>)
    requires |secs| == |prims| && Positions(idx, |secs|) && idx != []
    ensures AllAddable(g, prim, secs, prims, idx) <==>
              && Addable(g, prim, secs, prims, idx[0])
              && AllAddable(AddRank(g, secs[idx[0]], prims[idx[0]]), prim, secs, prims, idx[1..])
  {
    hide AddRank, Addable, Apart;
    var h, t := AddRank(g, secs[idx[0]], prims[idx[0]]), idx[1..];
    forall k | 0 <= k < |t|
      ensures t[k] == idx[k + 1]
      ensures Addable(h, prim, secs, prims, t[k]) <==>
                Addable(g, prim, secs, prims, idx[k + 1]) && Apart(secs, prims, idx[0], idx[k + 1])
    {
      AddableLater(g, prim, secs, prims, idx[0], idx[k + 1]);
    }
    if AllAddable(g, prim, secs, prims, idx) {
      forall k, l | 0 <= k < l < |t| ensures Apart(secs, prims, t[k], t[l]) {
        assert Apart(secs, prims, idx[k + 1], idx[l + 1]);
      }
    }
    if Addable(g, prim, secs, prims, idx[0]) && AllAddable(h, prim, secs, prims, t) {
      forall k | 0 <= k < |idx| ensures Addable(g, prim, secs, prims, idx[k]) {
        assert k > 0 ==> Addable(h, prim, secs, prims, t[k - 1]);
      }
      forall k, l | 0 <= k < l < |idx| ensures Apart(secs, prims, idx[k], idx[l]) {
        assert Addable(h, prim, secs, prims, t[l - 1]);
        assert k > 0 ==> Apart(secs, prims, t[k - 1], t[l - 1]);
      }
    }
  }

  lemma {:induction false} AddAllIff(g: Group, prim: seq<nat>, secs: seq<nat>, prims: seq<nat>, idx: seq<nat>)
    requires |secs| == |prims| && Positions(idx, |secs|)
    ensures AddAll(g, prim, secs, prims, idx).code == Success <==> AllAddable(g, prim, secs, prims, idx)
    ensures
      var r := AddAll(g, prim, secs, prims, idx);
      r.code != Success ==>
        && |r.done| < |idx| && AllAddable(g, prim, secs, prims, idx[..|r.done|])
        && !AllAddable(g, prim, secs, prims, idx[..|r.done| + 1])
        && (r.code == OutOfGroup <==> prims[idx[|r.done|]] !in prim)
    decreases |idx|
  {
    hide AddRank;
    if idx != [] {
      var i := idx[0];
      AllAddableSplit(g, prim, secs, prims, idx);
      AllAddableSplit(g, prim, secs, prims, idx[..1]);
      if AddCode(g, prim, secs[i], prims[i]) == Success {
        var h, t := AddRank(g, secs[i], prims[i]), idx[1..];
        AddAllIff(h, prim, secs, prims, t);
        hide AllAddable;
        var r, rest := AddAll(g, prim, secs, prims, idx), AddAll(h, prim, secs, prims, t);
        if r.code != Success {
          var n := |rest.done|;
          assert |r.done| == n + 1 && idx[..n + 1][1..] == t[..n] && idx[..n + 2][1..] == t[..n + 1];
          AllAddableSplit(g, prim, secs, prims, idx[..n + 1]);
          AllAddableSplit(g, prim, secs, prims, idx[..n + 2]);
        }
      }
    }
  }

  /** All pairs before position n that list a new rank can be added, and no two of them share a rank. */
  ghost predicate FineBefore(g: Group, prim: seq<nat>, secs: seq<nat>, prims: seq<nat>, n: nat)
    requires n <= |secs| == |prims|
  {
    && (forall i: nat :: i < n && secs[i] !in g.s2p ==> Addable(g, prim, secs, prims, i))
    && (forall i: nat, j: nat :: i < j < n && secs[i] !in g.s2p && secs[j] !in g.s2p ==> Apart(secs, prims, i, j))
  }

  /** idx are the positions below n that list a new rank, in order. */
  ghost predicate NewBefore(g: Group, secs: seq<nat>, idx: seq<nat>, n: nat) {
    && n <= |secs| && (forall i, j :: 0 <= i < j < |idx| ==> idx[i] < idx[j])
    && (forall k :: 0 <= k < |idx| ==> idx[k] < n && secs[idx[k]] !in g.s2p)
    && (forall i: nat :: i < n && secs[i] !in g.s2p ==> i in idx)
  }

  lemma FineIff(g: Group, prim: seq<nat>, secs: seq<nat>, prims: seq<nat>, idx: seq<nat>, n: nat)
    requires |secs| == |prims| && NewBefore(g, secs, idx, n) && Positions(idx, |secs|)
    ensures AllAddable(g, prim, secs, prims, idx) <==> FineBefore(g, prim, secs, prims, n)
  {
    hide Addable, Apart;
    if AllAddable(g, prim, secs, prims, idx) {
      forall i: nat | i < n && secs[i] !in g.s2p ensures Addable(g, prim, secs, prims, i) {
        assert i in idx;
        var k :| 0 <= k < |idx| && idx[k] == i;
      }
      forall i: nat, j: nat | i < j < n && secs[i] !in g.s2p && secs[j] !in g.s2p ensures Apart(secs, prims, i, j) {
        assert i in idx && j in idx;
        var k, l :| 0 <= k < |idx| && idx[k] == i && 0 <= l < |idx| && idx[l] == j;
        assert k < l;
      }
    }
  }

  lemma NewPrefix(g: Group, secs: seq<nat>, idx: seq<nat>, n: nat, k: nat)
    requires NewBefore(g, secs, idx, n) && k < |idx|
    ensures NewBefore(g, secs, idx[..k], idx[k]) && NewBefore(g, secs, idx[..k + 1], idx[k] + 1)
  {
    forall i: nat | i <= idx[k] && secs[i] !in g.s2p ensures i in idx[..k + 1] {
      Within(idx, i, k);
    }
    forall i: nat | i < idx[k] && secs[i] !in g.s2p ensures i in idx[..k] {
      Within(idx, i, k);
    }
  }

  lemma Within(idx: seq<nat>, i: nat, k: nat)
    requires k < |idx| && i in idx && i <= idx[k] && forall a, b :: 0 <= a < b < |idx| ==> idx[a] < idx[b]
    ensures i in idx[..k + 1] && (i < idx[k] ==> i in idx[..k])
  {
    var l :| 0 <= l < |idx| && idx[l] == i;
    assert l <= k && idx[..k + 1][l] == i;
    assert l < k ==> idx[..k][l] == i;
  }

  /**
   A replacement or an addition is accepted if and only if every listed rank that is not yet a member
   comes with a free member of the primary group, and no two of them share a rank; otherwise the error
   tells whether the first pair that cannot be added leads out of the primary group.
   */
  lemma ModifyAcceptedIff(g: Group, prim: seq<nat>, secs: seq<nat>, prims: seq<nat>, op: Op)
    requires Inv(g, prim) && |secs| == |prims| && op != Remove
    ensures
      var code := Modify(g, prim, secs, prims, op).code;
      && (code == Success <==> FineBefore(g, prim, secs, prims, |secs|))
      && (code != Success ==> exists i: nat ::
            && i < |secs| && FineBefore(g, prim, secs, prims, i) && !FineBefore(g, prim, secs, prims, i + 1)
            && (code == OutOfGroup <==> prims[i] !in prim))
  {
    hide Inv, AddAll, RemoveAll, NewAt, FineBefore;
    var idx := ToAdd(g.slots.linear, secs, op);
    NewAtBounds(g.slots.linear, secs, 0);
    NewAtRises(g.slots.linear, secs, 0);
    LinearIsMembers(g, prim);
    assert NewBefore(g, secs, idx, |secs|) by {
      forall k | 0 <= k < |idx| ensures idx[k] < |secs| && secs[idx[k]] !in g.s2p {
        assert idx[k] in idx;
      }
    }
    AddAllIff(g, prim, secs, prims, idx);
    hide AllAddable, NewBefore;
    FineIff(g, prim, secs, prims, idx, |secs|);
    var r := AddAll(g, prim, secs, prims, idx);
    if r.code != Success {
      var n := |r.done|;
      NewPrefix(g, secs, idx, |secs|, n);
      FineIff(g, prim, secs, prims, idx[..n], idx[n]);
      FineIff(g, prim, secs, prims, idx[..n + 1], idx[n] + 1);
    }
  }

  /** Positions to add come in increasing order. */
  lemma {:induction false} NewAtRises(linear: seq<nat>, mod: seq<nat>, k: nat)
    requires k <= |mod|
    ensures
      var idx := NewAt(linear, mod, k);
      forall i, j :: 0 <= i < j < |idx| ==> idx[i] < idx[j]
    decreases |mod| - k
  {
    if k < |mod| {
      NewAtRises(linear, mod, k + 1);
      NewAtBounds(linear, mod, k + 1);
      var rest := NewAt(linear, mod, k + 1);
      assert forall i :: 0 <= i < |rest| ==> rest[i] in rest;
    }
  }

  // ---- the same, in place ----

  lemma CompactNext(membs: seq<nat>, i: nat)
    requires i < |membs|
    ensures Compact(membs[..i + 1]) == Compact(membs[..i]) + if membs[i] == NO_RANK then [] else [membs[i]]
  {
    assert membs[..i + 1] == membs[..i] + [membs[i]];
    CompactAppend(membs[..i], [membs[i]]);
    CompactOne(membs[i]);
  }

  lemma CompactWhole(membs: seq<nat>, i: nat)
    requires i <= |membs| && |Compact(membs[..i])| == |Compact(membs)|
    ensures Compact(membs[..i]) == Compact(membs)
  {
    assert membs == membs[..i] + membs[i..];
    CompactAppend(membs[..i], membs[i..]);
  }

  class SecondaryGroup {
    var s2p: map<nat, nat>
    var p2s: map<nat, nat>
    var membs: seq<nat>
    var free: seq<nat>
    var size: int
    var linear: seq<nat>

    function List(): Slots
      reads `membs, `free, `size, `linear
    {
      Slots(membs, free, size, linear)
    }

    function View(): Group
      reads this
    {
      Group(s2p, p2s, List())
    }

    constructor ()
      ensures View() == Group(map[], map[], Slots([], [], 0, [])) && forall prim: seq<nat> :: Inv(View(), prim)
    {
      s2p, p2s, membs, free, size, linear := map[], map[], [], [], 0, [];
    }

    /**
     grp_regen_linear_list: copy the members in order until all are found.  An empty group gets
     an empty list, because D_REALLOC_ARRAY asks for one byte where it is asked for none.
     */
    method RegenLinearList()
      requires size == |Compact(membs)|
      modifies `linear
      ensures linear == Compact(membs)
    {
      var list: seq<nat> := [];
      var i := 0;
      while i < |membs|
        invariant i <= |membs| && list == Compact(membs[..i])
      {
        CompactNext(membs, i);
        if membs[i] != NO_RANK {
          list := list + [membs[i]];
          if |list| == size {
            CompactWhole(membs, i + 1);
            linear := list;
            return;
          }
        }
        i := i + 1;
      }
      assert membs[..i] == membs;
      linear := list;
    }

    /** The growth of grp_add_to_membs_list, hole by hole. */
    method MakeRoom()
      requires SlotsInv(List())
      modifies `membs, `free
      ensures List() == Room(old(List()))
    {
      if free == [] {
        var first := |membs|;
        var i := 0;
        while i < REALLOC_SIZE
          invariant i <= REALLOC_SIZE && free == seq(i, k => first + k)
          invariant membs == old(membs) + seq(i, _ => NO_RANK)
        {
          membs := membs + [NO_RANK];
          free := free + [first + i];
          i := i + 1;
        }
      }
    }

    method AddToMembsList(rank: nat)
      requires SlotsInv(List()) && rank !in membs && rank != NO_RANK
      modifies `membs, `free, `size, `linear
      ensures List() == AddMember(old(List()), rank) && SlotsInv(List())
    {
      AddKeeps(List(), rank);
      RoomKeeps(List());
      hide SlotsInv, Compact;
      MakeRoom();
      var index := free[0];
      assert index < |membs| && membs[index] == NO_RANK by { FreeIsHole(List()); }
      CompactUpdate(membs, index, rank);
      free := free[1..];
      membs := membs[index := rank];
      assert size == |Compact(Room(old(List())).membs)| by { SizeCounts(Room(old(List()))); }
      size := size + 1;
      RegenLinearList();
    }

    /** crt_group_secondary_rank_add_internal, for members prim of the primary group. */
    method RankAdd(prim: seq<nat>, sec: nat, p: nat) returns (code: Code)
      requires Inv(View(), prim) && sec != NO_RANK
      modifies this
      ensures code == AddCode(old(View()), prim, sec, p) && Inv(View(), prim)
      ensures View() == if code == Success then AddRank(old(View()), sec, p) else old(View())
    {
      if p !in prim { return OutOfGroup; }
      if sec in s2p { return Exists; }
      ghost var before := s2p;
      s2p := s2p[sec := p];
      if p in p2s {
        s2p := s2p - {sec};
        assert s2p == before;
        return Exists;
      }
      AddRankKeeps(old(View()), prim, sec, p);
      hide Inverse, AddMember;
      p2s := p2s[p := sec];
      AddToMembsList(sec);
      return Success;
    }

    /** crt_group_rank_remove_internal on this group. */
    method RankRemove(ghost prim: seq<nat>, sec: nat) returns (code: Code)
      requires Inv(View(), prim)
      modifies this
      ensures code == (if sec in old(s2p) then Success else OutOfGroup)
      ensures View() == RemoveRank(old(View()), sec) && Inv(View(), prim)
    {
      RemoveRankKeeps(View(), prim, sec);
      if sec !in s2p { return OutOfGroup; }
      assert sec in membs && sec != NO_RANK;
      hide Inverse, Inv;
      assert SlotsInv(List()) by { SlotsOf(View(), prim); }
      var p := s2p[sec];
      s2p := s2p - {sec};
      p2s := p2s - {p};
      Vacate(sec);
      return Success;
    }

    /** The search of crt_group_rank_remove_internal through the member list. */
    method Vacate(rank: nat)
      requires SlotsInv(List()) && rank in membs && rank != NO_RANK
      modifies `membs, `free, `size, `linear
      ensures List() == DropMember(old(List()), rank)
    {
      var i := 0;
      assert membs[..|membs|] == membs;
      while i < |membs| && membs[i] != rank
        invariant i <= |membs| && rank !in membs[..i]
      {
        assert membs[..i + 1] == membs[..i] + [membs[i]];
        i := i + 1;
      }
      assert i == IndexOf(membs, rank) by { FirstIndex(membs, rank, i); }
      hide IndexOf;
      CompactUpdate(membs, i, NO_RANK);
      membs := membs[i := NO_RANK];
      size := size - 1;
      free := [i] + free;
      RegenLinearList();
    }

    /**
     crt_group_mod_get: positions of ranks to add, and ranks to remove.  The source allocates one
     place per listed rank for the former and one per member for the latter; inBounds says that
     it writes no further.
     */
    method ModGet(mod: seq<nat>, op: Op) returns (add: seq<nat>, del: seq<nat>, inBounds: bool)
      requires SlotsInv(List())
      ensures add == ToAdd(linear, mod, op) && del == ToRemove(linear, mod, op)
      ensures inBounds <==> |add| <= |mod| && |del| <= |linear|
      ensures inBounds <==> (op == Remove ==> Repeats(linear, mod) <= |Kept(mod, linear, true)|)
    {
      RemovedFitIff(List(), mod, op);
      NewAtBounds(linear, mod, 0);
      hide SlotsInv, Kept, NewAt, Repeats;
      add, del, inBounds := [], [], true;
      match op
      case Replace =>
        add := Missing(linear, mod);
        del, inBounds := Selected(mod, linear, true, |linear|);
      case Add => add := Missing(linear, mod);
      case Remove => del, inBounds := Selected(linear, mod, false, |linear|);
    }

    static method Missing(list: seq<nat>, mod: seq<nat>) returns (add: seq<nat>)
      ensures add == NewAt(list, mod, 0)
    {
      add := [];
      var i := 0;
      while i < |mod|
        invariant i <= |mod| && NewAt(list, mod, 0) == add + NewAt(list, mod, i)
      {
        if mod[i] !in list {
          add := add + [i];
        }
        i := i + 1;
      }
    }

    static method Selected(src: seq<nat>, dst: seq<nat>, exclude: bool, capacity: nat)
      returns (r: seq<nat>, inBounds: bool)
      ensures r == Kept(src, dst, exclude) && (inBounds <==> |r| <= capacity)
    {
      hide Kept, Onward;
      r, inBounds := [], true;
      var i := 0;
      KeptStart(src, dst, exclude);
      while i < |dst|
        invariant i <= |dst| && Kept(src, dst, exclude) == Onward(r, src, dst, i, exclude)
        invariant inBounds <==> |r| <= capacity
      {
        KeptAt(r, src, dst, i, exclude);
        if (dst[i] in src) != exclude {
          inBounds := inBounds && |r| < capacity;
          r := r + [dst[i]];
        }
        i := i + 1;
      }
      KeptEnd(r, src, dst, exclude);
    }

    /** A loop over crt_group_rank_remove_internal. */
    method RemoveEach(ghost prim: seq<nat>, ranks: seq<nat>)
      requires Inv(View(), prim)
      modifies this
      ensures View() == RemoveAll(old(View()), ranks) && Inv(View(), prim)
    {
      hide Inv, RemoveRank, View;
      var i := 0;
      assert ranks[0..] == ranks;
      while i < |ranks|
        invariant i <= |ranks| && Inv(View(), prim)
        invariant RemoveAll(View(), ranks[i..]) == RemoveAll(old(View()), ranks)
      {
        assert ranks[i..][1..] == ranks[i + 1..];
        var _ := RankRemove(prim, ranks[i]);
        i := i + 1;
      }
    }

    /** The adding loop of crt_group_secondary_modify. */
    method AddEach(prim: seq<nat>, secs: seq<nat>, prims: seq<nat>, idx: seq<nat>) returns (code: Code, done: seq<nat>)
      requires Inv(View(), prim) && ValidRanks(secs) && |secs| == |prims| && Positions(idx, |secs|)
      modifies this
      ensures Progress(View(), code, done) == AddAll(old(View()), prim, secs, prims, idx) && Inv(View(), prim)
    {
      hide Inv, AddRank, AddCode, View;
      code, done := Success, [];
      var i := 0;
      ghost var all := AddAll(View(), prim, secs, prims, idx);
      assert idx[0..] == idx;
      while i < |idx|
        invariant i <= |idx| && Inv(View(), prim) && code == Success
        invariant AddAll(View(), prim, secs, prims, idx[i..]).group == all.group
        invariant AddAll(View(), prim, secs, prims, idx[i..]).code == all.code
        invariant all.done == done + AddAll(View(), prim, secs, prims, idx[i..]).done
      {
        assert idx[i..][1..] == idx[i + 1..] && idx[i..][0] == idx[i];
        code := RankAdd(prim, secs[idx[i]], prims[idx[i]]);
        if code != Success { return; }
        done := done + [secs[idx[i]]];
        i := i + 1;
      }
    }

    /** crt_group_secondary_modify, with the clean-up of a refused addition; inBounds is that of ModGet. */
    method SecondaryModify(prim: seq<nat>, secs: seq<nat>, prims: seq<nat>, op: Op)
      returns (code: Code, inBounds: bool)
      requires Inv(View(), prim) && ValidRanks(secs) && (op != Remove ==> |secs| == |prims|)
      modifies this
      ensures Outcome(View(), code) == Modify(old(View()), prim, secs, prims, op) && Inv(View(), prim)
      ensures inBounds <==> (op == Remove ==> Repeats(old(linear), secs) <= |Kept(secs, old(linear), true)|)
    {
      SlotsOf(View(), prim);
      hide Inv, SlotsInv, AddAll, RemoveAll, NewAt, Kept, Repeats;
      NewAtBounds(linear, secs, 0);
      var add, del;
      add, del, inBounds := ModGet(secs, op);
      code := Success;
      if op != Remove {
        var done;
        code, done := AddEach(prim, secs, prims, add);
        if code != Success {
          RemoveEach(prim, done);
          return;
        }
      }
      RemoveEach(prim, del);
    }
  }

  /** What is selected so far, and what the rest of the list will add. */
  function Onward(r: seq<nat>, src: seq<nat>, dst: seq<nat>, i: nat, exclude: bool): seq<nat>
    requires i <= |dst|
  {
    r + Kept(src, dst[i..], exclude)
  }

  lemma KeptStart(src: seq<nat>, dst: seq<nat>, exclude: bool)
    ensures Onward([], src, dst, 0, exclude) == Kept(src, dst, exclude)
  {
    assert dst[0..] == dst;
  }

  lemma KeptAt(r: seq<nat>, src: seq<nat>, dst: seq<nat>, i: nat, exclude: bool)
    requires i < |dst|
    ensures Onward(r, src, dst, i, exclude)
         == Onward(if (dst[i] in src) != exclude then r + [dst[i]] else r, src, dst, i + 1, exclude)
  {
    assert dst[i..][1..] == dst[i + 1..];
    var rest := Kept(src, dst[i + 1..], exclude);
    assert r + ([dst[i]] + rest) == (r + [dst[i]]) + rest;
  }

  lemma KeptEnd(r: seq<nat>, src: seq<nat>, dst: seq<nat>, exclude: bool)
    ensures Onward(r, src, dst, |dst|, exclude) == r
  {
    assert dst[|dst|..] == [] && r + [] == r;
  }

  lemma FreeIsHole(s: Slots)
    requires SlotsInv(s) && s.free != []
    ensures s.free[0] < |s.membs| && s.membs[s.free[0]] == NO_RANK
  {
    assert s.free[0] in s.free;
  }

  lemma SizeCounts(s: Slots)
    requires SlotsInv(s)
    ensures s.size == |Compact(s.membs)|
  {
  }

  lemma SlotsOf(g: Group, prim: seq<nat>)
    requires Inv(g, prim)
    ensures SlotsInv(g.slots)
  {
  }
}
