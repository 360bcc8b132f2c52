/**
 The passes over the lists of a SWIM node, exactly: what swim_member_update_suspected does to each
 suspicion and whom it asks for confirmation, what swim_ipings_update forgets, and who gets the
 answer to an indirect ping.
 */
module SwimPasses {
  import opened SwimMember
  import opened SwimContext
  import opened SwimNode

  // ---- suspicions ----

  /** The confirmations a pass asks for: of every overdue suspicion that came from somebody else, from there. */
  function Confirmations(items: seq<Item>, self: nat, now: nat): seq<Call> {
    if items == [] then []
    else
      (if now > items[0].deadline && items[0].from != self then [Call(items[0].id, items[0].from)] else [])
      + Confirmations(items[1..], self, now)
  }

  /** Killing a member takes it off the list, or does nothing if it is dead already. */
  lemma KillsItem(b: Book, self: nat, txMax: nat, now: nat, k: nat)
    requires BookInv(b, self, txMax) && k < |b.suspects| && b.suspects[k].id in b.members
    ensures
      var id := b.suspects[k].id;
      var b1 := Kill(b, self, id, now);
      && b1.pingTimeout == b.pingTimeout
      && (if b.members[id].status == Dead then b1 == b
          else
            && b1.suspects == b.suspects[..k] + b.suspects[k + 1..]
            && b1.members == b.members[id := State(b.members[id].incarnation, Dead)])
  {
    hide Notified, Without;
    var id := b.suspects[k].id;
    assert forall j :: 0 <= j < k ==> b.suspects[j].id != id;
    WithoutAt(b.suspects, id, k);
  }

  /** In every pass over a list without repetitions, exactly these confirmations are asked for, in list order. */
  lemma {:induction false} PassAsks(b: Book, self: nat, txMax: nat, now: nat, k: nat)
    requires BookInv(b, self, txMax) && k <= |b.suspects|
    ensures Expire(b, self, now, k).calls == Confirmations(b.suspects[k..], self, now)
    decreases |b.suspects| - k
  {
    hide BookInv, Apply, Confirmations;
    if k == |b.suspects| {
      NothingToConfirm(self, now);
      assert b.suspects[k..] == [];
    } else {
      var item, tail := b.suspects[k], b.suspects[k + 1..];
      SuspectIsOther(b, self, txMax, k);
      ConfirmFirst(b.suspects[k..], self, now);
      assert b.suspects[k..][1..] == tail;
      if now <= item.deadline {
        PassAsks(b, self, txMax, now, k + 1);
      } else if item.from != self {
        var kept := Item(item.id, self, item.deadline + b.pingTimeout);
        var b1 := b.(suspects := b.suspects[k := kept]);
        RetimeKeeps(b, self, txMax, k, kept);
        assert b1.suspects[k + 1..] == tail;
        PassAsks(b1, self, txMax, now, k + 1);
      } else {
        ApplyKeeps(b, self, txMax, self, Gossip(item.id, State(b.members[item.id].incarnation, Dead)), now);
        var next := AfterKill(b, self, txMax, now, k);
        hide Kill;
        PassAsks(Kill(b, self, item.id, now), self, txMax, now, next);
      }
    }
  }

  /** Where the walk goes on after a kill. */
  lemma AfterKill(b: Book, self: nat, txMax: nat, now: nat, k: nat) returns (next: nat)
    requires BookInv(b, self, txMax) && k < |b.suspects| && b.suspects[k].id in b.members
    ensures
      var b1 := Kill(b, self, b.suspects[k].id, now);
      && next == (if |b1.suspects| < |b.suspects| then k else k + 1) <= |b1.suspects|
      && b1.suspects[next..] == b.suspects[k + 1..] && |b1.suspects| - next < |b.suspects| - k
  {
    KillsItem(b, self, txMax, now, k);
    hide Kill;
    var b1 := Kill(b, self, b.suspects[k].id, now);
    next := if |b1.suspects| < |b.suspects| then k else k + 1;
  }

  lemma NothingToConfirm(self: nat, now: nat)
    ensures Confirmations([], self, now) == []
  {
  }

  lemma ConfirmFirst(items: seq<Item>, self: nat, now: nat)
    requires items != []
    ensures
      var rest := Confirmations(items[1..], self, now);
      Confirmations(items, self, now) ==
        if now > items[0].deadline && items[0].from != self then [Call(items[0].id, items[0].from)] + rest else rest
  {
  }

  /** What a pass at time now makes of a suspicion of a member on record like this. */
  ghost predicate PassedOn(item: Item, s: State, r: Book, self: nat, now: nat, pingTimeout: nat) {
    && item.id in r.members
    && if now <= item.deadline then item in r.suspects && r.members[item.id] == s
       else if item.from != self then
         Item(item.id, self, item.deadline + pingTimeout) in r.suspects && r.members[item.id] == s
       else if s.status == Dead then item in r.suspects && r.members[item.id] == s
       else !Listed(r.suspects, item.id) && r.members[item.id] == State(s.incarnation, Dead)
  }

  /** Items before position k, and members that are not on the list from k on, are left alone. */
  lemma {:induction false} PassLeaves(b: Book, self: nat, txMax: nat, now: nat, k: nat, x: nat, item: Item)
    requires BookInv(b, self, txMax) && k <= |b.suspects| && x in b.members
    requires forall j :: k <= j < |b.suspects| ==> b.suspects[j].id != x
    ensures
      var r := Expire(b, self, now, k).book;
      && x in r.members && r.members[x] == b.members[x]
      && (item.id == x ==> (item in r.suspects <==> item in b.suspects))
      && (Listed(r.suspects, x) <==> Listed(b.suspects, x))
    decreases |b.suspects| - k
  {
    hide BookInv, Apply;
    if k < |b.suspects| {
      var it := b.suspects[k];
      SuspectIsOther(b, self, txMax, k);
      if now <= it.deadline {
        PassLeaves(b, self, txMax, now, k + 1, x, item);
      } else if it.from != self {
        var kept := Item(it.id, self, it.deadline + b.pingTimeout);
        var s := b.suspects[k := kept];
        RetimeKeeps(b, self, txMax, k, kept);
        SameOthers(b.suspects, s, k, x, item);
        PassLeaves(b.(suspects := s), self, txMax, now, k + 1, x, item);
      } else {
        var b1 := Kill(b, self, it.id, now);
        KillsItem(b, self, txMax, now, k);
        ApplyKeeps(b, self, txMax, self, Gossip(it.id, State(b.members[it.id].incarnation, Dead)), now);
        if b1 != b {
          FewerOthers(b.suspects, k, x, item);
        }
        PassLeaves(b1, self, txMax, now, if |b1.suspects| < |b.suspects| then k else k + 1, x, item);
      }
    }
  }

  lemma SameOthers(s: seq<Item>, s': seq<Item>, k: nat, x: nat, item: Item)
    requires k < |s| == |s'| && s' == s[k := s'[k]] && s'[k].id == s[k].id != x
    ensures item.id == x ==> (item in s' <==> item in s)
    ensures Listed(s', x) <==> Listed(s, x)
  {
    if item in s && item.id == x {
      var i :| 0 <= i < |s| && s[i] == item;
      assert s'[i] == item;
    }
    if Listed(s, x) {
      var i :| 0 <= i < |s| && s[i].id == x;
      assert s'[i].id == x;
    }
  }

  lemma FewerOthers(s: seq<Item>, k: nat, x: nat, item: Item)
    requires k < |s| && s[k].id != x
    ensures item.id == x ==> (item in s[..k] + s[k + 1..] <==> item in s)
    ensures Listed(s[..k] + s[k + 1..], x) <==> Listed(s, x)
  {
    var s' := s[..k] + s[k + 1..];
    assert s == s[..k] + [s[k]] + s[k + 1..];
    if Listed(s, x) {
      var i :| 0 <= i < |s| && s[i].id == x;
      assert s'[if i < k then i else i - 1].id == x;
    }
    if Listed(s', x) {
      var i :| 0 <= i < |s'| && s'[i].id == x;
      assert s[if i < k then i else i + 1].id == x;
    }
  }

  /** One item after the other. */
  lemma {:induction false} PassFrom(b: Book, self: nat, txMax: nat, now: nat, k: nat, i: nat)
    requires BookInv(b, self, txMax) && k <= i < |b.suspects| && b.suspects[i].id in b.members
    ensures PassedOn(b.suspects[i], b.members[b.suspects[i].id], Expire(b, self, now, k).book, self, now, b.pingTimeout)
    decreases |b.suspects| - k
  {
    hide BookInv, Apply, PassedOn;
    var item, it := b.suspects[i], b.suspects[k];
    SuspectIsOther(b, self, txMax, k);
    if k == i {
      PassOne(b, self, txMax, now, k);
    } else if now <= it.deadline {
      PassFrom(b, self, txMax, now, k + 1, i);
    } else if it.from != self {
      var kept := Item(it.id, self, it.deadline + b.pingTimeout);
      RetimeKeeps(b, self, txMax, k, kept);
      PassFrom(b.(suspects := b.suspects[k := kept]), self, txMax, now, k + 1, i);
    } else {
      var b1 := Kill(b, self, it.id, now);
      KillsItem(b, self, txMax, now, k);
      ApplyKeeps(b, self, txMax, self, Gossip(it.id, State(b.members[it.id].incarnation, Dead)), now);
      DifferentItems(b, self, txMax, k, i);
      if b1 != b {
        assert b1.suspects[i - 1] == item;
        PassFrom(b1, self, txMax, now, k, i - 1);
      } else {
        PassFrom(b1, self, txMax, now, k + 1, i);
      }
    }
  }

  lemma DifferentItems(b: Book, self: nat, txMax: nat, k: nat, i: nat)
    requires BookInv(b, self, txMax) && k < i < |b.suspects|
    ensures b.suspects[k].id != b.suspects[i].id
  {
  }

  lemma PassOne(b: Book, self: nat, txMax: nat, now: nat, k: nat)
    requires BookInv(b, self, txMax) && k < |b.suspects| && b.suspects[k].id in b.members
    ensures PassedOn(b.suspects[k], b.members[b.suspects[k].id], Expire(b, self, now, k).book, self, now, b.pingTimeout)
  {
    hide Apply, SuspectsOk, NewsExact;
    var it, x := b.suspects[k], b.suspects[k].id;
    OnlyAt(b, self, txMax, k);
    if now <= it.deadline {
      PassLeaves(b, self, txMax, now, k + 1, x, it);
    } else if it.from != self {
      var kept := Item(x, self, it.deadline + b.pingTimeout);
      var s := b.suspects[k := kept];
      RetimeKeeps(b, self, txMax, k, kept);
      assert s[k] == kept && forall j :: k < j < |s| ==> s[j].id == b.suspects[j].id;
      PassLeaves(b.(suspects := s), self, txMax, now, k + 1, x, kept);
    } else {
      var b1 := Kill(b, self, x, now);
      SuspectIsOther(b, self, txMax, k);
      KillsItem(b, self, txMax, now, k);
      ApplyKeeps(b, self, txMax, self, Gossip(x, State(b.members[x].incarnation, Dead)), now);
      if b1 != b {
        GoneFrom(b.suspects, k);
        assert forall j :: k <= j < |b1.suspects| ==> b1.suspects[j] == b.suspects[j + 1];
        PassLeaves(b1, self, txMax, now, k, x, it);
      } else {
        PassLeaves(b1, self, txMax, now, k + 1, x, it);
      }
    }
  }

  lemma OnlyAt(b: Book, self: nat, txMax: nat, k: nat)
    requires BookInv(b, self, txMax) && k < |b.suspects|
    ensures DistinctItems(b.suspects)
    ensures forall j :: 0 <= j < |b.suspects| && j != k ==> b.suspects[j].id != b.suspects[k].id
  {
  }

  lemma GoneFrom(s: seq<Item>, k: nat)
    requires k < |s| && forall j :: 0 <= j < |s| && j != k ==> s[j].id != s[k].id
    ensures !Listed(s[..k] + s[k + 1..], s[k].id)
  {
  }

  /**
   One pass over the suspects: a suspicion that is not overdue stays; an overdue one that came from
   somebody else gets one more ping timeout, as the node's own; an overdue one of its own ends in the
   member's death at the incarnation on record, unless the member is dead already.
   */
  lemma PassExact(b: Book, self: nat, txMax: nat, now: nat, item: Item)
    requires BookInv(b, self, txMax) && item in b.suspects
    ensures item.id in b.members
    ensures PassedOn(item, b.members[item.id], Expire(b, self, now, 0).book, self, now, b.pingTimeout)
  {
    hide BookInv, PassedOn;
    var i :| 0 <= i < |b.suspects| && b.suspects[i] == item;
    SuspectIsOther(b, self, txMax, i);
    PassFrom(b, self, txMax, now, 0, i);
  }

  /**
   The life of a suspicion that nothing interrupts.  Heard at time t from another node, it lasts a full
   timeout; then the node it came from is asked to confirm it, and after one more ping timeout the
   member is dead.  The node's own suspicions end in death right after the full timeout.
   */
  lemma SuspicionEnds(b: Book, self: nat, txMax: nat, from: nat, g: Gossip, t: nat, t1: nat, t2: nat)
    requires BookInv(b, self, txMax) && g.id in b.members && g.id != self && g.state.status == Suspect
    requires Accepts(b.members[g.id], g.state) && !Listed(b.suspects, g.id)
    ensures
      var b1 := Apply(b, from, g, t);
      var r1 := Expire(b1, self, t1, 0);
      && g.id in r1.book.members
      && (Call(g.id, from) in r1.calls <==> t1 > t + SUSPECT_TIMEOUT && from != self)
      && r1.book.members[g.id] ==
           (if t1 > t + SUSPECT_TIMEOUT && from == self then State(g.state.incarnation, Dead) else g.state)
      && var r2 := Expire(r1.book, self, t2, 0);
      && g.id in r2.book.members
      && (t1 > t + SUSPECT_TIMEOUT && from != self ==>
            r2.book.members[g.id] ==
              if t2 > t + SUSPECT_TIMEOUT + b.pingTimeout then State(g.state.incarnation, Dead) else g.state)
  {
    var item, b1 := Item(g.id, from, t + SUSPECT_TIMEOUT), Apply(b, from, g, t);
    SuspicionStarts(b, from, g, t);
    ApplyKeeps(b, self, txMax, from, g, t);
    hide *;
    FirstPass(b1, self, txMax, t1, item, |b.suspects|);
    var r1 := Expire(b1, self, t1, 0).book;
    SecondPass(r1, self, txMax, t2, item, b.pingTimeout, t1 > item.deadline && from != self);
    ExpireDomain(r1, self, t2, 0);
  }

  lemma SuspicionStarts(b: Book, from: nat, g: Gossip, t: nat)
    requires g.id in b.members && g.state.status == Suspect
    requires Accepts(b.members[g.id], g.state) && !Listed(b.suspects, g.id)
    ensures
      var b1, item := Apply(b, from, g, t), Item(g.id, from, t + SUSPECT_TIMEOUT);
      && b1.suspects == b.suspects + [item] && b1.suspects[|b.suspects|] == item
      && g.id in b1.members && b1.members[g.id] == g.state && b1.pingTimeout == b.pingTimeout
  {
    hide Without, Notified;
  }

  /** A pass over a list that holds one suspicion of a member on record as SUSPECT. */
  lemma FirstPass(b: Book, self: nat, txMax: nat, now: nat, item: Item, k: nat)
    requires BookInv(b, self, txMax) && k < |b.suspects| && b.suspects[k] == item
    requires item.id in b.members && b.members[item.id].status == Suspect
    ensures
      var r, s := Expire(b, self, now, 0), b.members[item.id];
      && BookInv(r.book, self, txMax) && r.book.pingTimeout == b.pingTimeout && item.id in r.book.members
      && (Call(item.id, item.from) in r.calls <==> now > item.deadline && item.from != self)
      && r.book.members[item.id] ==
           (if now > item.deadline && item.from == self then State(s.incarnation, Dead) else s)
      && (now > item.deadline && item.from != self ==>
            Item(item.id, self, item.deadline + b.pingTimeout) in r.book.suspects)
  {
    hide BookInv, Expire, Confirmations, Listed;
    PassExact(b, self, txMax, now, item);
    PassAsks(b, self, txMax, now, 0);
    assert b.suspects[0..] == b.suspects;
    OnlyOne(b, self, txMax, k);
    ConfirmsIff(b.suspects, self, now, k);
    ExpireKeeps(b, self, txMax, now, 0);
    SamePingTimeout(b, self, txMax, now, 0);
  }

  lemma OnlyOne(b: Book, self: nat, txMax: nat, k: nat)
    requires BookInv(b, self, txMax) && k < |b.suspects|
    ensures forall j :: 0 <= j < |b.suspects| && j != k ==> b.suspects[j].id != b.suspects[k].id
  {
  }

  lemma SecondPass(b: Book, self: nat, txMax: nat, now: nat, item: Item, more: nat, prolonged: bool)
    requires BookInv(b, self, txMax) && item.id in b.members && b.pingTimeout == more
    requires prolonged ==> Item(item.id, self, item.deadline + more) in b.suspects && b.members[item.id].status != Dead
    ensures
      var r := Expire(b, self, now, 0).book;
      prolonged ==>
        && item.id in r.members
        && r.members[item.id] ==
             if now > item.deadline + more then State(b.members[item.id].incarnation, Dead) else b.members[item.id]
  {
    hide BookInv, Expire;
    if prolonged {
      PassExact(b, self, txMax, now, Item(item.id, self, item.deadline + more));
    }
  }

  lemma {:induction false} SamePingTimeout(b: Book, self: nat, txMax: nat, now: nat, k: nat)
    requires BookInv(b, self, txMax) && k <= |b.suspects|
    ensures Expire(b, self, now, k).book.pingTimeout == b.pingTimeout
    decreases |b.suspects| - k
  {
    hide BookInv, Apply;
    if k < |b.suspects| {
      var it := b.suspects[k];
      SuspectIsOther(b, self, txMax, k);
      if now <= it.deadline {
        SamePingTimeout(b, self, txMax, now, k + 1);
      } else if it.from != self {
        var kept := Item(it.id, self, it.deadline + b.pingTimeout);
        RetimeKeeps(b, self, txMax, k, kept);
        SamePingTimeout(b.(suspects := b.suspects[k := kept]), self, txMax, now, k + 1);
      } else {
        var b1 := Kill(b, self, it.id, now);
        KillsItem(b, self, txMax, now, k);
        ApplyKeeps(b, self, txMax, self, Gossip(it.id, State(b.members[it.id].incarnation, Dead)), now);
        SamePingTimeout(b1, self, txMax, now, if |b1.suspects| < |b.suspects| then k else k + 1);
      }
    }
  }

  /** A confirmation of item k is asked for if and only if it is overdue and came from somebody else. */
  lemma {:induction false} ConfirmsIff(items: seq<Item>, self: nat, now: nat, k: nat)
    requires k < |items| && forall j :: 0 <= j < |items| && j != k ==> items[j].id != items[k].id
    ensures Call(items[k].id, items[k].from) in Confirmations(items, self, now) <==>
              now > items[k].deadline && items[k].from != self
    ensures forall c <- Confirmations(items, self, now) :: c.id == items[k].id ==> c.to == items[k].from
    decreases |items|
  {
    var t := items[1..];
    if k == 0 {
      NoConfirmation(t, self, now, items[0].id);
    } else {
      ConfirmsIff(t, self, now, k - 1);
    }
  }

  lemma {:induction false} NoConfirmation(items: seq<Item>, self: nat, now: nat, x: nat)
    requires forall j :: 0 <= j < |items| ==> items[j].id != x
    ensures forall c <- Confirmations(items, self, now) :: c.id != x
    decreases |items|
  {
    if items != [] {
      NoConfirmation(items[1..], self, now, x);
    }
  }

  lemma {:induction false} WithoutFewer(items: seq<Item>, id: nat, item: Item)
    ensures item in Without(items, id) ==> item in items
    decreases |items|
  {
    if items != [] {
      WithoutFewer(items[1..], id, item);
    }
  }

  /** A suspicion that a message starts is credited to its sender, and lasts a full timeout. */
  lemma {:induction false} HeardFrom(b: Book, self: nat, from: nat, upds: seq<Gossip>, now: nat, item: Item)
    requires self in b.members && item in HearAll(b, self, from, upds, now).suspects
    ensures item in b.suspects || (item.from == from && item.deadline == now + SUSPECT_TIMEOUT)
    decreases |upds|
  {
    hide Without, Notified, Listed;
    if upds != [] && !KillsSelf(self, upds[0]) {
      HeardFrom(Hear(b, self, from, upds[0], now), self, from, upds[1..], now, item);
      WithoutFewer(b.suspects, upds[0].id, item);
    }
  }

  // ---- indirect pings ----

  /** The nodes that asked for a ping of x, in the order they asked. */
  function Askers(items: seq<Item>, x: nat): seq<nat> {
    if items == [] then []
    else (if items[0].id == x then [items[0].from] else []) + Askers(items[1..], x)
  }

  lemma AskersFirst(items: seq<Item>, x: nat)
    requires items != []
    ensures Askers(items, x) ==
            if items[0].id == x then [items[0].from] + Askers(items[1..], x) else Askers(items[1..], x)
  {
  }

  lemma {:induction false} AskersAppend(a: seq<Item>, b: seq<Item>, x: nat)
    ensures Askers(a + b, x) == Askers(a, x) + Askers(b, x)
    decreases |a|
  {
    hide Askers;
    if a == [] {
      assert a + b == b;
      AskersNone(x);
    } else {
      var t := a[1..];
      assert (a + b)[1..] == t + b && (a + b)[0] == a[0];
      AskersAppend(t, b, x);
      AskersFirst(a, x);
      AskersFirst(a + b, x);
      Regroup([a[0].from], Askers(t, x), Askers(b, x));
    }
  }

  lemma AskersNone(x: nat)
    ensures Askers([], x) == []
  {
  }

  lemma {:induction false} AskersListed(items: seq<Item>, x: nat)
    ensures Askers(items, x) == [] <==> !Listed(items, x)
    ensures Listed(items, x) ==> Askers(items, x)[0] == FirstFrom(items, x).from
    ensures Askers(Without(items, x), x) == if Listed(items, x) then Askers(items, x)[1..] else []
    decreases |items|
  {
    if items != [] {
      var h, t := items[0], items[1..];
      AskersListed(t, x);
      ListedSplit(items, x);
      AskersFirst(items, x);
      hide Listed, Askers;
      if h.id != x {
        AskersFirst([h] + Without(t, x), x);
        assert ([h] + Without(t, x))[1..] == Without(t, x);
      }
    }
  }

  lemma {:induction false} AskersOfOthers(items: seq<Item>, x: nat, y: nat)
    requires x != y
    ensures Askers(Without(items, x), y) == Askers(items, y)
    decreases |items|
  {
    if items != [] && items[0].id != x {
      AskersOfOthers(items[1..], x, y);
      var t := Without(items[1..], x);
      assert ([items[0]] + t)[1..] == t;
    }
  }

  /**
   Passing an answer of x on: the node that asked first and has not been told gets it, everybody else
   keeps waiting in order, and when nobody waits nothing is sent.
   */
  lemma ForwardsToFirst(c: Context, x: nat, y: nat)
    ensures
      var r, askers := Forward(c, x), Askers(c.ipings, x);
      && r.calls == (if askers == [] then [] else [Call(x, askers[0])])
      && Askers(r.context.ipings, x) == (if askers == [] then [] else askers[1..])
      && (y != x ==> Askers(r.context.ipings, y) == Askers(c.ipings, y))
  {
    hide Listed, Without, FirstFrom;
    AskersListed(c.ipings, x);
    if y != x {
      AskersOfOthers(c.ipings, x, y);
    }
  }

  /** The answer of x is passed on until nobody waits for it. */
  function ForwardMany(c: Context, x: nat, n: nat): Outcome
    decreases n
  {
    if n == 0 then Outcome(c, [])
    else
      var r := Forward(c, x);
      var rest := ForwardMany(r.context, x, n - 1);
      Outcome(rest.context, r.calls + rest.calls)
  }

  function Answers(x: nat, askers: seq<nat>): seq<Call> {
    if askers == [] then [] else [Call(x, askers[0])] + Answers(x, askers[1..])
  }

  /** All nodes that asked get one answer each, in the order they asked. */
  lemma {:induction false} EveryAskerTold(c: Context, x: nat)
    ensures
      var r := ForwardMany(c, x, |Askers(c.ipings, x)|);
      r.calls == Answers(x, Askers(c.ipings, x)) && Askers(r.context.ipings, x) == []
    decreases |Askers(c.ipings, x)|
  {
    hide Forward, Askers;
    ForwardsToFirst(c, x, x);
    if Askers(c.ipings, x) != [] {
      EveryAskerTold(Forward(c, x).context, x);
    }
  }

  /** swim_ipings_update forgets exactly the requests whose time is over. */
  lemma {:induction false} PendingExact(items: seq<Item>, now: nat, item: Item)
    ensures item in Pending(items, now) <==> item in items && now <= item.deadline
    decreases |items|
  {
    if items != [] {
      PendingExact(items[1..], now, item);
      assert items == [items[0]] + items[1..];
    }
  }

  lemma PendingFirst(items: seq<Item>, now: nat)
    requires items != []
    ensures Pending(items, now) ==
            if now > items[0].deadline then Pending(items[1..], now) else [items[0]] + Pending(items[1..], now)
  {
  }

  /** What it keeps stays in order: what is kept of a list is what is kept of its parts. */
  lemma {:induction false} PendingInOrder(a: seq<Item>, b: seq<Item>, now: nat)
    ensures Pending(a + b, now) == Pending(a, now) + Pending(b, now)
    decreases |a|
  {
    hide Pending;
    if a == [] {
      assert a + b == b;
      PendingNone(now);
    } else {
      var t := a[1..];
      assert (a + b)[1..] == t + b && (a + b)[0] == a[0];
      PendingInOrder(t, b, now);
      PendingFirst(a, now);
      PendingFirst(a + b, now);
      Regroup([a[0]], Pending(t, now), Pending(b, now));
    }
  }

  lemma PendingNone(now: nat)
    ensures Pending([], now) == []
  {
  }

  lemma Regroup<T>(p: seq<T>, q: seq<T>, r: seq<T>)
    ensures p + (q + r) == (p + q) + r
  {
  }

  /**
   A request to ping x for `from` is remembered, behind earlier ones, for one ping timeout, if it names
   x as SUSPECT and x is not this node's own target; x is pinged unless it is already being pinged for
   somebody.  Otherwise nothing is remembered and nothing is sent.
   */
  lemma RequestRemembered(c: Context, from: nat, first: Gossip, now: nat, later: nat)
    requires first.id != c.self && first.id != from
    ensures
      var r, x := Respond(c, from, first, now), first.id;
      var item := Item(x, from, now + c.book.pingTimeout);
      if x != c.probe.target && first.state.status == Suspect then
        && Askers(r.context.ipings, x) == Askers(c.ipings, x) + [from]
        && r.calls == (if Askers(c.ipings, x) == [] then [Call(x, x)] else [])
        && (later <= now + c.book.pingTimeout ==> item in Pending(r.context.ipings, later))
        && (later > now + c.book.pingTimeout ==> item !in Pending(r.context.ipings, later))
      else r == Outcome(c, [])
  {
    hide Listed, Pending, Askers, Without, FirstFrom;
    AskersListed(c.ipings, first.id);
    Remembered(c.ipings, Item(first.id, from, now + c.book.pingTimeout), later);
  }

  lemma Remembered(items: seq<Item>, item: Item, later: nat)
    ensures Askers(items + [item], item.id) == Askers(items, item.id) + [item.from]
    ensures item in Pending(items + [item], later) <==> later <= item.deadline
  {
    hide Askers, Pending;
    AskersMore(items, item);
    PendingExact(items + [item], later, item);
    assert (items + [item])[|items|] == item;
  }

  lemma AskersMore(items: seq<Item>, item: Item)
    ensures Askers(items + [item], item.id) == Askers(items, item.id) + [item.from]
  {
    AskersAppend(items, [item], item.id);
    AskersFirst([item], item.id);
    assert [item][1..] == [];
  }
}
