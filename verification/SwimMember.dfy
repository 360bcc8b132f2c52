/**
 What one SWIM node records about a member, and how gossip changes it.

 swim_member_alive, swim_member_suspect and swim_member_dead accept an update under three
 different tests.  Seen through (incarnation, dead or not) all three are the same join, which
 is why gossip may be lost, repeated and reordered.  The status is not part of the order: at
 one incarnation ALIVE overrides SUSPECT and SUSPECT overrides ALIVE.
 */
module SwimMember {
  datatype Status = Alive | Suspect | Dead | Inactive

  datatype State = State(incarnation: nat, status: Status)

  /** One entry of a SWIM message. */
  datatype Gossip = Gossip(id: nat, state: State)

  /** The test swim_member_alive, _suspect and _dead make before they change anything. */
  predicate Accepts(s: State, u: State) {
    u.incarnation > s.incarnation
    || (u.incarnation == s.incarnation && s.status != Dead && s.status != u.status)
  }

  /** The record after one update about another member; INACTIVE updates are ignored. */
  function Absorb(s: State, u: State): State {
    if u.status != Inactive && Accepts(s, u) then u else s
  }

  function AbsorbAll(s: State, us: seq<State>): State {
    if us == [] then s else Absorb(AbsorbAll(s, us[..|us| - 1]), us[|us| - 1])
  }

  /** The part of a record that gossip orders. */
  datatype Key = Key(incarnation: nat, dead: bool)

  function KeyOf(s: State): Key {
    Key(s.incarnation, s.status == Dead)
  }

  predicate Below(a: Key, b: Key) {
    a.incarnation < b.incarnation || (a.incarnation == b.incarnation && (a.dead ==> b.dead))
  }

  function Join(a: Key, b: Key): Key {
    if Below(a, b) then b else a
  }

  predicate Spreads(u: State) {
    u.status != Inactive
  }

  /** Alive, suspect and dead each act as the lexicographic join. */
  lemma AbsorbIsJoin(s: State, u: State)
    ensures KeyOf(Absorb(s, u)) == if Spreads(u) then Join(KeyOf(s), KeyOf(u)) else KeyOf(s)
  {
  }

  /** k is the least upper bound of the start and of every update that spreads. */
  ghost predicate IsTop(k: Key, s: State, us: seq<State>) {
    && Below(KeyOf(s), k)
    && (forall i :: 0 <= i < |us| && Spreads(us[i]) ==> Below(KeyOf(us[i]), k))
    && (k == KeyOf(s) || exists i :: 0 <= i < |us| && Spreads(us[i]) && KeyOf(us[i]) == k)
  }

  /** However the updates are ordered or repeated, the record ends at their least upper bound. */
  lemma {:induction false} AbsorbAllIsTop(s: State, us: seq<State>)
    ensures IsTop(KeyOf(AbsorbAll(s, us)), s, us)
  {
    if us != [] {
      var rest, u := us[..|us| - 1], us[|us| - 1];
      AbsorbAllIsTop(s, rest);
      AbsorbIsJoin(AbsorbAll(s, rest), u);
      var k0, k := KeyOf(AbsorbAll(s, rest)), KeyOf(AbsorbAll(s, us));
      assert Below(k0, k);
      if k != KeyOf(s) {
        if k == k0 {
          var i :| 0 <= i < |rest| && Spreads(rest[i]) && KeyOf(rest[i]) == k;
          assert us[i] == rest[i];
        } else {
          assert KeyOf(us[|us| - 1]) == k && Spreads(us[|us| - 1]);
        }
      }
    }
  }

  /** The updates of us that spread are among those of vs. */
  ghost predicate Covers(vs: seq<State>, us: seq<State>) {
    forall i :: 0 <= i < |us| && Spreads(us[i]) ==> us[i] in vs
  }

  lemma TopBelow(s: State, us: seq<State>, vs: seq<State>)
    requires Covers(vs, us)
    ensures Below(KeyOf(AbsorbAll(s, us)), KeyOf(AbsorbAll(s, vs)))
  {
    AbsorbAllIsTop(s, us);
    AbsorbAllIsTop(s, vs);
    hide AbsorbAll;
    var k := KeyOf(AbsorbAll(s, us));
    if k != KeyOf(s) {
      var i :| 0 <= i < |us| && Spreads(us[i]) && KeyOf(us[i]) == k;
      var j :| 0 <= j < |vs| && vs[j] == us[i];
      assert Spreads(vs[j]);
    }
  }

  /**
   Order-insensitivity: two nodes whose records start equal and that process the same set of
   updates, in any order and with any repetition, agree on incarnation and on death.
   */
  lemma GossipConverges(s: State, us: seq<State>, vs: seq<State>)
    requires Covers(vs, us) && Covers(us, vs)
    ensures KeyOf(AbsorbAll(s, us)) == KeyOf(AbsorbAll(s, vs))
  {
    TopBelow(s, us, vs);
    TopBelow(s, vs, us);
  }

  /** The status left by the last update at incarnation n that spreads. */
  function LastStatus(s: State, us: seq<State>, n: nat): Status {
    if us == [] then s.status
    else if Spreads(us[|us| - 1]) && us[|us| - 1].incarnation == n then us[|us| - 1].status
    else LastStatus(s, us[..|us| - 1], n)
  }

  /**
   The status itself is order-sensitive, and this is exactly how: a member that is not dead ends
   with the status of the last update at its final incarnation, or keeps the one it had.
   */
  lemma {:induction false} StatusIsLast(s: State, us: seq<State>)
    requires AbsorbAll(s, us).status != Dead
    ensures
      var n := AbsorbAll(s, us).incarnation;
      && AbsorbAll(s, us).status == LastStatus(s, us, n)
      && ((forall u <- us :: Spreads(u) ==> u.incarnation != n) ==> AbsorbAll(s, us) == s)
  {
    if us != [] {
      var rest, u := us[..|us| - 1], us[|us| - 1];
      var n := AbsorbAll(s, us).incarnation;
      if !(Spreads(u) && u.incarnation == n) {
        assert AbsorbAll(s, us) == AbsorbAll(s, rest);
        StatusIsLast(s, rest);
        assert forall v <- rest :: v in us;
      } else {
        assert u in us;
      }
    }
  }

  /** Two orders of the same two updates about a live member leave different statuses. */
  lemma StatusDependsOnOrder(n: nat)
    ensures
      var s, a, d := State(n, Inactive), State(n, Alive), State(n, Suspect);
      AbsorbAll(s, [a, d]).status == Suspect && AbsorbAll(s, [d, a]).status == Alive
  {
    var s, a, d := State(n, Inactive), State(n, Alive), State(n, Suspect);
    assert [a, d][..1] == [a] && [d, a][..1] == [d];
    assert AbsorbAll(s, [a]) == a && AbsorbAll(s, [d]) == d;
  }

  ghost predicate SameUpdates(us: seq<State>, vs: seq<State>) {
    Covers(us, vs) && Covers(vs, us)
  }

  /** The updates at incarnation n that spread all carry one status. */
  ghost predicate OneStatus(us: seq<State>, n: nat) {
    forall i, j :: 0 <= i < |us| && 0 <= j < |us| && AtTop(us[i], n) && AtTop(us[j], n) ==> us[i].status == us[j].status
  }

  predicate AtTop(u: State, n: nat) {
    Spreads(u) && u.incarnation == n
  }

  lemma TopReached(s: State, us: seq<State>, vs: seq<State>, n: nat)
    requires IsTop(Key(n, false), s, us) && SameUpdates(us, vs)
    ensures KeyOf(AbsorbAll(s, vs)) == Key(n, false)
  {
    AbsorbAllIsTop(s, us);
    GossipConverges(s, us, vs);
    hide AbsorbAll;
    var k, top := KeyOf(AbsorbAll(s, us)), Key(n, false);
    assert Below(k, top) && Below(top, k);
  }

  lemma {:induction false} LastIsOne(s: State, us: seq<State>, n: nat, status: Status)
    requires forall i :: 0 <= i < |us| && AtTop(us[i], n) ==> us[i].status == status
    ensures LastStatus(s, us, n) == if exists i :: 0 <= i < |us| && AtTop(us[i], n) then status else s.status
    decreases |us|
  {
    if us != [] {
      var init := us[..|us| - 1];
      assert forall i :: 0 <= i < |init| ==> init[i] == us[i];
      LastIsOne(s, init, n, status);
      if AtTop(us[|us| - 1], n) {
      } else if exists i :: 0 <= i < |us| && AtTop(us[i], n) {
        var i :| 0 <= i < |us| && AtTop(us[i], n);
        assert AtTop(init[i], n);
      }
    }
  }

  /** With one status at the top, every order and number ends in the same status. */
  lemma OneStatusAgrees(s: State, us: seq<State>, vs: seq<State>, n: nat)
    requires IsTop(Key(n, false), s, us) && SameUpdates(us, vs) && OneStatus(us, n)
    ensures AbsorbAll(s, vs).status == AbsorbAll(s, us).status
  {
    TopReached(s, us, vs, n);
    TopReached(s, us, us, n);
    StatusIsLast(s, us);
    StatusIsLast(s, vs);
    hide AbsorbAll, IsTop, LastStatus;
    if i :| 0 <= i < |us| && AtTop(us[i], n) {
      forall j | 0 <= j < |vs| && AtTop(vs[j], n) ensures vs[j].status == us[i].status {
        var k :| 0 <= k < |us| && us[k] == vs[j];
      }
      var j :| 0 <= j < |vs| && vs[j] == us[i];
      LastIsOne(s, us, n, us[i].status);
      LastIsOne(s, vs, n, us[i].status);
    } else {
      forall j | 0 <= j < |vs| ensures !AtTop(vs[j], n) {
        assert Spreads(vs[j]) ==> vs[j] in us;
      }
      LastIsOne(s, us, n, s.status);
      LastIsOne(s, vs, n, s.status);
    }
  }

  /** Repeating an update at the top decides the status. */
  lemma RepeatDecides(s: State, us: seq<State>, n: nat, i: nat)
    requires IsTop(Key(n, false), s, us) && i < |us| && AtTop(us[i], n)
    ensures SameUpdates(us, us + [us[i]]) && AbsorbAll(s, us + [us[i]]).status == us[i].status
  {
    var vs := us + [us[i]];
    assert SameUpdates(us, vs) by {
      assert forall k :: 0 <= k < |us| ==> vs[k] == us[k];
    }
    TopReached(s, us, vs, n);
    StatusIsLast(s, vs);
    assert vs[|vs| - 1] == us[i];
  }

  /**
   When the highest incarnation among the start and the updates is n and nobody says DEAD at n,
   all orders and numbers of the updates end in the same status if and only if the updates at n
   carry one status.
   */
  lemma StatusAgreesIff(s: State, us: seq<State>, n: nat)
    requires IsTop(Key(n, false), s, us)
    ensures (forall vs: seq<State> :: SameUpdates(us, vs) ==> AbsorbAll(s, vs).status == AbsorbAll(s, us).status)
       <==> OneStatus(us, n)
  {
    hide IsTop, AbsorbAll;
    if OneStatus(us, n) {
      forall vs: seq<State> | SameUpdates(us, vs) ensures AbsorbAll(s, vs).status == AbsorbAll(s, us).status {
        OneStatusAgrees(s, us, vs, n);
      }
    } else {
      var i, j :| 0 <= i < |us| && 0 <= j < |us| && AtTop(us[i], n) && AtTop(us[j], n) && us[i].status != us[j].status;
      RepeatDecides(s, us, n, i);
      RepeatDecides(s, us, n, j);
    }
  }
}
