/** The k-ary tree of src/cart/crt_tree_kary.c on tree ranks. */
module Kary {
  import opened Arith
  import opened Topologies

  /** Rank x has the children x * r + 1 to x * r + r: the next one, i from 0. */
  lemma NextChild(x: nat, r: nat, i: nat)
    requires r >= 2 && i < r
    ensures ChildrenBelow(Kary(r), x, Times(r, x) + i + 2)
         == ChildrenBelow(Kary(r), x, Times(r, x) + i + 1) + [Times(r, x) + i + 1]
  {
    QuotRemUnique(r, x, i);
  }

  lemma NoneOutside(x: nat, r: nat, y: nat)
    requires r >= 2 && y > 0
    requires y <= Times(r, x) || y > Times(r, x) + r
    ensures TreeParent(Kary(r), y) != x
  {
    QuotRem(y - 1, r);
  }

  lemma NoneBefore(x: nat, r: nat)
    requires r >= 2
    ensures ChildrenBelow(Kary(r), x, Times(r, x) + 1) == []
  {
    forall c | 0 < c < Times(r, x) + 1
      ensures TreeParent(Kary(r), c) != x
    {
      NoneOutside(x, r, c);
    }
    NoneBetween(Kary(r), x, 0, Times(r, x) + 1);
  }

  lemma NoneAfter(x: nat, r: nat, n: nat)
    requires r >= 2
    ensures NoChildIn(Kary(r), x, Times(r, x) + r + 1, n)
  {
    forall c | Times(r, x) + r + 1 <= c < n
      ensures TreeParent(Kary(r), c) != x
    {
      NoneOutside(x, r, c);
    }
  }

  /** The candidates from number i on. */
  function CandidatesFrom(x: nat, r: nat, i: nat): seq<nat>
    decreases r - i
  {
    if i >= r then [] else [Times(r, x) + i + 1] + CandidatesFrom(x, r, i + 1)
  }

  function Candidates(x: nat, r: nat): seq<nat> {
    CandidatesFrom(x, r, 0)
  }

  lemma BelowFrom(x: nat, r: nat, i: nat, n: nat)
    requires i < r
    ensures
      var c := Times(r, x) + i + 1;
      Below(CandidatesFrom(x, r, i), n) == if c >= n then [] else [c] + Below(CandidatesFrom(x, r, i + 1), n)
  {
    assert CandidatesFrom(x, r, i)[1..] == CandidatesFrom(x, r, i + 1);
  }

  lemma {:induction false} ChildrenFrom(x: nat, r: nat, i: nat, n: nat)
    requires r >= 2 && i <= r
    ensures ChildrenAre(Kary(r), x, Times(r, x) + i + 1, CandidatesFrom(x, r, i), n)
    decreases r - i
  {
    hide ChildrenAre, ChildrenBelow, TreeParent, Times, Below;
    if i == r {
      NoneAfter(x, r, n);
      NoMoreChildren(Kary(r), x, Times(r, x) + r + 1, n);
    } else {
      BelowFrom(x, r, i, n);
      NextChild(x, r, i);
      ChildrenFrom(x, r, i + 1, n);
      var c := Times(r, x) + i + 1;
      OneChild(Kary(r), x, c, c + 1, CandidatesFrom(x, r, i), CandidatesFrom(x, r, i + 1), n);
    }
  }

  /** Without wrap-around the candidates inside the group are exactly the children. */
  lemma CandidatesExact(x: nat, r: nat, n: nat)
    requires r >= 2
    ensures Below(Candidates(x, r), n) == ChildrenBelow(Kary(r), x, n)
  {
    NoneBefore(x, r);
    ChildrenFrom(x, r, 0, n);
  }

  lemma {:induction false} SurvivesFrom(x: nat, r: nat, i: nat, n: nat)
    requires i <= r && 0 < n < U32 && Times(r, x) + i + 1 < U32
    ensures Survives(CandidatesFrom(x, r, i), n)
    decreases r - i
  {
    hide Times;
    if i < r {
      var c := Times(r, x) + i + 1;
      if c < n {
        SurvivesFrom(x, r, i + 1, n);
        assert CandidatesFrom(x, r, i)[1..] == CandidatesFrom(x, r, i + 1);
      }
    }
  }

  /**
   On all 32-bit inputs, the code lists exactly the children if and only if the product of rank
   and ratio does not wrap, or wraps to a rank outside the group.
   */
  lemma ListedIff(x: nat, r: nat, n: nat)
    requires r >= 2 && x < n < U32
    ensures Wrapped(Candidates(x, r), n) == ChildrenBelow(Kary(r), x, n)
       <==> Times(r, x) + 1 < U32 || (Times(r, x) + 1) % U32 >= n
  {
    hide Times;
    CandidatesExact(x, r, n);
    WrappedIff(Candidates(x, r), n);
    if Times(r, x) + 1 < U32 {
      SurvivesFrom(x, r, 0, n);
    }
  }

  /** It does go wrong: rank 2^31 of a binary tree with 2^31 + 1 ranks lists rank 1 as its child. */
  lemma WrapsToWrongChild()
    ensures
      var x, n := 0x8000_0000, 0x8000_0001;
      1 in Wrapped(Candidates(x, 2), n) && 1 !in ChildrenBelow(Kary(2), x, n)
  {
    var x, n := 0x8000_0000, 0x8000_0001;
    TimesIsProduct(2, x);
    hide Times;
    assert Candidates(x, 2)[0] == U32 + 1;
    ChildrenBelowExact(Kary(2), x, n);
    NoneOutside(x, 2, 1);
    hide ChildrenBelow;
  }

  lemma WrappedFrom(x: nat, r: nat, i: nat, n: nat)
    requires i <= r
    ensures
      var c := Times(r, x) + i + 1;
      Wrapped(CandidatesFrom(x, r, i), n) ==
        if i == r || c % U32 >= n then [] else [c % U32] + Wrapped(CandidatesFrom(x, r, i + 1), n)
  {
    hide Times;
    assert i < r ==> CandidatesFrom(x, r, i)[1..] == CandidatesFrom(x, r, i + 1);
  }

  method ChildRank(self: nat, ratio: nat, i: nat) returns (rank: nat)
    ensures rank == (Times(ratio, self) + i + 1) % U32
  {
    TimesIsProduct(ratio, self);
    rank := (self * ratio + i + 1) % U32;
  }

  /** kary_get_children, which only counts when the buffer is null */
  method GetChildren(children: array?<nat>, self: nat, size: nat, ratio: nat) returns (nchildren: nat)
    requires MIN_RATIO <= ratio <= MAX_RATIO
    requires self < size < U32
    requires children != null ==> children.Length >= |Wrapped(Candidates(self, ratio), size)|
    modifies if children == null then {} else {children}
    ensures Written(children, nchildren, Wrapped(Candidates(self, ratio), size))
  {
    hide Times, Wrapped, CandidatesFrom, ChildrenBelow, Below;
    nchildren := 0;
    var i := 0;
    ghost var done: seq<nat>, all := [], Wrapped(Candidates(self, ratio), size);
    while i < ratio
      invariant 0 <= i <= ratio
      invariant Written(children, nchildren, done)
      invariant all == done + Wrapped(CandidatesFrom(self, ratio, i), size)
    {
      WrappedFrom(self, ratio, i, size);
      var rank := ChildRank(self, ratio, i);
      if rank >= size {
        return;
      }
      TakeOne(all, done, rank, Wrapped(CandidatesFrom(self, ratio, i + 1), size));
      nchildren := Put(children, nchildren, rank, done);
      done := done + [rank];
      i := i + 1;
    }
    WrappedFrom(self, ratio, i, size);
  }

  /** The parent computation of crt_kary_get_parent */
  method GetParent(self: nat, ratio: nat) returns (parent: nat)
    requires ratio >= 2 && self > 0
    ensures parent == TreeParent(Kary(ratio), self)
  {
    QuotRemAreDivMod(self - 1, ratio);
    parent := (self - 1) / ratio;
  }
}
