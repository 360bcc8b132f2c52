/**
 The three tree topologies on tree ranks: which rank is the parent of which.  The root
 has tree rank 0.  `ChildrenBelow` is the reference for every child listing in the code.
 */
module Topologies {
  import opened Arith
  import opened RankList

  // CRT_TREE_MIN_RATIO and CRT_TREE_MAX_RATIO; the latter is also the size of a digit buffer
  const MIN_RATIO: nat := 2
  const MAX_RATIO: nat := 64
  // One past the largest uint32_t
  const U32: nat := 0x1_0000_0000

  datatype Topology = Flat | Kary(ratio: nat) | Knomial(ratio: nat)

  predicate Proper(t: Topology) {
    t.Flat? || t.ratio >= 2
  }

  /** The rank with its lowest non-zero base-r digit cleared. */
  function KnomialParent(x: nat, r: nat): (p: nat)
    requires r >= 2 && x > 0
    ensures p < x
  {
    QuotRem(x, r);
    if Rem(x, r) != 0 then Times(r, Quot(x, r))
    else
      TimesMono(r, KnomialParent(Quot(x, r), r), Quot(x, r));
      Times(r, KnomialParent(Quot(x, r), r))
  }

  function TreeParent(t: Topology, x: nat): (p: nat)
    requires Proper(t) && x > 0
    ensures p < x
  {
    match t
    case Flat => 0
    case Kary(r) => Quot(x - 1, r)
    case Knomial(r) => KnomialParent(x, r)
  }

  /** All ranks in [1, n) whose parent is p, in increasing order. */
  ghost function ChildrenBelow(t: Topology, p: nat, n: nat): seq<nat>
    requires Proper(t)
  {
    if n <= 1 then []
    else if TreeParent(t, n - 1) == p then ChildrenBelow(t, p, n - 1) + [n - 1]
    else ChildrenBelow(t, p, n - 1)
  }

  lemma {:induction false} ChildrenBelowExact(t: Topology, p: nat, n: nat)
    requires Proper(t)
    ensures forall c :: c in ChildrenBelow(t, p, n) <==> 0 < c < n && TreeParent(t, c) == p
    ensures Distinct(ChildrenBelow(t, p, n))
  {
    hide TreeParent;
    if n > 1 {
      ChildrenBelowExact(t, p, n - 1);
    }
  }

  ghost predicate NoChildIn(t: Topology, p: nat, a: nat, b: nat)
    requires Proper(t)
  {
    forall c :: a <= c < b && 0 < c ==> TreeParent(t, c) != p
  }

  lemma {:induction false} NoneBetween(t: Topology, p: nat, a: nat, b: nat)
    requires Proper(t) && a <= b && NoChildIn(t, p, a, b)
    ensures ChildrenBelow(t, p, a) == ChildrenBelow(t, p, b)
    decreases b - a
  {
    if a < b {
      assert NoChildIn(t, p, a, b - 1);
      NoneBetween(t, p, a, b - 1);
    }
  }

  lemma NoneUpToSelf(t: Topology, p: nat)
    requires Proper(t)
    ensures ChildrenBelow(t, p, p + 1) == []
  {
    NoneBetween(t, p, 0, p + 1);
  }

  ghost predicate AllBelow(list: seq<nat>, n: nat) {
    forall c :: c in list ==> c < n
  }

  /** A list of children that stays below n and misses none up to n is the list of all of them. */
  lemma ListComplete(t: Topology, p: nat, a: nat, n: nat)
    requires Proper(t) && NoChildIn(t, p, a, n) && AllBelow(ChildrenBelow(t, p, a), n)
    ensures ChildrenBelow(t, p, a) == ChildrenBelow(t, p, n)
  {
    if a <= n {
      NoneBetween(t, p, a, n);
    } else {
      ChildrenBelowExact(t, p, a);
      NoneBetween(t, p, n, a);
    }
  }

  lemma OneMore(t: Topology, p: nat, c: nat)
    requires Proper(t) && c > 0 && TreeParent(t, c) == p
    ensures ChildrenBelow(t, p, c + 1) == ChildrenBelow(t, p, c) + [c]
  {
  }

  // ----- Candidates in 32-bit arithmetic -----

  /** The candidates for children before the first that is outside a group of n. */
  function Below(q: seq<nat>, n: nat): seq<nat> {
    if q == [] || q[0] >= n then [] else [q[0]] + Below(q[1..], n)
  }

  /** What the code lists: it computes every candidate modulo 2^32. */
  function Wrapped(q: seq<nat>, n: nat): seq<nat> {
    if q == [] || q[0] % U32 >= n then [] else [q[0] % U32] + Wrapped(q[1..], n)
  }

  /** The first candidate outside the group, if there is one, is still outside it modulo 2^32. */
  predicate Survives(q: seq<nat>, n: nat) {
    if q == [] then true else if q[0] >= n then q[0] % U32 >= n else Survives(q[1..], n)
  }

  lemma {:induction false} WrappedIff(q: seq<nat>, n: nat)
    requires n <= U32
    ensures Wrapped(q, n) == Below(q, n) <==> Survives(q, n)
    decreases |q|
  {
    if q != [] && q[0] < n {
      WrappedIff(q[1..], n);
      assert Wrapped(q, n)[1..] == Wrapped(q[1..], n) && Below(q, n)[1..] == Below(q[1..], n);
    }
  }

  /** Once the children of p before `from` are listed, the candidates q are the rest of them. */
  ghost predicate ChildrenAre(t: Topology, p: nat, from: nat, q: seq<nat>, n: nat)
    requires Proper(t)
  {
    AllBelow(ChildrenBelow(t, p, from), n) ==> ChildrenBelow(t, p, n) == ChildrenBelow(t, p, from) + Below(q, n)
  }

  lemma OneChild(t: Topology, p: nat, c: nat, next: nat, q: seq<nat>, rest: seq<nat>, n: nat)
    requires Proper(t) && ChildrenBelow(t, p, next) == ChildrenBelow(t, p, c) + [c]
    requires Below(q, n) == if c >= n then [] else [c] + Below(rest, n)
    requires ChildrenAre(t, p, next, rest, n)
    ensures ChildrenAre(t, p, c, q, n)
  {
    hide ChildrenBelow, TreeParent, Below;
    if c >= n && AllBelow(ChildrenBelow(t, p, c), n) {
      ListComplete(t, p, c, n);
    }
  }

  lemma NoMoreChildren(t: Topology, p: nat, from: nat, n: nat)
    requires Proper(t) && NoChildIn(t, p, from, n)
    ensures ChildrenAre(t, p, from, [], n)
  {
    hide ChildrenBelow, TreeParent;
    if AllBelow(ChildrenBelow(t, p, from), n) {
      ListComplete(t, p, from, n);
    }
  }

  /** The caller's buffer, when there is one, holds the listed ranks. */
  ghost predicate Written(children: array?<nat>, n: nat, list: seq<nat>)
    reads if children == null then {} else {children}
  {
    n == |list| && (children != null ==> n <= children.Length && children[..n] == list)
  }

  lemma TakeOne(all: seq<nat>, done: seq<nat>, c: nat, rest: seq<nat>)
    requires all == done + ([c] + rest)
    ensures all == (done + [c]) + rest && |done| < |all|
  {
  }

  /** Count one more child and, unless only counting, store it. */
  method Put(children: array?<nat>, n: nat, child: nat, ghost list: seq<nat>) returns (n': nat)
    requires Written(children, n, list) && (children != null ==> n < children.Length)
    modifies if children == null then {} else {children}
    ensures Written(children, n', list + [child])
  {
    if children != null {
      children[n] := child;
    }
    n' := n + 1;
  }
}
