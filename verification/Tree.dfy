/**
 Broadcast trees on group ranks: src/cart/crt_tree.h, crt_tree_flat.c, the wrappers of
 crt_tree_kary.c and crt_tree_knomial.c, and the filtering and dispatch of crt_tree.c.

 Group ranks are rotated so that the root of the collective gets tree rank 0.  Every
 child listing in the code is proved to list exactly the group ranks whose parent is the
 caller, each once.
 */
module Tree {
  import opened Arith
  import opened RankList
  import opened Topologies
  import opened Broadcast
  import KnomialTree = Knomial
  import KaryTree = Kary

  /** The parameter checks of crt_tree_topo_valid */
  predicate TopoValid(t: Topology) {
    t.Flat? || MIN_RATIO <= t.ratio <= MAX_RATIO
  }

  /** Group sizes for which the 32-bit arithmetic of the topology does not wrap. */
  predicate Fits(t: Topology, size: nat) {
    2 * size <= U32 &&
    match t
    case Flat => true
    case Kary(r) => Times(r, size) < U32
    case Knomial(r) => 3 * size <= U32
  }

  // ----- Tree ranks and group ranks -----

  /** The rotation of crt_treerank_2_grprank, without wrap-around. */
  function ToGroup(size: nat, root: nat, x: nat): (g: nat)
    requires root < size && x < size
    ensures g < size
  {
    (x + root) % size
  }

  /** The rotation of crt_grprank_2_teerank, without wrap-around. */
  function ToTree(size: nat, root: nat, g: nat): (x: nat)
    requires root < size && g < size
    ensures x < size
  {
    (g + size - root) % size
  }

  lemma ModBySize(a: nat, size: nat)
    requires a < 2 * size
    ensures a % size == if a < size then a else a - size
  {
    if a < size {
      DivModSmall(a, size);
    } else {
      DivModStep(a, size);
      DivModSmall(a - size, size);
    }
  }

  /** The two translations are inverse bijections, and the root becomes tree rank 0. */
  lemma Rotation(size: nat, root: nat, x: nat)
    requires root < size && x < size
    ensures ToTree(size, root, ToGroup(size, root, x)) == x
    ensures ToGroup(size, root, ToTree(size, root, x)) == x
    ensures ToTree(size, root, x) == 0 <==> x == root
    ensures ToGroup(size, root, x) == root <==> x == 0
  {
    ModBySize(x + root, size);
    ModBySize(ToGroup(size, root, x) + size - root, size);
    ModBySize(x + size - root, size);
    ModBySize(ToTree(size, root, x) + root, size);
  }

  /** Group rank of the parent of a group rank other than the root. */
  function GroupParent(t: Topology, size: nat, root: nat, g: nat): (p: nat)
    requires Proper(t) && root < size && g < size && g != root
    ensures p < size
  {
    Rotation(size, root, g);
    ToGroup(size, root, TreeParent(t, ToTree(size, root, g)))
  }

  /** `list` holds each group rank whose parent is `self` exactly once, and nothing else. */
  ghost predicate IsChildList(t: Topology, size: nat, root: nat, self: nat, list: seq<nat>)
    requires Proper(t) && root < size && self < size
  {
    && Distinct(list)
    && (forall g: nat :: g in list <==> g < size && g != root && GroupParent(t, size, root, g) == self)
  }

  ghost predicate InGroup(size: nat, xs: seq<nat>) {
    forall i :: 0 <= i < |xs| ==> xs[i] < size
  }

  /** A list of tree ranks, each rotated into the group. */
  ghost function Rotated(size: nat, root: nat, xs: seq<nat>): (gs: seq<nat>)
    requires root < size && InGroup(size, xs)
    ensures |gs| == |xs| && forall i :: 0 <= i < |xs| ==> gs[i] == ToGroup(size, root, xs[i])
  {
    seq(|xs|, i requires 0 <= i < |xs| => ToGroup(size, root, xs[i]))
  }

  lemma ChildrenInGroup(t: Topology, x: nat, size: nat)
    requires Proper(t)
    ensures InGroup(size, ChildrenBelow(t, x, size))
  {
    ChildrenBelowExact(t, x, size);
    var xs := ChildrenBelow(t, x, size);
    forall i | 0 <= i < |xs|
      ensures xs[i] < size
    {
      assert xs[i] in xs;
    }
  }

  /** All ranks below n except the root. */
  ghost function Others(n: nat, root: nat): seq<nat> {
    if n == 0 then []
    else if n - 1 == root then Others(n - 1, root)
    else Others(n - 1, root) + [n - 1]
  }

  /** What the listing of each topology returns: group ranks, in the order of the code. */
  ghost function ChildList(t: Topology, size: nat, root: nat, self: nat): seq<nat>
    requires Proper(t) && root < size && self < size
  {
    if t.Flat? then
      if self == root then Others(size, root) else []
    else
      ChildrenInGroup(t, ToTree(size, root, self), size);
      Rotated(size, root, ChildrenBelow(t, ToTree(size, root, self), size))
  }

  lemma {:induction false} OthersExact(n: nat, root: nat)
    ensures Distinct(Others(n, root)) && forall g: nat :: g in Others(n, root) <==> g < n && g != root
    ensures |Others(n, root)| == if root < n then n - 1 else n
  {
    if n > 0 {
      OthersExact(n - 1, root);
      DistinctAppend(Others(n - 1, root), n - 1);
    }
  }

  lemma RotatedDistinct(size: nat, root: nat, xs: seq<nat>)
    requires root < size && InGroup(size, xs) && Distinct(xs)
    ensures Distinct(Rotated(size, root, xs))
    ensures forall g: nat :: g in Rotated(size, root, xs) <==> g < size && ToTree(size, root, g) in xs
  {
    var gs := Rotated(size, root, xs);
    forall i, j | 0 <= i < j < |gs|
      ensures gs[i] != gs[j]
    {
      Rotation(size, root, xs[i]);
      Rotation(size, root, xs[j]);
    }
    forall g: nat
      ensures g in gs <==> g < size && ToTree(size, root, g) in xs
    {
      if g in gs {
        var i :| 0 <= i < |gs| && gs[i] == g;
        Rotation(size, root, xs[i]);
      }
      if g < size && ToTree(size, root, g) in xs {
        var i :| 0 <= i < |xs| && xs[i] == ToTree(size, root, g);
        Rotation(size, root, g);
        assert gs[i] == g;
      }
    }
  }

  /** Each listing is exact: the ranks whose parent is the caller, once each. */
  lemma ChildListExact(t: Topology, size: nat, root: nat, self: nat)
    requires Proper(t) && root < size && self < size
    ensures IsChildList(t, size, root, self, ChildList(t, size, root, self))
  {
    hide ToTree, ToGroup;
    if t.Flat? {
      OthersExact(size, root);
      forall g: nat | g < size && g != root
        ensures GroupParent(t, size, root, g) == root
      {
        Rotation(size, root, 0);
      }
    } else {
      hide TreeParent, ChildrenBelow;
      var x := ToTree(size, root, self);
      ChildrenBelowExact(t, x, size);
      ChildrenInGroup(t, x, size);
      RotatedDistinct(size, root, ChildrenBelow(t, x, size));
      forall g: nat | g < size
        ensures ToTree(size, root, g) in ChildrenBelow(t, x, size)
           <==> g != root && GroupParent(t, size, root, g) == self
      {
        Rotation(size, root, g);
        Rotation(size, root, self);
        if g != root {
          Rotation(size, root, TreeParent(t, ToTree(size, root, g)));
        }
      }
    }
  }

  // ----- The same in 32-bit arithmetic -----

  /** crt_treerank_2_grprank */
  function GroupRank(size: nat, root: nat, x: nat): (g: nat)
    requires root < size && x < size
    ensures g < size
  {
    (x + root) % U32 % size
  }

  /** crt_grprank_2_teerank */
  function TreeRank(size: nat, root: nat, g: nat): (x: nat)
    requires root < size && g < size
    ensures x < size
  {
    (g + size - root) % U32 % size
  }

  /** Reducing modulo 2^32 first is harmless exactly below 2^32. */
  lemma WrapsFrom(a: nat, size: nat)
    requires a < 2 * size && 0 < size < U32
    ensures a % U32 % size == if a < U32 then a % size else a - U32
    ensures a % U32 % size == a % size <==> a < U32
  {
    ModBySize(a, size);
    if a >= U32 {
      assert a % U32 == a - U32;
      ModBySize(a - U32, size);
    }
  }

  /**
   For all 32-bit sizes: either translation is right if and only if its sum does not wrap, and a
   rank other than the root becomes tree rank 0 if and only if its sum is 2^32.
   */
  lemma RotationIff(size: nat, root: nat, x: nat)
    requires root < size < U32 && x < size
    ensures GroupRank(size, root, x) == ToGroup(size, root, x) <==> x + root < U32
    ensures TreeRank(size, root, x) == ToTree(size, root, x) <==> x + size - root < U32
    ensures x != root ==> (TreeRank(size, root, x) == 0 <==> x + size - root == U32)
  {
    WrapsFrom(x + root, size);
    WrapsFrom(x + size - root, size);
    Rotation(size, root, x);
  }

  function CandidatesOf(t: Topology, x: nat): seq<nat>
    requires Proper(t) && !t.Flat?
  {
    if t.Kary? then KaryTree.Candidates(x, t.ratio) else KnomialTree.Candidates(x, t.ratio)
  }

  lemma {:induction false} WrappedInGroup(q: seq<nat>, n: nat)
    ensures InGroup(n, Wrapped(q, n))
    decreases |q|
  {
    if q != [] {
      WrappedInGroup(q[1..], n);
    }
  }

  lemma {:induction false} WrappedGoesOn(q: seq<nat>, n: nat)
    requires n <= U32
    ensures Below(q, n) <= Wrapped(q, n)
    decreases |q|
  {
    if q != [] {
      WrappedGoesOn(q[1..], n);
    }
  }

  ghost function RotatedBack(size: nat, root: nat, xs: seq<nat>): (gs: seq<nat>)
    requires root < size && InGroup(size, xs)
    ensures |gs| == |xs| && forall i :: 0 <= i < |xs| ==> gs[i] == GroupRank(size, root, xs[i])
  {
    seq(|xs|, i requires 0 <= i < |xs| => GroupRank(size, root, xs[i]))
  }

  /** What the listing of each topology computes. */
  ghost function Listed(t: Topology, size: nat, root: nat, self: nat): seq<nat>
    requires Proper(t) && root < size && self < size
  {
    if t.Flat? then ChildList(t, size, root, self)
    else
      var q := CandidatesOf(t, TreeRank(size, root, self));
      WrappedInGroup(q, size);
      RotatedBack(size, root, Wrapped(q, size))
  }

  lemma ListedInGroup(t: Topology, size: nat, root: nat, self: nat)
    requires Proper(t) && root < size && self < size
    ensures InGroup(size, Listed(t, size, root, self))
  {
    if t.Flat? {
      OthersExact(size, root);
      forall i | 0 <= i < |Listed(t, size, root, self)| ensures Listed(t, size, root, self)[i] < size {
        assert Listed(t, size, root, self)[i] in Others(size, root);
      }
    }
  }

  lemma CandidatesAreChildren(t: Topology, x: nat, size: nat)
    requires Proper(t) && !t.Flat? && size <= U32
    ensures Below(CandidatesOf(t, x), size) == ChildrenBelow(t, x, size)
  {
    hide Below, ChildrenBelow;
    if t.Kary? {
      KaryTree.CandidatesExact(x, t.ratio, size);
    } else {
      KnomialTree.CandidatesExact(x, t.ratio, size);
    }
  }

  /** Rotated with and without wrap-around, ranks are the same if and only if no sum wraps. */
  lemma RotatedBackIff(size: nat, root: nat, xs: seq<nat>)
    requires root < size < U32 && InGroup(size, xs)
    ensures RotatedBack(size, root, xs) == Rotated(size, root, xs) <==> forall i :: 0 <= i < |xs| ==> xs[i] + root < U32
  {
    hide GroupRank, ToGroup;
    var gs, hs := RotatedBack(size, root, xs), Rotated(size, root, xs);
    forall i | 0 <= i < |xs| ensures gs[i] == hs[i] <==> xs[i] + root < U32 {
      RotationIff(size, root, xs[i]);
    }
    if forall i :: 0 <= i < |xs| ==> xs[i] + root < U32 {
      assert gs == hs;
    }
  }

  lemma ByPosition(xs: seq<nat>, root: nat)
    ensures (forall c <- xs :: c + root < U32) <==> forall i :: 0 <= i < |xs| ==> xs[i] + root < U32
  {
    if forall c <- xs :: c + root < U32 {
      forall i | 0 <= i < |xs| ensures xs[i] + root < U32 {
        assert xs[i] in xs;
      }
    }
  }

  /**
   For every rank whose own translation does not wrap, the code lists exactly the children if and
   only if the first candidate outside the group does not wrap into it and no child wraps when it
   is translated back.
   */
  lemma ListedIff(t: Topology, size: nat, root: nat, self: nat)
    requires Proper(t) && !t.Flat? && root < size < U32 && self < size && self + size - root < U32
    ensures
      var x := ToTree(size, root, self);
      Listed(t, size, root, self) == ChildList(t, size, root, self) <==>
        Survives(CandidatesOf(t, x), size) && forall c <- ChildrenBelow(t, x, size) :: c + root < U32
  {
    hide TreeRank, ToTree, GroupRank, ToGroup, ChildrenBelow, CandidatesOf, Below, Wrapped, Survives;
    RotationIff(size, root, self);
    var x := ToTree(size, root, self);
    var q, xs := CandidatesOf(t, x), ChildrenBelow(t, x, size);
    CandidatesAreChildren(t, x, size);
    WrappedIff(q, size);
    WrappedGoesOn(q, size);
    WrappedInGroup(q, size);
    ChildrenInGroup(t, x, size);
    if Survives(q, size) {
      RotatedBackIff(size, root, xs);
      ByPosition(xs, root);
    } else {
      assert |Wrapped(q, size)| > |xs|;
    }
  }

  lemma FitsSurvives(t: Topology, x: nat, size: nat)
    requires Proper(t) && !t.Flat? && x < size && Fits(t, size)
    ensures Survives(CandidatesOf(t, x), size)
  {
    hide Survives;
    match t
    case Kary(r) =>
      TimesMono(r, x, size);
      KaryTree.SurvivesFrom(x, r, 0, size);
    case Knomial(r) => KnomialTree.SmallSurvives(x, r, size);
  }

  /** In groups that fit, every rank lists exactly its children. */
  lemma FitsListed(t: Topology, size: nat, root: nat, self: nat)
    requires Proper(t) && root < size && self < size && Fits(t, size)
    ensures Listed(t, size, root, self) == ChildList(t, size, root, self)
  {
    if !t.Flat? {
      var x := ToTree(size, root, self);
      ListedIff(t, size, root, self);
      FitsSurvives(t, x, size);
      ChildrenBelowExact(t, x, size);
    }
  }

  /** The parent each topology computes; the source asserts that only the root becomes tree rank 0. */
  function ParentListed(t: Topology, size: nat, root: nat, self: nat): (p: nat)
    requires Proper(t) && root < size && self < size && (!t.Flat? ==> TreeRank(size, root, self) != 0)
    ensures p < size
  {
    if t.Flat? then root else GroupRank(size, root, TreeParent(t, TreeRank(size, root, self)))
  }

  /**
   For every rank whose own translation does not wrap, the parent is right if and only if the
   translation of the parent does not wrap either.
   */
  lemma ParentIff(t: Topology, size: nat, root: nat, self: nat)
    requires Proper(t) && root < size < U32 && self < size && self != root && self + size - root < U32
    ensures TreeRank(size, root, self) == ToTree(size, root, self) != 0
    ensures ParentListed(t, size, root, self) == GroupParent(t, size, root, self) <==>
              t.Flat? || TreeParent(t, ToTree(size, root, self)) + root < U32
  {
    hide TreeRank, ToTree, GroupRank, ToGroup;
    Rotation(size, root, self);
    Rotation(size, root, 0);
    RotationIff(size, root, self);
    RotationIff(size, root, TreeParent(t, ToTree(size, root, self)));
  }

  lemma FitsParent(t: Topology, size: nat, root: nat, self: nat)
    requires Proper(t) && root < size && self < size && self != root && Fits(t, size)
    ensures TreeRank(size, root, self) != 0
    ensures ParentListed(t, size, root, self) == GroupParent(t, size, root, self)
  {
    hide TreeRank, ToTree, GroupRank, ToGroup;
    ParentIff(t, size, root, self);
  }

  // ----- The code -----

  /** The loop that rotates a filled buffer in place. */
  method RotateAll(children: array<nat>, n: nat, size: nat, root: nat)
    requires root < size && n <= children.Length && InGroup(size, children[..n])
    modifies children
    ensures children[..n] == RotatedBack(size, root, old(children[..n]))
  {
    hide GroupRank;
    ghost var input := children[..n];
    for i := 0 to n
      invariant forall k :: 0 <= k < i ==> children[k] == GroupRank(size, root, input[k])
      invariant forall k :: i <= k < n ==> children[k] == input[k]
    {
      children[i] := GroupRank(size, root, children[i]);
    }
  }

  /** crt_flat_get_children_cnt, crt_kary_get_children_cnt, crt_knomial_get_children_cnt */
  method ChildrenCount(t: Topology, size: nat, root: nat, self: nat) returns (n: nat)
    requires TopoValid(t) && root < size < U32 && self < size
    ensures n == |Listed(t, size, root, self)|
  {
    match t
    case Flat =>
      OthersExact(size, root);
      n := if self == root then size - 1 else 0;
    case Kary(r) =>
      n := KaryTree.GetChildren(null, TreeRank(size, root, self), size, r);
    case Knomial(r) =>
      n := KnomialTree.GetChildren(null, TreeRank(size, root, self), size, r);
  }

  /** crt_flat_get_children, crt_kary_get_children, crt_knomial_get_children; ok is false for -DER_INVAL. */
  method Children(t: Topology, size: nat, root: nat, self: nat, children: array<nat>) returns (ok: bool)
    requires TopoValid(t) && root < size < U32 && self < size
    requires children.Length == |Listed(t, size, root, self)|
    modifies children
    ensures ok <==> !(t.Flat? && self != root)
    ensures ok ==> children[..] == Listed(t, size, root, self)
  {
    if t.Flat? {
      if self != root {
        return false;
      }
      OthersExact(size, root);
      FlatChildren(size, root, children);
    } else {
      hide Wrapped, TreeRank;
      var x := TreeRank(size, root, self);
      WrappedInGroup(CandidatesOf(t, x), size);
      var n;
      if t.Kary? {
        n := KaryTree.GetChildren(children, x, size, t.ratio);
      } else {
        n := KnomialTree.GetChildren(children, x, size, t.ratio);
      }
      assert children[..n] == Wrapped(CandidatesOf(t, x), size);
      RotateAll(children, n, size, root);
      assert children[..n] == children[..];
    }
    ok := true;
  }

  method FlatChildren(size: nat, root: nat, children: array<nat>)
    requires root < size && children.Length == |Others(size, root)|
    modifies children
    ensures children[..] == Others(size, root)
  {
    var j := 0;
    OthersExact(size, root);
    for i := 0 to size
      invariant j == |Others(i, root)| <= children.Length
      invariant children[..j] == Others(i, root)
    {
      OthersExact(i, root);
      OthersExact(i + 1, root);
      if root != i {
        children[j] := i;
        j := j + 1;
      }
    }
    assert children[..j] == children[..];
  }

  /**
   crt_flat_get_parent, crt_kary_get_parent, crt_knomial_get_parent; -1 stands for -DER_INVAL at
   the root.  The source asserts the last precondition.
   */
  method Parent(t: Topology, size: nat, root: nat, self: nat) returns (parent: int)
    requires TopoValid(t) && root < size < U32 && self < size
    requires self != root && !t.Flat? ==> TreeRank(size, root, self) != 0
    ensures parent == if self == root then -1 else ParentListed(t, size, root, self)
  {
    if self == root {
      return -1;
    }
    match t
    case Flat => parent := root;
    case Kary(r) =>
      var p := KaryTree.GetParent(TreeRank(size, root, self), r);
      parent := GroupRank(size, root, p);
    case Knomial(r) =>
      var p := KnomialTree.GetParent(TreeRank(size, root, self), r);
      parent := GroupRank(size, root, p);
  }

  // ----- Spanning -----

  /** The broadcast a topology makes of a group: parents and child lists as the code computes them. */
  ghost function ShapeOf(t: Topology, size: nat, root: nat): (s: Shape)
    requires Proper(t) && root < size
    ensures |s.parent| == |s.order| == |s.lists| == size && s.root == root
    ensures forall g :: 0 <= g < size && g != root ==> s.parent[g] == GroupParent(t, size, root, g)
    ensures forall g :: 0 <= g < size ==> s.order[g] == ToTree(size, root, g)
    ensures forall g :: 0 <= g < size ==> s.lists[g] == ChildList(t, size, root, g)
  {
    Shape(root,
          seq(size, g requires 0 <= g < size => if g == root then root else GroupParent(t, size, root, g)),
          seq(size, g requires 0 <= g < size => ToTree(size, root, g)),
          seq(size, g requires 0 <= g < size => ChildList(t, size, root, g)))
  }

  lemma TopologyIsTree(t: Topology, size: nat, root: nat)
    requires Proper(t) && root < size
    ensures IsTree(ShapeOf(t, size, root))
  {
    hide ToTree, ToGroup, TreeParent, ChildList;
    var s := ShapeOf(t, size, root);
    forall g: nat | g < size && g != root
      ensures s.order[s.parent[g]] < s.order[g]
    {
      Rotation(size, root, g);
      Rotation(size, root, TreeParent(t, ToTree(size, root, g)));
    }
    forall p: nat | p < size
      ensures ListsChildren(s, p)
    {
      ChildListExact(t, size, root, p);
    }
  }

  /**
   For every topology, ratio, size and root, forwarding from the root along the child lists
   hands the message to every rank of the group exactly once.
   */
  lemma EveryRankOnce(t: Topology, size: nat, root: nat, g: nat)
    requires Proper(t) && root < size && g < size
    ensures IsTree(ShapeOf(t, size, root))
    ensures Count(Visit(ShapeOf(t, size, root), root), g) == 1
  {
    TopologyIsTree(t, size, root);
    BroadcastOnce(ShapeOf(t, size, root), g);
  }

  /**
   Repeatedly taking the parent leads from any rank to the root, in a k-nomial tree within
   as many steps as the tree rank has digits.
   */
  lemma {:induction false} KnomialPath(r: nat, size: nat, root: nat, g: nat)
    requires r >= 2 && root < size && g < size
    ensures IsTree(ShapeOf(Knomial(r), size, root))
    ensures |PathToRoot(ShapeOf(Knomial(r), size, root), g)| - 1
         == KnomialTree.Depth(ToTree(size, root, g), r) <= |KnomialTree.Digits(ToTree(size, root, g), r)|
    decreases ToTree(size, root, g)
  {
    hide ToTree, ToGroup, ChildList, KnomialTree.Digits;
    TopologyIsTree(Knomial(r), size, root);
    var x := ToTree(size, root, g);
    KnomialTree.DepthIsDigits(x, r);
    Rotation(size, root, g);
    if g != root {
      Rotation(size, root, KnomialParent(x, r));
      KnomialPath(r, size, root, GroupParent(Knomial(r), size, root, g));
    }
  }

  // ----- The filtered group -----

  datatype Option<T> = None | Some(value: T)

  /** Outcomes of crt_get_filtered_grp_rank_list before ranks are looked up. */
  datatype Filtered = OutOfGroup | Empty | Group(ranks: seq<nat>)

  /** The target group of a collective: members kept or left out by the filter list. */
  function FilterGroup(membs: seq<nat>, exclusive: bool, filter: Option<seq<nat>>): Filtered
    requires exclusive ==> filter.Some?
  {
    var all := Uniq(Sort(membs));
    if exclusive then
      var kept := RankList.Filtered(filter.value, all, false);
      if |kept| != |filter.value| then OutOfGroup else Group(kept)
    else if filter.Some? && |filter.value| > 0 then
      var kept := RankList.Filtered(filter.value, all, true);
      if |kept| == 0 then Empty else Group(kept)
    else Group(all)
  }

  /** What the caller of crt_get_filtered_grp_rank_list gets; NotFound is -DER_NONEXIST. */
  datatype Lookup = LookupOutOfGroup | LookupEmpty | NotFound | Found(ranks: seq<nat>, root: nat, self: nat)

  ghost function LookupIn(f: Filtered, root: nat, self: nat): Lookup {
    match f
    case OutOfGroup => LookupOutOfGroup
    case Empty => LookupEmpty
    case Group(ranks) =>
      if root in ranks && self in ranks then Found(ranks, IndexOf(ranks, root), IndexOf(ranks, self))
      else NotFound
  }

  /** crt_get_filtered_grp_rank_list */
  method GetFilteredRankList(membs: seq<nat>, exclusive: bool, filter: Option<seq<nat>>, root: nat, self: nat)
    returns (result: Lookup)
    requires exclusive ==> filter.Some?
    ensures result == LookupIn(FilterGroup(membs, exclusive, filter), root, self)
  {
    var ranks, nr := DupSortUniq(membs);
    if exclusive {
      nr := Filter(filter.value, ranks, nr, false);
      if nr != |filter.value| {
        return LookupOutOfGroup;
      }
    } else if filter.Some? && |filter.value| > 0 {
      nr := Filter(filter.value, ranks, nr, true);
      if nr == 0 {
        return LookupEmpty;
      }
    }
    var list := ranks[..nr];
    var rootIdx := IdxInList(list, root);
    if rootIdx < 0 {
      return NotFound;
    }
    var selfIdx := IdxInList(list, self);
    if selfIdx < 0 {
      return NotFound;
    }
    result := Found(list, rootIdx, selfIdx);
  }

  /**
   The target group of duplicate-free members is sorted and duplicate-free and holds exactly
   the members the filter keeps.
   */
  lemma FilterGroupSelects(membs: seq<nat>, exclusive: bool, filter: Option<seq<nat>>)
    requires Distinct(membs) && (exclusive ==> filter.Some?)
    requires FilterGroup(membs, exclusive, filter).Group?
    ensures
      var ranks := FilterGroup(membs, exclusive, filter).ranks;
      && Sorted(ranks) && Distinct(ranks)
      && forall x: nat :: x in ranks <==>
           x in membs && (filter.Some? && filter.value != [] ==> (x in filter.value) == exclusive)
  {
    SortedMembers(membs);
    var all := Uniq(Sort(membs));
    if filter.Some? {
      KeptSelects(filter.value, all, false);
      KeptSelects(filter.value, all, true);
    }
  }

  lemma SortedMembers(membs: seq<nat>)
    requires Distinct(membs)
    ensures Sorted(Uniq(Sort(membs))) && Distinct(Uniq(Sort(membs)))
    ensures forall x: nat :: x in Uniq(Sort(membs)) <==> x in membs
  {
    DupSortUniqIsSetIff(membs);
    DistinctIffCounts(membs);
    assert AtMost(membs, 1) ==> AtMost(membs, 2);
  }

  /**
   An exclusive collective, whose rank list went through d_rank_list_dup_sort_uniq, is accepted
   exactly when every listed rank is a member and none is listed more than twice.
   */
  lemma ExclusiveAcceptedIff(membs: seq<nat>, listed: seq<nat>)
    requires Distinct(membs) && listed != []
    ensures FilterGroup(membs, true, Some(Uniq(Sort(listed)))).Group?
       <==> AtMost(listed, 2) && forall x: nat :: x in listed ==> x in membs
  {
    var f: seq<nat> := Uniq(Sort(listed));
    var all: seq<nat> := Uniq(Sort(membs));
    DupSortUniqIsSetIff(listed);
    assert listed[0] in f;
    SortedMembers(membs);
    KeptCountIff(f, all);
  }

  /** Keeping the ranks of `all` that are in f keeps |f| of them iff f is a duplicate-free part of `all`. */
  lemma KeptCountIff(f: seq<nat>, all: seq<nat>)
    requires Distinct(all)
    ensures |Kept(f, all, false)| == |f| <==> Distinct(f) && forall x: nat :: x in f ==> x in all
  {
    var k := Kept(f, all, false);
    KeptSelects(f, all, false);
    MembersCount(k);
    MembersCount(f);
    assert Members(k) <= Members(f);
    if forall x: nat :: x in f ==> x in all {
      assert Members(k) == Members(f);
    }
    if |k| == |f| {
      SubsetSameSize(Members(k), Members(f));
      forall x: nat | x in f
        ensures x in all
      {
        assert x in Members(f);
      }
    }
  }

  lemma SubsetSameSize(a: set<nat>, b: set<nat>)
    requires a <= b && |a| >= |b|
    ensures a == b
  {
    if a != b {
      var x :| x in b && x !in a;
      assert a <= b - {x};
      SubsetSmaller(a, b - {x});
    }
  }

  lemma {:induction false} SubsetSmaller(a: set<nat>, b: set<nat>)
    requires a <= b
    ensures |a| <= |b|
  {
    assert b == a + (b - a);
  }

  /** The ranks of the children of `self` in the tree over the listed ranks. */
  ghost function ChildRanks(t: Topology, ranks: seq<nat>, root: nat, self: nat): (cs: seq<nat>)
    requires Proper(t) && root < |ranks| && self < |ranks|
    ensures |cs| == |ChildList(t, |ranks|, root, self)|
  {
    ChildListExact(t, |ranks|, root, self);
    var idx := ChildList(t, |ranks|, root, self);
    seq(|idx|, i requires 0 <= i < |idx| => assert idx[i] in idx; ranks[idx[i]])
  }

  /** The ranks that crt_tree_get_children hands out. */
  ghost function ListedRanks(t: Topology, ranks: seq<nat>, root: nat, self: nat): (cs: seq<nat>)
    requires Proper(t) && root < |ranks| && self < |ranks|
    ensures |cs| == |Listed(t, |ranks|, root, self)|
  {
    ListedInGroup(t, |ranks|, root, self);
    var idx := Listed(t, |ranks|, root, self);
    seq(|idx|, i requires 0 <= i < |idx| => ranks[idx[i]])
  }

  lemma FitsRanks(t: Topology, ranks: seq<nat>, root: nat, self: nat)
    requires Proper(t) && root < |ranks| && self < |ranks| && Fits(t, |ranks|)
    ensures ListedRanks(t, ranks, root, self) == ChildRanks(t, ranks, root, self)
  {
    hide Listed, ChildList;
    FitsListed(t, |ranks|, root, self);
  }

  /** Results of crt_tree_get_children; BadVersion is -DER_GRPVER, Failed carries the other errors. */
  datatype TreeChildren = BadVersion | Failed(why: Lookup) | Forward(ranks: seq<nat>)

  /** crt_tree_get_children */
  method GetChildren(membs: seq<nat>, membsVer: nat, grpVer: nat, exclusive: bool, filter: Option<seq<nat>>,
                     t: Topology, root: nat, self: nat)
    returns (result: TreeChildren)
    requires TopoValid(t) && |membs| < U32 && (exclusive ==> filter.Some?)
    ensures result.BadVersion? <==> grpVer != membsVer
    ensures grpVer == membsVer ==>
      var look := LookupIn(FilterGroup(membs, exclusive, filter), root, self);
      match look
      case LookupEmpty => result == Forward([])
      case Found(ranks, r, s) =>
        && r < |ranks| && s < |ranks| && result == Forward(ListedRanks(t, ranks, r, s))
        && (Fits(t, |ranks|) ==> result == Forward(ChildRanks(t, ranks, r, s)))
      case _ => result == Failed(look)
  {
    if grpVer != membsVer {
      return BadVersion;
    }
    var look := GetFilteredRankList(membs, exclusive, filter, root, self);
    match look
    case LookupEmpty => result := Forward([]);
    case LookupOutOfGroup => result := Failed(look);
    case NotFound => result := Failed(look);
    case Found(ranks, r, s) =>
      NoLarger(membs, exclusive, filter);
      var list := ListRanks(t, ranks, r, s);
      if Fits(t, |ranks|) {
        FitsRanks(t, ranks, r, s);
      }
      result := Forward(list);
  }

  /** The children of a node as positions in the filtered group, and then as ranks. */
  method ListRanks(t: Topology, ranks: seq<nat>, r: nat, s: nat) returns (list: seq<nat>)
    requires TopoValid(t) && r < |ranks| < U32 && s < |ranks|
    ensures list == ListedRanks(t, ranks, r, s)
  {
    hide Listed, ChildList;
    var n := ChildrenCount(t, |ranks|, r, s);
    if n == 0 {
      return [];
    }
    FlatLeaf(|ranks|, r, s);
    ListedInGroup(t, |ranks|, r, s);
    var tree := new nat[n];
    var _ := Children(t, |ranks|, r, s, tree);
    var out := new nat[n];
    for i := 0 to n
      invariant tree[..] == Listed(t, |ranks|, r, s)
      invariant forall k :: 0 <= k < i ==> out[k] == ListedRanks(t, ranks, r, s)[k]
    {
      assert tree[..][i] < |ranks|;
      out[i] := ranks[tree[i]];
    }
    list := out[..];
  }

  lemma FlatLeaf(size: nat, root: nat, self: nat)
    requires root < size && self < size
    ensures self != root ==> Listed(Flat, size, root, self) == []
  {
  }

  /** The filtered group is no larger than the group. */
  lemma NoLarger(membs: seq<nat>, exclusive: bool, filter: Option<seq<nat>>)
    requires (exclusive ==> filter.Some?) && FilterGroup(membs, exclusive, filter).Group?
    ensures |FilterGroup(membs, exclusive, filter).ranks| <= |membs|
  {
    UniqLength(Sort(membs));
    if filter.Some? {
      KeptLength(filter.value, Uniq(Sort(membs)), false);
      KeptLength(filter.value, Uniq(Sort(membs)), true);
    }
  }
}
