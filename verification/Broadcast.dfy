/**
 Forwarding along child lists.  A shape gives every node a parent and the list of nodes it
 forwards to; when the lists are exactly the inverse of the parents, a broadcast that
 starts at the root reaches every node exactly once, whatever the order of the lists.
 */
module Broadcast {
  import opened RankList

  /** Nodes are 0 to |parent| - 1; `order` grows from parent to child. */
  datatype Shape = Shape(root: nat, parent: seq<nat>, order: seq<nat>, lists: seq<seq<nat>>)

  predicate IsNode(s: Shape, g: nat) {
    g < |s.parent|
  }

  ghost predicate IsTree(s: Shape) {
    && |s.order| == |s.lists| == |s.parent| && IsNode(s, s.root)
    && (forall g: nat :: IsNode(s, g) && g != s.root ==>
          IsNode(s, s.parent[g]) && s.order[s.parent[g]] < s.order[g])
    && (forall p: nat :: IsNode(s, p) ==> ListsChildren(s, p))
  }

  /** The nodes listed for p are those whose parent is p, each once. */
  ghost predicate ListsChildren(s: Shape, p: nat)
    requires p < |s.lists|
  {
    Distinct(s.lists[p]) && forall c: nat :: c in s.lists[p] <==> IsChild(s, p, c)
  }

  predicate IsChild(s: Shape, p: nat, c: nat) {
    IsNode(s, c) && c != s.root && s.parent[c] == p
  }

  /** The nodes that get the message when g forwards it, in the order of forwarding. */
  ghost function Visit(s: Shape, g: nat): seq<nat>
    requires IsTree(s) && IsNode(s, g)
    decreases Height(s, g), 1, 0
  {
    assert ListsChildren(s, g);
    [g] + VisitAll(s, g, s.lists[g])
  }

  ghost function VisitAll(s: Shape, g: nat, cs: seq<nat>): seq<nat>
    requires IsTree(s) && IsNode(s, g)
    requires forall c :: c in cs ==> IsChild(s, g, c)
    decreases Height(s, g), 0, |cs|
  {
    if cs == [] then []
    else
      assert cs[0] in cs;
      HeightFalls(s, cs[0]);
      Visit(s, cs[0]) + VisitAll(s, g, cs[1..])
  }

  ghost function MaxOrder(order: seq<nat>): (m: nat)
    ensures forall i :: 0 <= i < |order| ==> order[i] <= m
  {
    if order == [] then 0
    else
      var m := MaxOrder(order[1..]);
      assert forall i :: 0 < i < |order| ==> order[i] == order[1..][i - 1];
      if m < order[0] then order[0] else m
  }

  ghost function Height(s: Shape, g: nat): nat
    requires IsTree(s) && IsNode(s, g)
  {
    MaxOrder(s.order) - s.order[g]
  }

  lemma HeightFalls(s: Shape, c: nat)
    requires IsTree(s) && IsNode(s, c) && c != s.root
    ensures IsNode(s, s.parent[c]) && Height(s, c) < Height(s, s.parent[c])
  {
  }

  /** g is x or an ancestor of x. */
  ghost predicate Above(s: Shape, g: nat, x: nat)
    requires IsTree(s) && IsNode(s, x)
    decreases s.order[x]
  {
    x == g || (x != s.root && Above(s, g, s.parent[x]))
  }

  lemma {:induction false} AboveOrder(s: Shape, g: nat, x: nat)
    requires IsTree(s) && IsNode(s, g) && IsNode(s, x) && Above(s, g, x)
    ensures s.order[g] <= s.order[x]
    decreases s.order[x]
  {
    if x != g {
      AboveOrder(s, g, s.parent[x]);
    }
  }

  /** The child of g on the way down to x. */
  ghost function Hop(s: Shape, g: nat, x: nat): (c: nat)
    requires IsTree(s) && IsNode(s, x) && x != g && Above(s, g, x)
    ensures IsChild(s, g, c)
    decreases s.order[x]
  {
    if s.parent[x] == g then x else Hop(s, g, s.parent[x])
  }

  /** Exactly one child of g is above a given node below g. */
  lemma {:induction false} HopUnique(s: Shape, g: nat, x: nat, c: nat)
    requires IsTree(s) && IsNode(s, g) && IsNode(s, x) && IsChild(s, g, c)
    ensures Above(s, c, x) <==> x != g && Above(s, g, x) && Hop(s, g, x) == c
    decreases s.order[x]
  {
    if x == c {
      assert Above(s, g, g);
    } else if x != s.root {
      HopUnique(s, g, s.parent[x], c);
      if x == g && Above(s, g, s.parent[x]) {
        AboveOrder(s, g, s.parent[x]);
      }
    }
  }

  lemma {:induction false} CountConcat(a: seq<nat>, b: seq<nat>, x: nat)
    ensures Count(a + b, x) == Count(a, x) + Count(b, x)
  {
    if a == [] {
      assert a + b == b;
    } else {
      CountConcat(a[1..], b, x);
      assert (a + b)[1..] == a[1..] + b;
    }
  }

  lemma {:induction false} VisitCount(s: Shape, g: nat, x: nat)
    requires IsTree(s) && IsNode(s, g) && IsNode(s, x)
    ensures Count(Visit(s, g), x) == if Above(s, g, x) then 1 else 0
    decreases Height(s, g), 1, 0
  {
    hide Count, Above, Hop;
    assert ListsChildren(s, g);
    VisitAllCount(s, g, s.lists[g], x);
    CountCons(g, VisitAll(s, g, s.lists[g]), x);
    AboveSelf(s, g);
  }

  lemma AboveSelf(s: Shape, g: nat)
    requires IsTree(s) && IsNode(s, g)
    ensures Above(s, g, g)
  {
  }

  lemma {:induction false} VisitAllCount(s: Shape, g: nat, cs: seq<nat>, x: nat)
    requires IsTree(s) && IsNode(s, g) && IsNode(s, x)
    requires Distinct(cs) && forall c :: c in cs ==> IsChild(s, g, c)
    ensures Count(VisitAll(s, g, cs), x)
         == if x != g && Above(s, g, x) && Hop(s, g, x) in cs then 1 else 0
    decreases Height(s, g), 0, |cs|
  {
    hide Above, Hop;
    if cs == [] {
      assert VisitAll(s, g, cs) == [];
    } else {
      assert cs[0] in cs;
      HeightFalls(s, cs[0]);
      VisitCount(s, cs[0], x);
      VisitAllCount(s, g, cs[1..], x);
      CountConcat(Visit(s, cs[0]), VisitAll(s, g, cs[1..]), x);
      HopUnique(s, g, x, cs[0]);
      assert cs[0] !in cs[1..];
    }
  }

  lemma {:induction false} RootAbove(s: Shape, x: nat)
    requires IsTree(s) && IsNode(s, x)
    ensures Above(s, s.root, x)
    decreases s.order[x]
  {
    if x != s.root {
      RootAbove(s, s.parent[x]);
    }
  }

  /** A broadcast from the root reaches every node exactly once. */
  lemma BroadcastOnce(s: Shape, x: nat)
    requires IsTree(s) && IsNode(s, x)
    ensures Count(Visit(s, s.root), x) == 1
  {
    RootAbove(s, x);
    VisitCount(s, s.root, x);
  }

  /** Taking parents from any node reaches the root. */
  ghost function PathToRoot(s: Shape, x: nat): (path: seq<nat>)
    requires IsTree(s) && IsNode(s, x)
    ensures path != [] && path[0] == x && path[|path| - 1] == s.root
    ensures forall i :: 0 <= i < |path| - 1 ==> IsChild(s, path[i + 1], path[i])
    decreases s.order[x]
  {
    if x == s.root then [x] else [x] + PathToRoot(s, s.parent[x])
  }
}
