/**
 The tree order behind src/gurt/heap.c, on sequences of nodes: what bubbling up and sinking down
 do to a heap in which one node is out of place.
 */
module HeapOrder {
  /**
   An intrusive node: chn_idx, and of the RPC it is embedded in crp_timeout_ts, which hop_compare
   looks at, and crp_in_binheap.
   */
  class HeapNode {
    var key: int
    var idx: nat
    var inHeap: bool
  }

  /** A node together with its key at that moment. */
  datatype Entry = Entry(node: HeapNode, key: int)

  /** How hop_compare resolves equal keys, which its contract leaves open. */
  type Ties = (HeapNode, HeapNode) -> bool

  predicate Before(ties: Ties, a: Entry, b: Entry) {
    a.key < b.key || (a.key == b.key && ties(a.node, b.node))
  }

  function Parent(i: nat): nat
    requires i > 0
  {
    (i - 1) / 2
  }

  lemma ParentIs(i: nat, p: nat)
    requires i > 0
    ensures Parent(i) == p <==> i == 2 * p + 1 || i == 2 * p + 2
    ensures Parent(i) < i
  {
  }

  /** The edge from i to its parent is in order. */
  predicate Edge(v: seq<Entry>, i: nat)
    requires 0 < i < |v|
  {
    v[Parent(i)].key <= v[i].key
  }

  ghost predicate Ordered(v: seq<Entry>) {
    forall i: nat :: 0 < i < |v| ==> Edge(v, i)
  }

  /** Every edge is in order except possibly the one above i. */
  ghost predicate OrderedBelow(v: seq<Entry>, i: nat) {
    forall j: nat :: 0 < j < |v| && j != i ==> Edge(v, j)
  }

  /** Every edge is in order except possibly those below i. */
  ghost predicate OrderedAbove(v: seq<Entry>, i: nat) {
    forall j: nat :: 0 < j < |v| && Parent(j) != i ==> Edge(v, j)
  }

  /** The children of i would be in order below i's parent. */
  ghost predicate Bridged(v: seq<Entry>, i: nat)
    requires i < |v|
  {
    i > 0 ==> forall j: nat :: 0 < j < |v| && Parent(j) == i ==> v[Parent(i)].key <= v[j].key
  }

  function Swap(v: seq<Entry>, i: nat, j: nat): seq<Entry>
    requires i < |v| && j < |v|
  {
    v[i := v[j]][j := v[i]]
  }

  ghost predicate Apart(v: seq<Entry>) {
    forall i, j :: 0 <= i < j < |v| ==> v[i].node != v[j].node
  }

  ghost predicate SameNodes(v: seq<Entry>, u: seq<Entry>) {
    |v| == |u| && (Apart(v) ==> Apart(u)) && (forall e <- v :: e in u) && (forall e <- u :: e in v)
  }

  lemma SwapSame(v: seq<Entry>, i: nat, j: nat)
    requires i < |v| && j < |v|
    ensures SameNodes(v, Swap(v, i, j))
  {
    var u := Swap(v, i, j);
    forall e: Entry ensures e in v <==> e in u {
      if e in v {
        var k :| 0 <= k < |v| && v[k] == e;
        assert u[if k == i then j else if k == j then i else k] == e;
      }
    }
  }

  // ---- bubbling up ----

  datatype Moved = Moved(nodes: seq<Entry>, at: nat)

  /** Where d_binheap_bubble leaves the nodes and the node that started at i. */
  function Up(ties: Ties, v: seq<Entry>, i: nat): (r: Moved)
    requires i < |v|
    ensures |r.nodes| == |v| && r.at <= i && r.nodes[r.at] == v[i]
    decreases i
  {
    if i == 0 || Before(ties, v[Parent(i)], v[i]) then Moved(v, i)
    else Up(ties, Swap(v, i, Parent(i)), Parent(i))
  }

  lemma SwapUp(v: seq<Entry>, i: nat)
    requires 0 < i < |v| && OrderedBelow(v, i) && Bridged(v, i) && v[i].key <= v[Parent(i)].key
    ensures OrderedBelow(Swap(v, i, Parent(i)), Parent(i)) && Bridged(Swap(v, i, Parent(i)), Parent(i))
  {
    var p := Parent(i);
    var u := Swap(v, i, p);
    ParentIs(i, p);
    forall j: nat | 0 < j < |u| && j != p ensures Edge(u, j) {
      ParentIs(j, p);
      ParentIs(j, i);
      if j != i {
        assert Edge(v, j);
      }
    }
    if p > 0 {
      ParentIs(p, Parent(p));
      assert Edge(v, p);
      forall j: nat | 0 < j < |u| && Parent(j) == p ensures u[Parent(p)].key <= u[j].key {
        ParentIs(j, p);
        if j != i {
          assert Edge(v, j);
        }
      }
    }
  }

  lemma {:induction false} UpOrders(ties: Ties, v: seq<Entry>, i: nat)
    requires i < |v| && OrderedBelow(v, i) && Bridged(v, i)
    ensures Ordered(Up(ties, v, i).nodes) && SameNodes(v, Up(ties, v, i).nodes)
    decreases i
  {
    if i == 0 || Before(ties, v[Parent(i)], v[i]) {
      forall j: nat | 0 < j < |v| ensures Edge(v, j) {
      }
    } else {
      ParentIs(i, Parent(i));
      SwapUp(v, i);
      SwapSame(v, i, Parent(i));
      hide OrderedBelow, Bridged, Ordered, SameNodes;
      UpOrders(ties, Swap(v, i, Parent(i)), Parent(i));
      SameTrans(v, Swap(v, i, Parent(i)), Up(ties, v, i).nodes);
    }
  }

  lemma SameTrans(v: seq<Entry>, u: seq<Entry>, w: seq<Entry>)
    requires SameNodes(v, u) && SameNodes(u, w)
    ensures SameNodes(v, w)
  {
  }

  // ---- sinking down ----

  /** The child d_binheap_sink compares with. */
  function Child(ties: Ties, v: seq<Entry>, i: nat): (c: nat)
    requires 2 * i + 1 < |v|
    ensures c < |v| && (c == 2 * i + 1 || c == 2 * i + 2) && i < c
  {
    if 2 * i + 2 < |v| && Before(ties, v[2 * i + 2], v[2 * i + 1]) then 2 * i + 2 else 2 * i + 1
  }

  function Down(ties: Ties, v: seq<Entry>, i: nat): (r: Moved)
    requires i < |v|
    ensures |r.nodes| == |v| && r.at < |v| && r.nodes[r.at] == v[i]
    decreases |v| - i
  {
    if 2 * i + 1 >= |v| then Moved(v, i)
    else
      var c := Child(ties, v, i);
      if Before(ties, v[i], v[c]) then Moved(v, i) else Down(ties, Swap(v, i, c), c)
  }

  /** c is a least child of i, and not above i. */
  ghost predicate LeastChild(v: seq<Entry>, i: nat, c: nat) {
    && i < c < |v| && Parent(c) == i && v[c].key <= v[i].key
    && forall j: nat :: 0 < j < |v| && Parent(j) == i ==> v[c].key <= v[j].key
  }

  lemma ChildLeast(ties: Ties, v: seq<Entry>, i: nat)
    requires 2 * i + 1 < |v| && v[Child(ties, v, i)].key <= v[i].key
    ensures LeastChild(v, i, Child(ties, v, i))
  {
    var c := Child(ties, v, i);
    ParentIs(c, i);
    forall j: nat | 0 < j < |v| && Parent(j) == i ensures v[c].key <= v[j].key {
      ParentIs(j, i);
    }
  }

  lemma SwapDownAbove(v: seq<Entry>, i: nat, c: nat)
    requires LeastChild(v, i, c) && OrderedAbove(v, i) && Bridged(v, i)
    ensures OrderedAbove(Swap(v, i, c), c)
  {
    var u := Swap(v, i, c);
    forall j: nat | 0 < j < |u| && Parent(j) != c ensures Edge(u, j) {
      ParentIs(j, Parent(j));
      if j == i {
        assert v[Parent(i)].key <= v[c].key;
      } else if Parent(j) != i {
        assert Edge(v, j);
      }
    }
  }

  lemma SwapDownBridged(v: seq<Entry>, i: nat, c: nat)
    requires LeastChild(v, i, c) && OrderedAbove(v, i)
    ensures Bridged(Swap(v, i, c), c)
  {
    var u := Swap(v, i, c);
    forall j: nat | 0 < j < |u| && Parent(j) == c ensures u[Parent(c)].key <= u[j].key {
      ParentIs(j, c);
      assert Edge(v, j);
    }
  }

  lemma {:induction false} DownOrders(ties: Ties, v: seq<Entry>, i: nat)
    requires i < |v| && OrderedAbove(v, i) && Bridged(v, i)
    ensures Ordered(Down(ties, v, i).nodes) && SameNodes(v, Down(ties, v, i).nodes)
    decreases |v| - i
  {
    if 2 * i + 1 >= |v| || Before(ties, v[i], v[Child(ties, v, i)]) {
      forall j: nat | 0 < j < |v| ensures Edge(v, j) {
        ParentIs(j, i);
      }
    } else {
      var c := Child(ties, v, i);
      ChildLeast(ties, v, i);
      SwapDownAbove(v, i, c);
      SwapDownBridged(v, i, c);
      SwapSame(v, i, c);
      hide OrderedAbove, Bridged, Ordered, SameNodes;
      DownOrders(ties, Swap(v, i, c), c);
      SameTrans(v, Swap(v, i, c), Down(ties, v, i).nodes);
    }
  }

  // ---- the root is least ----

  lemma {:induction false} RootLeast(v: seq<Entry>, i: nat)
    requires Ordered(v) && i < |v|
    ensures v[0].key <= v[i].key
    decreases i
  {
    if i > 0 {
      ParentIs(i, Parent(i));
      assert Edge(v, i);
      RootLeast(v, Parent(i));
    }
  }

  // ---- insertion and removal ----

  /** d_binheap_insert. */
  function Inserted(ties: Ties, v: seq<Entry>, e: Entry): seq<Entry> {
    Up(ties, v + [e], |v|).nodes
  }

  lemma InsertOrders(ties: Ties, v: seq<Entry>, e: Entry)
    requires Ordered(v) && Apart(v) && (forall x <- v :: x.node != e.node)
    ensures Ordered(Inserted(ties, v, e)) && Apart(Inserted(ties, v, e))
    ensures |Inserted(ties, v, e)| == |v| + 1
    ensures forall x: Entry :: x in Inserted(ties, v, e) <==> x in v || x == e
  {
    var u := v + [e];
    forall j: nat | 0 < j < |u| && j != |v| ensures Edge(u, j) {
      assert Edge(v, j);
    }
    forall j: nat | 0 < j < |u| ensures Parent(j) != |v| {
      ParentIs(j, |v|);
    }
    assert Apart(u);
    UpOrders(ties, u, |v|);
  }

  /** The last node takes the place of the removed one. */
  function Filled(v: seq<Entry>, i: nat): (u: seq<Entry>)
    requires i < |v|
    ensures |u| == |v| - 1
  {
    var n := |v| - 1;
    if i == n then v[..n] else v[..n][i := v[n]]
  }

  /** Bubble, and sink only if bubbling did not move the node. */
  function Reordered(ties: Ties, u: seq<Entry>, i: nat): seq<Entry>
    requires i < |u|
  {
    var up := Up(ties, u, i);
    if up.at != i then up.nodes else Down(ties, up.nodes, i).nodes
  }

  /** d_binheap_remove_locked: the last node takes over the slot and finds its place. */
  function Removed(ties: Ties, v: seq<Entry>, i: nat): seq<Entry>
    requires i < |v|
  {
    var u := Filled(v, i);
    if i == |u| then u else Reordered(ties, u, i)
  }

  lemma FilledEdges(v: seq<Entry>, i: nat)
    requires Ordered(v) && i < |v| - 1
    ensures Bridged(Filled(v, i), i)
    ensures forall j: nat :: 0 < j < |v| - 1 && j != i && Parent(j) != i ==> Edge(Filled(v, i), j)
  {
    var u := Filled(v, i);
    forall j: nat | 0 < j < |u| && j != i && Parent(j) != i ensures Edge(u, j) {
      ParentIs(j, Parent(j));
      assert Edge(v, j);
    }
    if i > 0 {
      ParentIs(i, Parent(i));
      forall j: nat | 0 < j < |u| && Parent(j) == i ensures u[Parent(i)].key <= u[j].key {
        ParentIs(j, i);
        assert Edge(v, j) && Edge(v, i);
      }
    }
  }

  lemma FilledNodes(v: seq<Entry>, i: nat)
    requires Apart(v) && i < |v|
    ensures Apart(Filled(v, i))
    ensures forall x: Entry :: x in Filled(v, i) <==> x in v && x != v[i]
  {
    var u, n := Filled(v, i), |v| - 1;
    forall x: Entry ensures x in u <==> x in v && x != v[i] {
      if x in v && x != v[i] {
        var k :| 0 <= k < |v| && v[k] == x;
        assert u[if k == n then i else k] == x;
      }
    }
  }

  lemma UpStays(ties: Ties, v: seq<Entry>, i: nat)
    requires i < |v|
    ensures Up(ties, v, i).at == i <==> i == 0 || Before(ties, v[Parent(i)], v[i])
    ensures Up(ties, v, i).at == i ==> Up(ties, v, i).nodes == v
  {
  }

  /**
   Removing any node keeps the order and exactly the other nodes.  Sinking is skipped when the
   node bubbled, also when it only changed places with equal keys.
   */
  lemma RemoveOrders(ties: Ties, v: seq<Entry>, i: nat)
    requires Ordered(v) && Apart(v) && i < |v|
    ensures Ordered(Removed(ties, v, i)) && Apart(Removed(ties, v, i))
    ensures |Removed(ties, v, i)| == |v| - 1
    ensures forall x: Entry :: x in Removed(ties, v, i) <==> x in v && x != v[i]
  {
    var u := Filled(v, i);
    FilledNodes(v, i);
    if i == |u| {
      forall j: nat | 0 < j < |u| ensures Edge(u, j) {
        assert Edge(v, j);
      }
    } else {
      FilledEdges(v, i);
      UpStays(ties, u, i);
      if i > 0 && !Before(ties, u[Parent(i)], u[i]) {
        assert OrderedBelow(u, i) by {
          forall j: nat | 0 < j < |u| && j != i ensures Edge(u, j) {
          }
        }
        hide Up, Down, Apart;
        UpOrders(ties, u, i);
      } else {
        assert OrderedAbove(u, i);
        hide Up, Down, Apart;
        DownOrders(ties, u, i);
      }
    }
  }
}
