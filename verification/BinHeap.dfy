/** The binary heap of src/gurt/heap.c over its chunked slots, operation by operation. */
module BinHeap {
  import opened HeapOrder
  import Chunks = ChunkStore

  const POISON: nat := 0xdead_beef

  ghost function NodesOf(v: seq<Entry>): set<HeapNode> {
    set i | 0 <= i < |v| :: v[i].node
  }

  lemma SwapNodes(v: seq<Entry>, i: nat, j: nat)
    requires i < |v| && j < |v|
    ensures NodesOf(Swap(v, i, j)) == NodesOf(v)
  {
    var u := Swap(v, i, j);
    forall x | x in NodesOf(v) ensures x in NodesOf(u) {
      var k :| 0 <= k < |v| && v[k].node == x;
      assert u[if k == i then j else if k == j then i else k].node == x;
    }
  }

  lemma AppendSet(v: seq<Entry>, e: Entry)
    ensures NodesOf(v + [e]) == NodesOf(v) + {e.node}
  {
    var u := v + [e];
    forall x | x in NodesOf(v) + {e.node} ensures x in NodesOf(u) {
      if x in NodesOf(v) {
        var k :| 0 <= k < |v| && v[k].node == x;
        assert u[k].node == x;
      } else {
        assert u[|v|].node == x;
      }
    }
  }

  lemma FilledSet(v: seq<Entry>, i: nat)
    requires Apart(v) && i < |v|
    ensures NodesOf(Filled(v, i)) == NodesOf(v) - {v[i].node}
  {
    var u, n := Filled(v, i), |v| - 1;
    forall x | x in NodesOf(v) && x != v[i].node ensures x in NodesOf(u) {
      var k :| 0 <= k < |v| && v[k].node == x;
      assert u[if k == n then i else k].node == x;
    }
  }

  class BinHeap {
    const store: Chunks.ChunkStore
    const ties: Ties
    var count: nat
    ghost var entries: seq<Entry>

    constructor (t: Ties)
      ensures Valid() && entries == [] && ties == t && fresh(store) && fresh(store.Repr)
    {
      store := new Chunks.ChunkStore();
      ties := t;
      count := 0;
      entries := [];
    }

    /** Slot i holds the node of entry i, whose chn_idx is i, for every i but the hole. */
    ghost predicate Holds(v: seq<Entry>, hole: int)
      reads this, store, NodesOf(v)`idx, NodesOf(v)`key
    {
      && |v| == count <= store.hwm == |store.slots|
      && (forall i :: 0 <= i < |v| ==> v[i].node.key == v[i].key)
      && forall i :: 0 <= i < |v| && i != hole ==> store.slots[i] == v[i].node && v[i].node.idx == i
    }

    /** The store and the entries do not share memory with each other. */
    ghost predicate Separate()
      reads this, store
    {
      && store in store.Repr && this !in store.Repr
      && NodesOf(entries) !! store.Repr
    }

    ghost predicate Placed()
      reads this, store, store.Repr, NodesOf(entries)`idx, NodesOf(entries)`key
    {
      Separate() && store.Valid() && Holds(entries, -1)
    }

    ghost predicate Valid()
      reads this, store, store.Repr, NodesOf(entries)`idx, NodesOf(entries)`key
    {
      Placed() && Ordered(entries)
    }

    /** Every node is in one slot only. */
    lemma PlacedApart()
      requires Placed()
      ensures Apart(entries)
    {
    }

    /** The node of slot c moves into the hole, and slot c becomes the hole. */
    method MoveInto(ghost v: seq<Entry>, cur: nat, c: nat, node: HeapNode)
      requires Separate() && store.Valid() && Holds(v, cur) && cur < |v| && c < |v| && c != cur
      requires node == v[c].node != v[cur].node
      requires NodesOf(v) !! store.Repr
      modifies node`idx, store.Repr
      ensures store.Valid() && store.Repr == old(store.Repr) && store.hwm == old(store.hwm)
      ensures Holds(Swap(v, cur, c), c) && node.idx == cur
    {
      hide Chunks.ChunkStore.Valid;
      node.idx := cur;
      store.Set(cur, node);
    }

    /** The node out of place is put into the hole. */
    method Settle(ghost v: seq<Entry>, cur: nat, e: HeapNode)
      requires Separate() && store.Valid() && Holds(v, cur) && cur < |v| && v[cur].node == e
      requires NodesOf(v) !! store.Repr && forall i :: 0 <= i < |v| && i != cur ==> v[i].node != e
      modifies `entries, e`idx, store.Repr
      ensures Placed() && entries == v && store.Repr == old(store.Repr) && store.hwm == old(store.hwm)
    {
      hide Chunks.ChunkStore.Valid;
      e.idx := cur;
      store.Set(cur, e);
      entries := v;
    }

    /** d_binheap_bubble. */
    method Bubble(e: HeapNode) returns (moved: bool)
      requires Placed() && e.idx < count && entries[e.idx].node == e
      modifies `entries, store.Repr, NodesOf(entries)`idx
      ensures Placed() && store.Repr == old(store.Repr) && store.hwm == old(store.hwm)
      ensures entries == Up(ties, old(entries), old(e.idx)).nodes
      ensures moved <==> Up(ties, old(entries), old(e.idx)).at != old(e.idx)
      ensures NodesOf(entries) == old(NodesOf(entries))
    {
      hide Up, Chunks.ChunkStore.Valid;
      var cur: nat := e.idx;
      ghost var v := entries;
      moved := false;
      while cur > 0
        invariant cur < |v| && v[cur].node == e && Holds(v, cur)
        invariant Separate() && store.Valid() && store.Repr == old(store.Repr) && store.hwm == old(store.hwm)
        invariant entries == old(entries) && NodesOf(v) == NodesOf(entries)
        invariant forall i :: 0 <= i < |v| && i != cur ==> v[i].node != e
        invariant Up(ties, v, cur) == Up(ties, entries, old(e.idx))
        invariant moved <==> cur != old(e.idx)
        invariant cur <= old(e.idx)
      {
        var p := (cur - 1) / 2;
        UpAt(ties, v, cur);
        var parent := store.Get(p);
        if Before(ties, Entry(parent, parent.key), Entry(e, e.key)) { break; }
        MoveInto(v, cur, p, parent);
        SwapNodes(v, cur, p);
        v := Swap(v, cur, p);
        cur := p;
        moved := true;
      }
      UpAt(ties, v, cur);
      Settle(v, cur, e);
    }

    /** The choice between two children in d_binheap_sink. */
    method LesserChild(cur: nat, ghost v: seq<Entry>) returns (c: nat, child: HeapNode)
      requires store.Valid() && Holds(v, cur) && 2 * cur + 1 < count
      ensures c == Child(ties, v, cur) && child == v[c].node
    {
      c := 2 * cur + 1;
      child := store.Get(c);
      if c + 1 < count {
        var child2 := store.Get(c + 1);
        if Before(ties, Entry(child2, child2.key), Entry(child, child.key)) {
          c, child := c + 1, child2;
        }
      }
    }

    /** d_binheap_sink. */
    method Sink(e: HeapNode)
      requires Placed() && e.idx < count && entries[e.idx].node == e
      modifies `entries, store.Repr, NodesOf(entries)`idx
      ensures Placed() && store.Repr == old(store.Repr) && store.hwm == old(store.hwm)
      ensures entries == Down(ties, old(entries), old(e.idx)).nodes
      ensures NodesOf(entries) == old(NodesOf(entries))
    {
      hide Down, Chunks.ChunkStore.Valid;
      var n := count;
      var cur: nat := e.idx;
      ghost var v := entries;
      while 2 * cur + 1 < n
        invariant cur < |v| && v[cur].node == e && Holds(v, cur)
        invariant Separate() && store.Valid() && store.Repr == old(store.Repr) && store.hwm == old(store.hwm)
        invariant entries == old(entries) && NodesOf(v) == NodesOf(entries)
        invariant forall i :: 0 <= i < |v| && i != cur ==> v[i].node != e
        invariant Down(ties, v, cur) == Down(ties, entries, old(e.idx))
        decreases n - cur
      {
        DownAt(ties, v, cur);
        var c, child := LesserChild(cur, v);
        if Before(ties, Entry(e, e.key), Entry(child, child.key)) { break; }
        MoveInto(v, cur, c, child);
        SwapNodes(v, cur, c);
        v := Swap(v, cur, c);
        cur := c;
      }
      DownAt(ties, v, cur);
      Settle(v, cur, e);
    }

    /** Room for one more node, if there can be. */
    method Reserve() returns (ok: bool)
      requires Valid()
      modifies store.Repr
      ensures Valid() && fresh(store.Repr - old(store.Repr))
      ensures ok <==> count < Chunks.SIZE * Chunks.MAX_CHUNKS
      ensures ok ==> count < store.hwm
    {
      CountFits();
      hide Chunks.ChunkStore.Valid, Ordered;
      ok := true;
      if count == store.hwm {
        ok := store.Grow();
      }
    }

    /** The new node goes into the first free slot. */
    method PutLast(e: HeapNode)
      requires Placed() && e !in NodesOf(entries) && e !in store.Repr && count < store.hwm
      modifies `count, `entries, store.Repr, e`idx
      ensures Placed() && store.Repr == old(store.Repr)
      ensures entries == old(entries) + [Entry(e, e.key)] && e.idx == old(count) < count && entries[e.idx].node == e
      ensures NodesOf(entries) == old(NodesOf(entries)) + {e}
    {
      hide Chunks.ChunkStore.Valid;
      e.idx := count;
      store.Set(count, e);
      count := count + 1;
      AppendSet(entries, Entry(e, e.key));
      entries := entries + [Entry(e, e.key)];
    }

    lemma InsertOrderly(e: Entry)
      requires Valid() && e.node !in NodesOf(entries)
      ensures Ordered(Inserted(ties, entries, e))
    {
      PlacedApart();
      InsertOrders(ties, entries, e);
    }

    /** d_binheap_insert; it fails only when every slot of the tables is in use. */
    method Insert(e: HeapNode) returns (ok: bool)
      requires Valid() && e !in NodesOf(entries) && e !in store.Repr
      modifies this, store.Repr, NodesOf(entries)`idx, e`idx
      ensures Valid() && fresh(store.Repr - old(store.Repr))
      ensures ok <==> old(count) < Chunks.SIZE * Chunks.MAX_CHUNKS
      ensures entries == if ok then Inserted(ties, old(entries), Entry(e, e.key)) else old(entries)
      ensures NodesOf(entries) == old(NodesOf(entries)) + if ok then {e} else {}
    {
      InsertOrderly(Entry(e, e.key));
      hide Chunks.ChunkStore.Valid, Ordered, Up, Holds, NodesOf;
      ok := Reserve();
      if ok {
        PutLast(e);
        var _ := Bubble(e);
      }
    }

    lemma CountFits()
      requires Valid()
      ensures store.hwm <= Chunks.SIZE * Chunks.MAX_CHUNKS
    {
    }

    /** d_binheap_find. */
    method Find(idx: nat) returns (node: HeapNode?)
      requires Valid()
      ensures node == if idx < |entries| then entries[idx].node else null
    {
      if idx >= count { return null; }
      node := store.Get(idx);
    }

    /** The last node takes over the slot of e. */
    method FillGap(e: HeapNode) returns (last: HeapNode)
      requires Placed() && e.idx < count && entries[e.idx].node == e
      modifies `count, `entries, store.Repr, NodesOf(entries)`idx
      ensures Placed() && store.Repr == old(store.Repr) && count == old(count) - 1
      ensures entries == Filled(old(entries), old(e.idx)) && last == old(entries)[|old(entries)| - 1].node
      ensures last != e ==> last.idx == old(e.idx) < count
      ensures NodesOf(entries) == old(NodesOf(entries)) - {e}
    {
      PlacedApart();
      FilledSet(entries, e.idx);
      hide Chunks.ChunkStore.Valid, Apart;
      var cur := e.idx;
      var n := count - 1;
      last := store.Get(n);
      count := n;
      entries := Filled(entries, cur);
      if last != e {
        last.idx := cur;
        store.Set(cur, last);
      }
    }

    /** The node that took over a slot finds its place. */
    method Reorder(e: HeapNode)
      requires Placed() && e.idx < count && entries[e.idx].node == e
      modifies `entries, store.Repr, NodesOf(entries)`idx
      ensures Placed() && store.Repr == old(store.Repr)
      ensures entries == Reordered(ties, old(entries), old(e.idx))
      ensures NodesOf(entries) == old(NodesOf(entries))
    {
      UpStays(ties, entries, e.idx);
      hide Chunks.ChunkStore.Valid, Up, Down, Holds;
      var moved := Bubble(e);
      if !moved {
        assert e.idx == old(e.idx) by { IndexIsSlot(e); SlotOfOne(e, old(e.idx)); }
        Sink(e);
      }
    }

    lemma SlotOfOne(e: HeapNode, i: nat)
      requires Placed() && i < |entries| && entries[i].node == e
      ensures e.idx == i
    {
    }

    /** d_binheap_remove_locked. */
    method Remove(e: HeapNode)
      requires Valid() && e in NodesOf(entries)
      modifies this, store.Repr, NodesOf(entries)`idx
      ensures Valid() && store.Repr == old(store.Repr) && count == old(count) - 1
      ensures old(e.idx) < |old(entries)| && old(entries)[old(e.idx)].node == e
      ensures entries == Removed(ties, old(entries), old(e.idx)) && e.idx == POISON
      ensures NodesOf(entries) == old(NodesOf(entries)) - {e}
    {
      PlacedApart();
      RemoveOrders(ties, entries, e.idx);
      hide Chunks.ChunkStore.Valid, Ordered, Reordered, Apart;
      var last := FillGap(e);
      if last != e {
        Reorder(last);
      }
      e.idx := POISON;
    }

    lemma IndexIsSlot(e: HeapNode)
      requires Placed() && e in NodesOf(entries)
      ensures e.idx < count == |entries| && entries[e.idx].node == e
    {
    }

    /** d_binheap_remove_root: the node with the least key. */
    method RemoveRoot() returns (e: HeapNode?)
      requires Valid()
      modifies this, store.Repr, NodesOf(entries)`idx
      ensures Valid() && store.Repr == old(store.Repr)
      ensures e == null <==> old(entries) == []
      ensures e == null ==> entries == old(entries)
      ensures e != null ==> entries == Removed(ties, old(entries), 0) && e == old(entries)[0].node
      ensures e != null ==> NodesOf(entries) == old(NodesOf(entries)) - {e}
      ensures e != null ==> forall x <- old(entries) :: e.key <= x.key
    {
      e := Find(0);
      if e != null {
        forall i | 0 <= i < |entries| ensures e.key <= entries[i].key {
          RootLeast(entries, i);
        }
        Remove(e);
      }
    }
  }

  lemma UpAt(ties: Ties, v: seq<Entry>, i: nat)
    requires i < |v|
    ensures Up(ties, v, i) == if i == 0 || Before(ties, v[Parent(i)], v[i]) then Moved(v, i)
                              else Up(ties, Swap(v, i, Parent(i)), Parent(i))
  {
  }

  lemma DownAt(ties: Ties, v: seq<Entry>, i: nat)
    requires i < |v|
    ensures Down(ties, v, i) ==
            if 2 * i + 1 >= |v| || Before(ties, v[i], v[Child(ties, v, i)]) then Moved(v, i)
            else Down(ties, Swap(v, i, Child(ties, v, i)), Child(ties, v, i))
  {
  }
}
