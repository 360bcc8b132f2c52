/**
 The slot store of src/gurt/heap.c: chunks of 512 pointers behind single, double and triple
 indirection, proved to be one flat, growing array.
 */
module ChunkStore {
  import opened HeapOrder

  const SIZE: nat := 512
  const MAX_CHUNKS: nat := 1 + SIZE + SIZE * SIZE

  lemma DivApart(a: nat, b: nat)
    ensures a != b ==> a / SIZE != b / SIZE || a % SIZE != b % SIZE
  {
  }

  // ---- where an index is stored ----

  /** The slot d_binheap_pointer computes. */
  datatype Place = One(i: nat) | Two(i: nat, j: nat) | Three(i: nat, j: nat, k: nat)

  function PlaceOf(idx: nat): Place {
    if idx < SIZE then One(idx)
    else
      var i := idx - SIZE;
      if i < SIZE * SIZE then Two(i / SIZE, i % SIZE)
      else
        var d := i - SIZE * SIZE;
        Three(d / (SIZE * SIZE), d / SIZE % SIZE, d % SIZE)
  }

  lemma DivTwice(d: nat)
    ensures d / (SIZE * SIZE) == d / SIZE / SIZE
  {
  }

  /** The place of an index, by the number of its chunk. */
  lemma PlaceInChunk(idx: nat)
    ensures
      var c, j := idx / SIZE, idx % SIZE;
      PlaceOf(idx) ==
        if c == 0 then One(j)
        else if c <= SIZE then Two(c - 1, j)
        else Three((c - 1 - SIZE) / SIZE, (c - 1 - SIZE) % SIZE, j)
  {
    if idx >= SIZE + SIZE * SIZE {
      var d := idx - SIZE - SIZE * SIZE;
      assert d / SIZE == idx / SIZE - 1 - SIZE && d % SIZE == idx % SIZE;
      DivTwice(d);
    }
  }

  type Slot = HeapNode?
  type Chunk = array<Slot>
  type Table = array<array?<Slot>>

  class ChunkStore {
    var nodes1: array?<Slot>
    var nodes2: array?<array?<Slot>>
    var nodes3: array?<array?<array?<Slot>>>
    var hwm: nat
    ghost var chunks: seq<Chunk>
    ghost var tables: seq<Table>
    ghost var slots: seq<Slot>
    ghost var Repr: set<object>

    /** The chunks hold the flat sequence. */
    ghost predicate Flat()
      reads `hwm, `chunks, `slots, chunks
    {
      && hwm == |slots| == SIZE * |chunks|
      && (forall c :: 0 <= c < |chunks| ==> chunks[c].Length == SIZE)
      && forall c, j :: 0 <= c < |chunks| && 0 <= j < SIZE ==> chunks[c][j] == slots[SIZE * c + j]
    }

    /** The three levels of tables lead from chunk number c to this array. */
    ghost predicate LeadsTo(c: nat, chunk: Chunk)
      reads `nodes1, `nodes2, `nodes3, `tables, nodes2, nodes3, tables
    {
      if c == 0 then nodes1 == chunk
      else if c <= SIZE then nodes2 != null && nodes2.Length == SIZE && nodes2[c - 1] == chunk
      else
        var d := c - 1 - SIZE;
        && nodes3 != null && nodes3.Length == SIZE && d / SIZE < |tables| <= SIZE
        && nodes3[d / SIZE] == tables[d / SIZE]
        && tables[d / SIZE].Length == SIZE && tables[d / SIZE][d % SIZE] == chunk
    }

    /** The tables lead from this place to element j of this array. */
    ghost predicate LiesAt(p: Place, chunk: Chunk, j: nat)
      reads `nodes1, `nodes2, `nodes3, `tables, nodes2, nodes3, tables
    {
      match p
      case One(i) => nodes1 == chunk && i == j
      case Two(i, k) => nodes2 != null && i < nodes2.Length && nodes2[i] == chunk && k == j
      case Three(i, k, l) =>
        && nodes3 != null && i < nodes3.Length && i < |tables| && nodes3[i] == tables[i]
        && k < tables[i].Length && tables[i][k] == chunk && l == j
    }

    ghost predicate AllLead()
      reads `nodes1, `nodes2, `nodes3, `tables, `chunks, nodes2, nodes3, tables
    {
      forall c: nat :: c < |chunks| ==> LeadsTo(c, chunks[c])
    }

    /** With n chunks: all arrays belong to the store, and no two of them are the same. */
    ghost predicate Owned(n: nat)
      reads `nodes2, `nodes3, `tables, `chunks, `Repr
    {
      && this in Repr && n <= MAX_CHUNKS
      && |tables| == (if n <= 1 + SIZE then 0 else (n - 2) / SIZE)
      && (nodes2 != null ==> nodes2 in Repr) && (nodes3 != null ==> nodes3 in Repr)
      && nodes2 !in tables
      && (nodes3 != null ==> nodes3 as object? != nodes2)
      && (forall c, d :: 0 <= c < d < |chunks| ==> chunks[c] != chunks[d])
      && (forall t, u :: 0 <= t < u < |tables| ==> tables[t] != tables[u])
      && (forall t :: 0 <= t < |tables| ==> tables[t] in Repr && nodes3 as object? != tables[t])
      && (forall c :: 0 <= c < |chunks| ==>
            chunks[c] in Repr && nodes2 as object? != chunks[c] && nodes3 as object? != chunks[c])
      && (forall t, c :: 0 <= t < |tables| && 0 <= c < |chunks| ==> (tables[t] as object) != chunks[c] as object)
    }

    ghost predicate Valid()
      reads this, Repr
    {
      Owned(|chunks|) && Flat() && AllLead()
    }

    constructor ()
      ensures Valid() && fresh(Repr) && slots == []
    {
      nodes1, nodes2, nodes3, hwm := null, null, null, 0;
      chunks, tables, slots := [], [], [];
      Repr := {this};
    }

    /** At all times the tables lead from the computed place of an index to its element of the flat sequence. */
    lemma LiesThere(idx: nat)
      requires Valid() && idx < hwm
      ensures LiesAt(PlaceOf(idx), chunks[idx / SIZE], idx % SIZE)
      ensures chunks[idx / SIZE][idx % SIZE] == slots[idx]
    {
      assert chunks[idx / SIZE][idx % SIZE] == slots[SIZE * (idx / SIZE) + idx % SIZE];
      assert LeadsTo(idx / SIZE, chunks[idx / SIZE]);
      PlaceInChunk(idx);
      hide PlaceOf, Owned, Flat, AllLead;
    }

    /** The chunk d_binheap_pointer walks to. */
    method ChunkOf(idx: nat) returns (chunk: Chunk)
      requires Valid() && idx < hwm
      ensures chunk == chunks[idx / SIZE] && LiesAt(PlaceOf(idx), chunk, idx % SIZE)
    {
      LiesThere(idx);
      if idx < SIZE {
        return nodes1;
      }
      var i := idx - SIZE;
      if i < SIZE * SIZE {
        return nodes2[i / SIZE];
      }
      i := i - SIZE * SIZE;
      return nodes3[i / (SIZE * SIZE)][i / SIZE % SIZE];
    }

    method Get(idx: nat) returns (node: Slot)
      requires Valid() && idx < hwm
      ensures node == slots[idx]
    {
      var chunk := ChunkOf(idx);
      LiesThere(idx);
      node := chunk[idx % SIZE];
    }

    method Set(idx: nat, node: Slot)
      requires Valid() && idx < hwm
      modifies Repr
      ensures Valid() && Repr == old(Repr) && hwm == old(hwm)
      ensures slots == old(slots)[idx := node]
    {
      hide AllLead, LiesAt, PlaceOf;
      var chunk := ChunkOf(idx);
      chunk[idx % SIZE] := node;
      slots := slots[idx := node];
    }

    /** The end of d_binheap_grow: the tables lead to a new chunk, which now counts. */
    method Append(ghost chunk: Chunk)
      requires Owned(|chunks| + 1) && Flat() && AllLead() && LeadsTo(|chunks|, chunk)
      requires chunk !in Repr && chunk.Length == SIZE
      modifies `hwm, `chunks, `slots, `Repr
      ensures Valid() && Repr == old(Repr) + {chunk} && hwm == old(hwm) + SIZE
      ensures slots[..old(hwm)] == old(slots)
    {
      hide LeadsTo;
      ghost var n := |chunks|;
      hwm := hwm + SIZE;
      chunks, slots, Repr := chunks + [chunk], slots + chunk[..], Repr + {chunk};
      forall c: nat | c < |chunks| ensures LeadsTo(c, chunks[c]) {
        assert c < n ==> old(LeadsTo(c, chunks[c]));
      }
      forall c, j | 0 <= c < |chunks| && 0 <= j < SIZE ensures chunks[c][j] == slots[SIZE * c + j] {
        if c < n {
          assert old(chunks[c][j] == slots[SIZE * c + j]);
        }
      }
    }

    /** d_binheap_grow, first chunk. */
    method GrowFirst()
      requires Valid() && hwm == 0
      modifies Repr
      ensures Valid() && fresh(Repr - old(Repr)) && hwm == old(hwm) + SIZE
      ensures slots[..old(hwm)] == old(slots)
    {
      nodes1 := new Slot[SIZE];
      Append(nodes1);
    }

    /** d_binheap_grow while the double indirection has room. */
    method GrowSecond()
      requires Valid() && 0 < |chunks| <= SIZE
      modifies Repr
      ensures Valid() && fresh(Repr - old(Repr)) && hwm == old(hwm) + SIZE
      ensures slots[..old(hwm)] == old(slots)
    {
      var frag2 := new Slot[SIZE];
      if hwm == SIZE {
        nodes2 := new array?<Slot>[SIZE];
        Repr := Repr + {nodes2};
      } else {
        assert LeadsTo(1, chunks[1]);
      }
      nodes2[(hwm - SIZE) / SIZE] := frag2;
      Append(frag2);
    }

    /** First use of the triple indirection. */
    method NewTop()
      requires Valid() && |chunks| == 1 + SIZE
      modifies Repr
      ensures Valid() && fresh(Repr - old(Repr)) && old(Repr) <= Repr
      ensures hwm == old(hwm) && slots == old(slots) && chunks == old(chunks)
      ensures nodes3 != null && nodes3.Length == SIZE
    {
      hide Flat;
      nodes3 := new array?<array?<Slot>>[SIZE];
      Repr := Repr + {nodes3};
      forall c: nat | c < |chunks| ensures LeadsTo(c, chunks[c]) {
        assert old(LeadsTo(c, chunks[c]));
      }
    }

    /** A new second-level table for chunk d of the triple indirection, the first to need it. */
    method NewTable(d: nat) returns (frag1: Table)
      requires Valid() && |chunks| == 1 + SIZE + d && d < SIZE * SIZE && d % SIZE == 0
      requires nodes3 != null && nodes3.Length == SIZE
      modifies Repr
      ensures Owned(|chunks| + 1) && Flat() && AllLead()
      ensures fresh(Repr - old(Repr)) && old(Repr) <= Repr
      ensures hwm == old(hwm) && slots == old(slots) && chunks == old(chunks)
      ensures nodes3 != null && nodes3.Length == SIZE && d / SIZE < |tables| <= SIZE
      ensures nodes3[d / SIZE] == frag1 == tables[d / SIZE] && frag1.Length == SIZE
    {
      hide Flat;
      assert |tables| == d / SIZE;
      frag1 := new array?<Slot>[SIZE];
      nodes3[d / SIZE] := frag1;
      tables, Repr := tables + [frag1], Repr + {frag1};
      forall c: nat | c < |chunks| ensures LeadsTo(c, chunks[c]) {
        assert old(LeadsTo(c, chunks[c]));
      }
    }

    /** The second-level table for chunk d of the triple indirection. */
    method TableFor(d: nat) returns (frag1: Table)
      requires Valid() && |chunks| == 1 + SIZE + d && d < SIZE * SIZE
      modifies Repr
      ensures Owned(|chunks| + 1) && Flat() && AllLead()
      ensures fresh(Repr - old(Repr)) && old(Repr) <= Repr
      ensures hwm == old(hwm) && slots == old(slots) && chunks == old(chunks)
      ensures nodes3 != null && nodes3.Length == SIZE && d / SIZE < |tables| <= SIZE
      ensures nodes3[d / SIZE] == frag1 == tables[d / SIZE] && frag1.Length == SIZE
    {
      hide Flat;
      if d == 0 {
        NewTop();
      } else {
        assert LeadsTo(|chunks| - 1, chunks[|chunks| - 1]);
      }
      if d % SIZE == 0 {
        frag1 := NewTable(d);
      } else {
        frag1 := nodes3[d / SIZE];
      }
    }

    /** d_binheap_grow in the triple indirection. */
    method GrowThird()
      requires Valid() && 1 + SIZE <= |chunks| < MAX_CHUNKS
      modifies Repr
      ensures Valid() && fresh(Repr - old(Repr)) && hwm == old(hwm) + SIZE
      ensures slots[..old(hwm)] == old(slots)
    {
      var d := (hwm - SIZE - SIZE * SIZE) / SIZE;
      assert d == |chunks| - 1 - SIZE;
      hide Flat;
      var frag1 := TableFor(d);
      label before:
      var frag2 := new Slot[SIZE];
      frag1[d % SIZE] := frag2;
      forall c: nat | c < |chunks| ensures LeadsTo(c, chunks[c]) {
        assert old@before(LeadsTo(c, chunks[c]));
        if c > SIZE {
          DivApart(c - 1 - SIZE, d);
        }
      }
      Append(frag2);
    }

    /**
     d_binheap_grow: one more chunk, unless the triple indirection is full.  No slot that was
     there changes.
     */
    method Grow() returns (ok: bool)
      requires Valid()
      modifies Repr
      ensures Valid() && fresh(Repr - old(Repr))
      ensures ok <==> old(hwm) < SIZE * MAX_CHUNKS
      ensures hwm == old(hwm) + (if ok then SIZE else 0)
      ensures slots[..old(hwm)] == old(slots)
    {
      if hwm == 0 {
        GrowFirst();
        return true;
      }
      if hwm - SIZE < SIZE * SIZE {
        GrowSecond();
        return true;
      }
      if hwm - SIZE - SIZE * SIZE >= SIZE * SIZE * SIZE {
        return false;
      }
      GrowThird();
      return true;
    }
  }

  // ---- no two indices share a slot ----

  predicate InTables(p: Place) {
    match p
    case One(i) => i < SIZE
    case Two(i, j) => i < SIZE && j < SIZE
    case Three(i, j, k) => i < SIZE && j < SIZE && k < SIZE
  }

  function IndexOf(p: Place): nat {
    match p
    case One(i) => i
    case Two(i, j) => SIZE + SIZE * i + j
    case Three(i, j, k) => SIZE + SIZE * SIZE + SIZE * SIZE * i + SIZE * j + k
  }

  lemma Split(q: nat, r: nat)
    requires r < SIZE
    ensures (SIZE * q + r) / SIZE == q && (SIZE * q + r) % SIZE == r
  {
  }

  lemma IndexOfPlace(idx: nat)
    ensures IndexOf(PlaceOf(idx)) == idx
    ensures idx < SIZE * MAX_CHUNKS <==> InTables(PlaceOf(idx))
  {
    if idx >= SIZE + SIZE * SIZE {
      var d := idx - SIZE - SIZE * SIZE;
      var q := d / SIZE;
      assert d == SIZE * q + d % SIZE && q == SIZE * (q / SIZE) + q % SIZE;
      DivTwice(d);
    }
  }

  lemma PlaceOfIndex(p: Place)
    requires InTables(p)
    ensures PlaceOf(IndexOf(p)) == p
  {
    match p
    case One(i) =>
    case Two(i, j) => Split(i, j);
    case Three(i, j, k) =>
      Split(i, j);
      Split(SIZE * i + j, k);
      DivTwice(SIZE * (SIZE * i + j) + k);
  }

  /** Different indices never share a slot, and every slot of the tables has an index. */
  lemma PlacesApart(a: nat, b: nat)
    ensures PlaceOf(a) == PlaceOf(b) ==> a == b
  {
    IndexOfPlace(a);
    IndexOfPlace(b);
  }
}
