/**
 Request timeouts of a context (src/cart/crt_context.c): which requests are in the timeout heap,
 and what one sweep takes out of it.
 */
module Timeouts {
  import opened HeapOrder
  import opened BinHeap
  import Chunks = ChunkStore

  class RequestTimeouts {
    const heap: BinHeap
    ghost var rpcs: set<HeapNode>

    /** The requests in the heap. */
    ghost function Tracked(): set<HeapNode>
      reads this, heap
    {
      NodesOf(heap.entries)
    }

    /** crp_in_binheap is set on exactly the requests that are in the heap. */
    ghost predicate Valid()
      reads this, heap, heap.store, heap.store.Repr, rpcs
    {
      && Tracked() <= rpcs && rpcs !! heap.store.Repr && heap !in heap.store.Repr
      && this !in heap.store.Repr && heap.Valid()
      && forall r <- rpcs :: r.inHeap <==> r in Tracked()
    }

    constructor (ties: Ties, ghost requests: set<HeapNode>)
      requires forall r <- requests :: !r.inHeap
      ensures Valid() && rpcs == requests && Tracked() == {} && fresh(heap) && fresh(heap.store.Repr)
    {
      heap := new BinHeap(ties);
      rpcs := requests;
    }

    /** crt_req_timeout_track. */
    method Track(r: HeapNode) returns (ok: bool)
      requires Valid() && r in rpcs
      modifies heap, heap.store.Repr, rpcs`idx, r`inHeap
      ensures Valid() && fresh(heap.store.Repr - old(heap.store.Repr))
      ensures ok <==> r in old(Tracked()) || old(heap.count) < Chunks.SIZE * Chunks.MAX_CHUNKS
      ensures Tracked() == old(Tracked()) + if ok then {r} else {}
    {
      hide BinHeap.Valid, NodesOf;
      if r.inHeap { return true; }
      ok := heap.Insert(r);
      if ok {
        r.inHeap := true;
      }
    }

    /** crt_req_timeout_untrack. */
    method Untrack(r: HeapNode)
      requires Valid() && r in rpcs
      modifies heap, heap.store.Repr, rpcs`idx, r`inHeap
      ensures Valid() && heap.store.Repr == old(heap.store.Repr)
      ensures Tracked() == old(Tracked()) - {r}
      ensures heap.count == old(heap.count) - if r in old(Tracked()) then 1 else 0
    {
      hide BinHeap.Valid, NodesOf;
      if r.inHeap {
        r.inHeap := false;
        heap.Remove(r);
      }
    }

    /** crt_req_force_timeout: the request moves to the top of the heap. */
    method ForceTimeout(r: HeapNode) returns (ok: bool)
      requires Valid() && r in rpcs
      modifies heap, heap.store.Repr, rpcs`idx, r
      ensures Valid() && fresh(heap.store.Repr - old(heap.store.Repr)) && r.key == 0
      ensures ok <==> r in old(Tracked()) || old(heap.count) < Chunks.SIZE * Chunks.MAX_CHUNKS
      ensures Tracked() == old(Tracked()) - {r} + if ok then {r} else {}
    {
      FitsTables();
      hide BinHeap.Valid, NodesOf;
      Untrack(r);
      r.key := 0;
      ok := Track(r);
    }

    lemma FitsTables()
      requires Valid()
      ensures heap.count <= Chunks.SIZE * Chunks.MAX_CHUNKS
    {
      heap.CountFits();
    }

    /** No tracked request has an earlier deadline than the root. */
    lemma RootFirst()
      requires Valid() && heap.entries != []
      ensures heap.entries[0].node in Tracked()
      ensures forall x <- Tracked() :: heap.entries[0].node.key <= x.key
    {
      forall i | 0 <= i < |heap.entries| ensures heap.entries[0].key <= heap.entries[i].key {
        RootLeast(heap.entries, i);
      }
    }

    /**
     crt_context_timeout_check, under the lock: the sweep takes out exactly the requests whose
     deadline has come, in order of their deadlines, and leaves exactly the later ones.
     */
    method TimeoutCheck(now: int) returns (expired: seq<HeapNode>)
      requires Valid()
      modifies heap, heap.store.Repr, rpcs`idx, rpcs`inHeap
      ensures Valid() && heap.store.Repr == old(heap.store.Repr)
      ensures forall r <- rpcs :: r in expired <==> r in old(Tracked()) && r.key <= now
      ensures forall r <- rpcs :: r in Tracked() <==> r in old(Tracked()) && r.key > now
      ensures forall r <- expired :: r in rpcs
      ensures forall i, j :: 0 <= i < j < |expired| ==> expired[i] != expired[j] && expired[i].key <= expired[j].key
    {
      hide BinHeap.Valid, NodesOf;
      expired := [];
      while true
        invariant Valid() && heap.store.Repr == old(heap.store.Repr)
        invariant forall r <- expired :: r in old(Tracked()) && r !in Tracked() && r.key <= now
        invariant forall r <- old(Tracked()) :: r in Tracked() || r in expired
        invariant Tracked() <= old(Tracked())
        invariant forall r <- expired, x <- Tracked() :: r.key <= x.key
        invariant forall i, j :: 0 <= i < j < |expired| ==> expired[i] != expired[j] && expired[i].key <= expired[j].key
        decreases Tracked()
      {
        var e := heap.Find(0);
        if e == null {
          assert Tracked() == {} by { NoNodes(); }
          break;
        }
        RootFirst();
        if e.key > now { break; }
        Untrack(e);
        expired := expired + [e];
      }
    }

    lemma NoNodes()
      requires heap.entries == []
      ensures Tracked() == {}
    {
    }
  }
}
