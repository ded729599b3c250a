/** Kernel memory: live allocations by address, with the contracts of kzalloc, krealloc_array and kfree. */
module KernelMemory {
  import opened Sequences

  /** An address; 0 is the null pointer. */
  type Ptr = nat

  const NULL: Ptr := 0

  type Heap = map<Ptr, seq<byte>>

  class Allocator {
    /** The live allocations and what they hold.  An address that is not a key may not be touched. */
    var heap: Heap
    ghost var limit: nat

    ghost predicate Valid()
      reads this
    {
      NULL !in heap && limit > 0 && forall p :: p in heap ==> p < limit
    }

    constructor ()
      ensures Valid() && heap == map[]
    {
      heap := map[];
      limit := 1;
    }

    /** Any address not in use: freed ones may come back. */
    method FreshAddress() returns (p: Ptr)
      requires Valid()
      ensures p != NULL && p !in heap
    {
      assert limit !in heap;
      p :| p != NULL && p !in heap;
    }

    /** A zeroed buffer, or null when the kernel has no memory (`granted` is false). */
    method Kzalloc(n: nat, granted: bool) returns (p: Ptr)
      requires Valid()
      modifies this
      ensures Valid()
      ensures !granted ==> p == NULL && heap == old(heap)
      ensures granted ==> p != NULL && p !in old(heap) && heap == old(heap)[p := seq(n, _ => 0)]
    {
      if !granted {
        return NULL;
      }
      p := FreshAddress();
      heap := heap[p := seq(n, _ => 0)];
      limit := if p < limit then limit else p + 1;
    }

    /** A buffer of the new size, at the same address or another, that takes over as much of the old
        contents as fits; on failure the old buffer stays live and null is returned.  Resizing null is a
        plain allocation.  Bytes not taken over are arbitrary. */
    method KreallocArray(p: Ptr, n: nat, granted: bool) returns (q: Ptr)
      requires Valid()
      requires p == NULL || p in heap
      modifies this
      ensures Valid()
      ensures !granted ==> q == NULL && heap == old(heap)
      ensures granted ==> q != NULL && (q == p || q !in old(heap))
      ensures granted ==> q in heap && |heap[q]| == n && heap == (old(heap) - {p})[q := heap[q]]
      ensures granted && p != NULL ==> forall i :: 0 <= i < n && i < |old(heap)[p]| ==> heap[q][i] == old(heap)[p][i]
    {
      if !granted {
        return NULL;
      }
      var contents: seq<byte> := *;
      var kept := if p == NULL then [] else heap[p];
      if |contents| != n || exists i :: 0 <= i < n && i < |kept| && contents[i] != kept[i] {
        contents := seq(n, i requires 0 <= i => if i < |kept| then kept[i] else 0);
      }
      heap := heap - {p};
      q := FreshAddress();
      heap := heap[q := contents];
      limit := if q < limit then limit else q + 1;
    }

    /** Writes `bytes` at `p + off`, inside the allocation. */
    method Store(p: Ptr, off: nat, bytes: seq<byte>)
      requires Valid() && p in heap && off + |bytes| <= |heap[p]|
      modifies this
      ensures Valid()
      ensures heap == old(heap)[p := old(heap[p])[..off] + bytes + old(heap[p])[off + |bytes|..]]
    {
      heap := heap[p := heap[p][..off] + bytes + heap[p][off + |bytes|..]];
    }

    /** Reads `n` bytes at `p + off`, inside the allocation. */
    method Load(p: Ptr, off: nat, n: nat) returns (bytes: seq<byte>)
      requires p in heap && off + n <= |heap[p]|
      ensures bytes == heap[p][off..off + n]
    {
      bytes := heap[p][off..off + n];
    }

    /** Freeing needs a live buffer, so nothing is freed twice; freeing null does nothing. */
    method Kfree(p: Ptr)
      requires Valid() && (p == NULL || p in heap)
      modifies this
      ensures Valid()
      ensures heap == old(heap) - {p}
    {
      heap := heap - {p};
    }
  }
}
