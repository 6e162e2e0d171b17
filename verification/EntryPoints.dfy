/** The entry points as the program calls them: before libc's symbols are known, and for blocks handed out then, they work on
    the bootstrap heap; everything else goes to libc and is tracked. */
module EntryPoints {
  import opened Registry
  import opened Books
  import opened MockAllocator
  import opened Bootstrap

  class Process {
    const tracker: Allocator
    const heap: Heap
    const base: nat
    var resolving: bool

    /** `ao_bootstrap_contains`. */
    predicate InHeap(address: nat) {
      base <= address < base + heap.l.heapSize
    }

    /** Tracker and heap are in order, and libc's blocks lie outside the heap: no block of the heap is ever registered. */
    ghost predicate Valid()
      reads this, tracker, tracker.registry.slots, heap, heap.bytes
    {
      && tracker.Valid() && heap.Valid() && IsLive(base) && tracker.sizeMax + 1 == Range(heap.l.sizeBytes)
      && forall a :: a in tracker.held ==> !InHeap(a)
    }

    /** The address of a heap block. */
    ghost predicate HeapBlock(address: nat)
      reads heap
    {
      InHeap(address) && address - base in heap.requested
    }

    /** Where the next heap block of this size would start; 0 where there is no room. */
    function NextBlock(size: nat): nat
      requires heap.l.Valid()
      reads heap
    {
      if Total(heap.l, size) + heap.offset <= heap.l.heapSize then base + heap.offset + heap.l.header else 0
    }

    constructor (bits: nat, layout: Layout, base: nat)
      requires layout.Valid() && IsLive(base)
      ensures Valid() && resolving && heap.l == layout && this.base == base
      ensures tracker.Now() == FIRST && heap.requested == map[]
    {
      tracker := new Allocator(bits, Range(layout.sizeBytes) - 1);
      heap := new Heap(layout);
      this.base := base;
      resolving := true;
    }

    /** `malloc`. While resolving, the block comes from the heap and nothing is accounted. */
    method Malloc(size: nat, answer: nat) returns (alive: bool, ptr: nat)
      requires Valid() && size <= tracker.sizeMax
      requires !resolving ==> Allowed(tracker.Now(), Op.Malloc(size, answer)) && !InHeap(answer)
      modifies tracker, tracker.registry.slots, heap, heap.bytes
      ensures alive ==> Valid()
      ensures resolving ==> alive && unchanged(tracker) && unchanged(tracker.registry.slots) && ptr == old(NextBlock(size))
      ensures resolving && ptr != 0 ==> !old(HeapBlock(ptr)) && heap.requested == old(heap.requested)[ptr - base := size]
      ensures heap.bytes[..old(heap.offset)] == old(heap.bytes[..heap.offset])
      ensures !resolving ==> unchanged(heap) && unchanged(heap.bytes)
      ensures !resolving ==> (alive <==> answer == 0 || !old(tracker.Full()))
      ensures !resolving && alive ==>
                ptr == answer && tracker.Now() == Apply(old(tracker.Now()), tracker.sizeMax, Op.Malloc(size, answer))
    {
      if resolving {
        var ok, at := heap.Alloc(size);
        TotalHolds(heap.l, size);
        return true, if ok then base + at else 0;
      }
      HeldGrows(tracker.Now(), tracker.sizeMax, Op.Malloc(size, answer), answer);
      alive, ptr := tracker.Malloc(size, answer);
    }

    /** `calloc`. While resolving, the product is not checked: it wraps around. */
    method Calloc(count: nat, size: nat, answer: nat) returns (alive: bool, ptr: nat)
      requires Valid() && size <= tracker.sizeMax
      requires !resolving ==> Allowed(tracker.Now(), Op.Calloc(count, size, answer)) && !InHeap(answer)
      modifies tracker, tracker.registry.slots, heap, heap.bytes
      ensures alive ==> Valid()
      ensures resolving ==> alive && unchanged(tracker) && unchanged(tracker.registry.slots)
      ensures resolving ==>
                var n := count * size % (tracker.sizeMax + 1);
                && ptr == old(NextBlock(n))
                && (ptr != 0 ==> !old(HeapBlock(ptr)) && heap.requested == old(heap.requested)[ptr - base := n]
                                 && ptr - base + n <= heap.bytes.Length
                                 && forall i :: ptr - base <= i < ptr - base + n ==> heap.bytes[i] == 0)
      ensures heap.bytes[..old(heap.offset)] == old(heap.bytes[..heap.offset])
      ensures !resolving ==> unchanged(heap) && unchanged(heap.bytes)
      ensures !resolving ==> (alive <==> count * size > tracker.sizeMax || answer == 0 || !old(tracker.Full()))
      ensures !resolving && alive ==>
                && ptr == (if count * size > tracker.sizeMax then 0 else answer)
                && tracker.Now() == Apply(old(tracker.Now()), tracker.sizeMax, Op.Calloc(count, size, answer))
    {
      if resolving {
        var ok, at := heap.Calloc(count, size);
        TotalHolds(heap.l, count * size % (tracker.sizeMax + 1));
        return true, if ok then base + at else 0;
      }
      HeldGrows(tracker.Now(), tracker.sizeMax, Op.Calloc(count, size, answer), answer);
      alive, ptr := tracker.Calloc(count, size, answer);
    }

    /** Whether `realloc` stays in the heap. */
    predicate ReallocsInHeap(ptr: nat)
      reads this
    {
      resolving || InHeap(ptr)
    }

    /** `realloc`. A block of the heap stays in the heap, also later; while resolving, a block of libc's is refused. */
    method Realloc(ptr: nat, size: nat, answer: nat) returns (alive: bool, newPtr: nat)
      requires Valid() && size <= tracker.sizeMax && (InHeap(ptr) ==> HeapBlock(ptr))
      requires !ReallocsInHeap(ptr) ==> Allowed(tracker.Now(), Op.Realloc(ptr, size, answer)) && !InHeap(answer)
      modifies tracker, tracker.registry.slots, heap, heap.bytes
      ensures alive ==> Valid()
      ensures ReallocsInHeap(ptr) ==> alive && unchanged(tracker) && unchanged(tracker.registry.slots)
      ensures ReallocsInHeap(ptr) ==> newPtr == if ptr != 0 && !InHeap(ptr) then 0 else old(NextBlock(size))
      ensures ReallocsInHeap(ptr) && newPtr != 0 ==>
                !old(HeapBlock(newPtr)) && heap.requested == old(heap.requested)[newPtr - base := size]
      ensures InHeap(ptr) && newPtr != 0 ==>
                newPtr > base && SameBytes(old(heap.bytes[..]), ptr - base, heap.bytes[..], newPtr - base,
                                           Min(old(heap.requested)[ptr - base], size))
      ensures heap.bytes[..old(heap.offset)] == old(heap.bytes[..heap.offset])
      ensures !ReallocsInHeap(ptr) ==> unchanged(heap) && unchanged(heap.bytes)
      ensures !ReallocsInHeap(ptr) ==> (alive <==> ptr != 0 || answer == 0 || !old(tracker.Full()))
      ensures !ReallocsInHeap(ptr) && alive ==>
                newPtr == answer && tracker.Now() == Apply(old(tracker.Now()), tracker.sizeMax, Op.Realloc(ptr, size, answer))
    {
      hide Heap.Valid, Total, Range, Apply, Balanced, Allowed, SameBytes, Min;
      heap.BlocksBelow();
      if resolving || InHeap(ptr) {
        if InHeap(ptr) {
          newPtr := BlockInHeap(ptr, size);
        } else {
          newPtr := NoBlockInHeap(ptr, size);
        }
        return true, newPtr;
      }
      HeldGrows(tracker.Now(), tracker.sizeMax, Op.Realloc(ptr, size, answer), answer);
      alive, newPtr := tracker.Realloc(ptr, size, answer);
    }

    /** `ao_bootstrap_realloc` of NULL, which allocates, or of an address outside the heap, which is refused. */
    method NoBlockInHeap(ptr: nat, size: nat) returns (newPtr: nat)
      requires heap.Valid() && heap.l.Valid() && IsLive(base) && size < Range(heap.l.sizeBytes) && (ptr == 0 || !InHeap(ptr))
      modifies heap, heap.bytes
      ensures heap.Valid() && newPtr == if ptr != 0 then 0 else old(NextBlock(size))
      ensures newPtr != 0 ==> !old(HeapBlock(newPtr)) && heap.requested == old(heap.requested)[newPtr - base := size]
      ensures heap.bytes[..old(heap.offset)] == old(heap.bytes[..heap.offset])
    {
      hide Total, Range, Heap.Valid;
      TotalHolds(heap.l, size);
      var ok, at := heap.Realloc(if ptr == 0 then Null else Foreign, size);
      newPtr := if ok then base + at else 0;
    }

    /** `ao_bootstrap_realloc` of a block of the heap. */
    method BlockInHeap(ptr: nat, size: nat) returns (newPtr: nat)
      requires heap.Valid() && heap.l.Valid() && IsLive(base) && size < Range(heap.l.sizeBytes) && HeapBlock(ptr)
      modifies heap, heap.bytes
      ensures heap.Valid() && newPtr == old(NextBlock(size))
      ensures newPtr != 0 ==> !old(HeapBlock(newPtr)) && heap.requested == old(heap.requested)[newPtr - base := size]
      ensures newPtr != 0 ==>
                newPtr > base && SameBytes(old(heap.bytes[..]), ptr - base, heap.bytes[..], newPtr - base,
                                           Min(old(heap.requested)[ptr - base], size))
      ensures heap.bytes[..old(heap.offset)] == old(heap.bytes[..heap.offset])
    {
      hide Total, Range, Heap.Valid, SameBytes, Min;
      TotalHolds(heap.l, size);
      var from := ptr - base;
      var ok, at := heap.Realloc(Pointer.Block(from), size);
      newPtr := if ok then base + at else 0;
      assert ok ==> newPtr - base == at;
    }

    /** `free`. Blocks of the heap are never taken back, and while resolving nothing is. */
    method Free(ptr: nat)
      requires Valid() && (InHeap(ptr) || resolving || Allowed(tracker.Now(), Op.Free(ptr)))
      modifies tracker, tracker.registry.slots
      ensures Valid()
      ensures InHeap(ptr) || resolving ==> unchanged(tracker) && unchanged(tracker.registry.slots)
      ensures !InHeap(ptr) && !resolving ==> tracker.Now() == Apply(old(tracker.Now()), tracker.sizeMax, Op.Free(ptr))
    {
      if ptr == 0 || InHeap(ptr) || resolving {
        return;
      }
      HeldGrows(tracker.Now(), tracker.sizeMax, Op.Free(ptr), 0);
      tracker.Free(ptr);
    }

    /** `ao_resolve_real_functions` is done. */
    method Resolved()
      requires Valid()
      modifies this
      ensures Valid() && !resolving && unchanged(tracker) && unchanged(heap)
    {
      resolving := false;
    }
  }

  /** libc's blocks after an operation: those before, and its answer. */
  lemma HeldGrows(st: State, sizeMax: nat, op: Op, answer: nat)
    requires match op
             case Malloc(_, a) => a == answer
             case Calloc(_, _, a) => a == answer
             case Realloc(_, _, a) => a == answer
             case Free(_) => true
             case _ => false
    ensures forall a :: a in Apply(st, sizeMax, op).held ==> a in st.held || (a == answer && answer != 0)
  {
  }
}
