/** What each operation of the mock allocator leaves, field by field: the registry, libc's blocks, the live counters,
    the identities, and the statistics that capture counts. */
module BooksLaws {
  import opened Registry
  import opened Books

  /** The operation asks libc for a new block of this many bytes. */
  predicate AsksFor(op: Op, sizeMax: nat, size: nat) {
    match op
    case Malloc(n, _) => size == n
    case Calloc(count, n, _) => count * n <= sizeMax && size == count * n
    case Realloc(ptr, n, _) => ptr == 0 && size == n
    case _ => false
  }

  /** Entries other than these two keys are the same in both registries. */
  ghost predicate OthersStay(m: map<nat, Block>, m': map<nat, Block>, a: nat, b: nat) {
    forall k :: k != a && k != b ==> (k in m <==> k in m') && (k in m ==> m'[k] == m[k])
  }

  /** A new block is registered with exactly the bytes asked for and the next identity; all other entries stay. */
  lemma NewBlockLeaves(st: State, sizeMax: nat, op: Op, size: nat)
    requires Balanced(st) && Allowed(st, op) && AsksFor(op, sizeMax, size) && op.answer != 0
    ensures var t := Apply(st, sizeMax, op);
            && op.answer !in st.blocks && op.answer in t.blocks && t.blocks[op.answer] == Block(size, st.nextId)
            && OthersStay(st.blocks, t.blocks, op.answer, op.answer)
            && t.held == st.held + {op.answer} && t.nextId == st.nextId + 1
            && t.liveBlocks == st.liveBlocks + 1 && t.liveBytes == st.liveBytes + size
            && t.captureDepth == st.captureDepth
  {
  }

  /** An allocation that fails leaves everything but the statistics: libc refuses, or the product overflows. */
  lemma NoBlockLeaves(st: State, sizeMax: nat, op: Op)
    requires op.Malloc? || op.Calloc? || (op.Realloc? && op.ptr == 0)
    requires op.answer == 0 || (op.Calloc? && op.count * op.size > sizeMax)
    ensures var t := Apply(st, sizeMax, op); t == st.(stats := t.stats)
  {
  }

  /** A registered block that `realloc` keeps or moves: its new size, its old identity, and nothing else changes. */
  lemma MovedBlockLeaves(st: State, sizeMax: nat, ptr: nat, size: nat, answer: nat)
    requires Balanced(st) && Allowed(st, Realloc(ptr, size, answer)) && ptr in st.blocks && answer != 0
    ensures var t := Apply(st, sizeMax, Realloc(ptr, size, answer));
            && answer in t.blocks && t.blocks[answer] == Block(size, st.blocks[ptr].id)
            && (answer != ptr ==> ptr !in t.blocks && ptr !in t.held && answer !in st.blocks)
            && OthersStay(st.blocks, t.blocks, ptr, answer) && t.held == st.held - {ptr} + {answer}
            && t.liveBlocks == st.liveBlocks && t.liveBytes == st.liveBytes + size - st.blocks[ptr].size
            && t.nextId == st.nextId && t.captureDepth == st.captureDepth
  {
    hide TotalSize;
    HeldLive(st, ptr);
  }

  lemma HeldLive(st: State, ptr: nat)
    requires Balanced(st) && ptr in st.blocks
    ensures ptr in st.held && ptr != 0
  {
  }

  /** A `realloc` that is refused leaves everything but the statistics. */
  lemma RefusedMoveLeaves(st: State, sizeMax: nat, ptr: nat, size: nat)
    requires ptr != 0 && size != 0
    ensures var t := Apply(st, sizeMax, Realloc(ptr, size, 0)); t == st.(stats := t.stats)
  {
  }

  /** A registered block that `free`, or `realloc` to nothing, gives back: neither registered nor held, and taken off the counters. */
  lemma FreedBlockLeaves(st: State, sizeMax: nat, op: Op, ptr: nat)
    requires Balanced(st) && ptr in st.blocks && (op == Free(ptr) || op == Realloc(ptr, 0, 0))
    ensures var t := Apply(st, sizeMax, op);
            && ptr !in t.blocks && OthersStay(st.blocks, t.blocks, ptr, ptr) && t.held == st.held - {ptr}
            && t.liveBlocks == st.liveBlocks - 1 && t.liveBytes == st.liveBytes - st.blocks[ptr].size
            && t.nextId == st.nextId && t.captureDepth == st.captureDepth
  {
    hide TotalSize;
    HeldLive(st, ptr);
  }

  /** Blocks that the registry does not know come and go without it. */
  lemma UntrackedLeaves(st: State, sizeMax: nat, op: Op, ptr: nat)
    requires ptr != 0 && ptr !in st.blocks && (op == Free(ptr) || (op.Realloc? && op.ptr == ptr && (op.answer != 0 || op.size == 0)))
    ensures var t := Apply(st, sizeMax, op);
            && t == st.(held := t.held, stats := t.stats)
            && t.held == if op.Realloc? && op.answer != 0 then st.held - {ptr} + {op.answer} else st.held - {ptr}
  {
  }

  /** Blocks that libc's own callers get and give back past the tracker change nothing but what libc has handed out. */
  lemma PastTheTracker(st: State, sizeMax: nat, a: nat)
    requires a != 0
    ensures Apply(st, sizeMax, RawAlloc(a)) == st.(held := st.held + {a})
    ensures Apply(st, sizeMax, RawFree(a)) == st.(held := st.held - {a})
    ensures Apply(st, sizeMax, RawAlloc(0)) == st
  {
  }

  /** Freeing NULL, and starting, ending and clearing the capture. */
  lemma OtherOpsLeave(st: State, sizeMax: nat)
    ensures Apply(st, sizeMax, Free(0)) == st
    ensures Apply(st, sizeMax, BeginCapture) == st.(captureDepth := st.captureDepth + 1)
    ensures Apply(st, sizeMax, EndCapture) == st.(captureDepth := if st.captureDepth == 0 then 0 else st.captureDepth - 1)
    ensures Apply(st, sizeMax, Reset) == st.(stats := Stats(0, 0, 0, 0, 0, 0, 0, 0, 0))
  {
  }

  // ------------------------------------------------------------ statistics

  /** While capture is off, no operation but a reset changes the statistics. */
  lemma NothingCounted(st: State, sizeMax: nat, op: Op)
    requires st.captureDepth == 0 && op != Reset
    ensures Apply(st, sizeMax, op).stats == st.stats
  {
  }

  /** A new block counts as a call of the function that asked, a success, and its bytes. */
  lemma NewBlockCounted(st: State, sizeMax: nat, op: Op, size: nat)
    requires st.captureDepth > 0 && AsksFor(op, sizeMax, size) && op.answer != 0
    ensures Apply(st, sizeMax, op).stats == st.stats.(
              mallocs := st.stats.mallocs + (if op.Malloc? then 1 else 0),
              callocs := st.stats.callocs + (if op.Calloc? then 1 else 0),
              reallocs := st.stats.reallocs + (if op.Realloc? then 1 else 0),
              successes := st.stats.successes + 1, successBytes := st.stats.successBytes + size)
  {
  }

  /** An allocation that fails counts as a failure and not as a call. */
  lemma NoBlockCounted(st: State, sizeMax: nat, op: Op)
    requires st.captureDepth > 0 && (op.Malloc? || op.Calloc? || (op.Realloc? && op.ptr == 0))
    requires op.answer == 0 || (op.Calloc? && op.count * op.size > sizeMax)
    ensures Apply(st, sizeMax, op).stats == st.stats.(failures := st.stats.failures + 1)
  {
  }

  /** `realloc` of a block counts as a call, as a bypass when the registry does not know the block, and as a failure when refused;
      it never counts as a success. */
  lemma ReallocCounted(st: State, sizeMax: nat, ptr: nat, size: nat, answer: nat)
    requires st.captureDepth > 0 && ptr != 0
    ensures Apply(st, sizeMax, Realloc(ptr, size, answer)).stats == st.stats.(
              reallocs := st.stats.reallocs + 1,
              bypassReallocs := st.stats.bypassReallocs + (if ptr in st.blocks then 0 else 1),
              failures := st.stats.failures + (if answer == 0 && size != 0 then 1 else 0))
  {
  }

  /** `free` counts as a call, and as a bypass when the registry does not know the block. */
  lemma FreeCounted(st: State, sizeMax: nat, ptr: nat)
    requires st.captureDepth > 0 && ptr != 0
    ensures Apply(st, sizeMax, Free(ptr)).stats == st.stats.(
              frees := st.stats.frees + 1, bypassFrees := st.stats.bypassFrees + (if ptr in st.blocks then 0 else 1))
  {
  }
}
