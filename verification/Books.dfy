/** What the mock allocator keeps account of, as a value: the registry as a map, the
    addresses libc has handed out, and the counters. One operation is one step. */
module Books {
  import opened Registry

  /** The counters that `ao_mock_reset` clears. */
  datatype Stats = Stats(mallocs: nat, callocs: nat, reallocs: nat, frees: nat,
                         successes: nat, successBytes: nat, failures: nat,
                         bypassReallocs: nat, bypassFrees: nat)

  const NO_STATS := Stats(0, 0, 0, 0, 0, 0, 0, 0, 0)

  datatype Kind = ByMalloc | ByCalloc | ByRealloc

  /** `held` is every address libc has handed out and not taken back, tracked or not. */
  datatype State = State(blocks: map<nat, Block>, held: set<nat>, liveBlocks: int, liveBytes: int,
                         nextId: nat, captureDepth: nat, stats: Stats)

  /** An operation, with libc's answer where it has one (0 is NULL). `Raw` operations go to libc
      past the tracker, as the C library's own code does. */
  datatype Op =
    | Malloc(size: nat, answer: nat)
    | Calloc(count: nat, size: nat, answer: nat)
    | Realloc(ptr: nat, size: nat, answer: nat)
    | Free(ptr: nat)
    | RawAlloc(answer: nat)
    | RawFree(ptr: nat)
    | BeginCapture
    | EndCapture
    | Reset

  // ------------------------------------------------------------- counters

  function Count(st: State, stats: Stats): State {
    if st.captureDepth > 0 then st.(stats := stats) else st
  }

  function RecordFailure(st: State): State {
    Count(st, st.stats.(failures := st.stats.failures + 1))
  }

  function RecordSuccess(st: State, kind: Kind, size: nat): State {
    var s := st.stats.(successes := st.stats.successes + 1, successBytes := st.stats.successBytes + size);
    Count(st, match kind
              case ByMalloc => s.(mallocs := s.mallocs + 1)
              case ByCalloc => s.(callocs := s.callocs + 1)
              case ByRealloc => s.(reallocs := s.reallocs + 1))
  }

  function RecordRealloc(st: State, bypass: bool): State {
    Count(st, st.stats.(reallocs := st.stats.reallocs + 1,
                        bypassReallocs := st.stats.bypassReallocs + (if bypass then 1 else 0)))
  }

  function RecordFree(st: State, bypass: bool): State {
    Count(st, st.stats.(frees := st.stats.frees + 1,
                        bypassFrees := st.stats.bypassFrees + (if bypass then 1 else 0)))
  }

  // ----------------------------------------------------------- operations

  /** `ao_track_allocation_or_die` on a block libc has just handed out. */
  function Track(st: State, ptr: nat, size: nat): State {
    st.(blocks := st.blocks[ptr := Block(size, st.nextId)], held := st.held + {ptr},
        nextId := st.nextId + 1, liveBlocks := st.liveBlocks + 1, liveBytes := st.liveBytes + size)
  }

  function Allocate(st: State, kind: Kind, size: nat, answer: nat): State {
    if answer == 0 then RecordFailure(st) else RecordSuccess(Track(st, answer, size), kind, size)
  }

  /** `realloc` on a block the registry knows: the identity stays, even when the block moves. */
  function Resize(st: State, ptr: nat, size: nat, answer: nat): State
    requires ptr in st.blocks
  {
    var old' := st.blocks[ptr];
    if answer == 0 && size != 0 then RecordFailure(RecordRealloc(st, false))
    else if answer == 0 then
      RecordRealloc(st, false).(blocks := st.blocks - {ptr}, held := st.held - {ptr},
                                liveBlocks := st.liveBlocks - 1, liveBytes := st.liveBytes - old'.size)
    else
      RecordRealloc(st, false).(blocks := (st.blocks - {ptr})[answer := Block(size, old'.id)],
                                held := st.held - {ptr} + {answer},
                                liveBytes := st.liveBytes + size - old'.size)
  }

  /** `realloc` on a block libc handed out past the tracker. */
  function ResizeUntracked(st: State, ptr: nat, size: nat, answer: nat): State {
    var st' := RecordRealloc(st, true);
    if answer == 0 && size != 0 then RecordFailure(st')
    else st'.(held := st.held - {ptr} + (if answer == 0 then {} else {answer}))
  }

  function Release(st: State, ptr: nat): State {
    if ptr in st.blocks then
      RecordFree(st, false).(blocks := st.blocks - {ptr}, held := st.held - {ptr},
                             liveBlocks := st.liveBlocks - 1, liveBytes := st.liveBytes - st.blocks[ptr].size)
    else RecordFree(st, true).(held := st.held - {ptr})
  }

  function Apply(st: State, sizeMax: nat, op: Op): State {
    match op
    case Malloc(size, answer) => Allocate(st, ByMalloc, size, answer)
    case Calloc(count, size, answer) =>
      if count * size > sizeMax then RecordFailure(st) else Allocate(st, ByCalloc, count * size, answer)
    case Realloc(ptr, size, answer) =>
      if ptr == 0 then Allocate(st, ByRealloc, size, answer)
      else if ptr in st.blocks then Resize(st, ptr, size, answer)
      else ResizeUntracked(st, ptr, size, answer)
    case Free(ptr) => if ptr == 0 then st else Release(st, ptr)
    case RawAlloc(answer) => if answer == 0 then st else st.(held := st.held + {answer})
    case RawFree(ptr) => st.(held := st.held - {ptr})
    case BeginCapture => st.(captureDepth := st.captureDepth + 1)
    case EndCapture => if st.captureDepth > 0 then st.(captureDepth := st.captureDepth - 1) else st
    case Reset => st.(stats := NO_STATS)
  }

  /** A new block from libc: anywhere but where a block still is. */
  predicate FreshAnswer(st: State, answer: nat) {
    answer == 0 || (IsLive(answer) && answer !in st.held)
  }

  /** libc's contract and the client's: fresh answers, and only pointers that are still held. */
  predicate Allowed(st: State, op: Op) {
    match op
    case Malloc(_, answer) => FreshAnswer(st, answer)
    case Calloc(_, _, answer) => FreshAnswer(st, answer)
    case Realloc(ptr, _, answer) => (ptr == 0 || ptr in st.held) && (FreshAnswer(st, answer) || (ptr != 0 && answer == ptr))
    case Free(ptr) => ptr == 0 || ptr in st.held
    case RawAlloc(answer) => FreshAnswer(st, answer)
    case RawFree(ptr) => ptr in st.held && ptr !in st.blocks
    case _ => true
  }

  // ------------------------------------------------------------ invariants

  ghost function TotalSize(m: map<nat, Block>): nat {
    if m == map[] then 0 else var k :| k in m; m[k].size + TotalSize(m - {k})
  }

  lemma {:induction false} TotalWithout(m: map<nat, Block>, k: nat)
    requires k in m
    ensures TotalSize(m) == m[k].size + TotalSize(m - {k})
    decreases |m|
  {
    var j :| j in m && TotalSize(m) == m[j].size + TotalSize(m - {j});
    if j != k {
      TotalWithout(m - {j}, k);
      TotalWithout(m - {k}, j);
      assert m - {j} - {k} == m - {k} - {j};
    }
  }

  lemma TotalWith(m: map<nat, Block>, k: nat, b: Block)
    requires k !in m
    ensures TotalSize(m[k := b]) == TotalSize(m) + b.size && |m[k := b]| == |m| + 1
  {
    TotalWithout(m[k := b], k);
    assert m[k := b] - {k} == m;
  }

  lemma SizeWithout(m: map<nat, Block>, k: nat)
    requires k in m
    ensures |m - {k}| == |m| - 1
  {
    assert m == (m - {k})[k := m[k]];
  }

  /** No two registered blocks share an identity, and none has a future one. */
  ghost predicate DistinctIds(blocks: map<nat, Block>, nextId: nat) {
    && (forall k :: k in blocks ==> blocks[k].id < nextId)
    && (forall j, k :: j in blocks && k in blocks && j != k ==> blocks[j].id != blocks[k].id)
  }

  ghost predicate IdsDistinct(st: State) {
    DistinctIds(st.blocks, st.nextId)
  }

  /** The counters describe the registry, and the registry only holds what libc has handed out. */
  ghost predicate Balanced(st: State) {
    Counted(st) && IdsDistinct(st) && Backed(st)
  }

  ghost predicate Counted(st: State) {
    st.liveBlocks == |st.blocks| && st.liveBytes == TotalSize(st.blocks)
  }

  ghost predicate Backed(st: State) {
    st.blocks.Keys <= st.held && forall a :: a in st.held ==> IsLive(a)
  }

  lemma TrackBalanced(st: State, ptr: nat, size: nat)
    requires Balanced(st) && IsLive(ptr) && ptr !in st.held
    ensures Balanced(Track(st, ptr, size))
  {
    TotalWith(st.blocks, ptr, Block(size, st.nextId));
  }

  lemma ReleaseBalanced(st: State, ptr: nat)
    requires Balanced(st)
    ensures Balanced(Release(st, ptr))
  {
    if ptr in st.blocks {
      TotalWithout(st.blocks, ptr);
      SizeWithout(st.blocks, ptr);
    }
  }

  lemma AllocateBalanced(st: State, kind: Kind, size: nat, answer: nat)
    requires Balanced(st) && FreshAnswer(st, answer)
    ensures Balanced(Allocate(st, kind, size, answer))
  {
    if answer != 0 { TrackBalanced(st, answer, size); }
  }

  /** Moving or resizing a registered block: one identity, one entry, the difference in bytes. */
  lemma ResizeBalanced(st: State, ptr: nat, size: nat, answer: nat)
    requires Balanced(st) && ptr in st.blocks && (FreshAnswer(st, answer) || answer == ptr)
    ensures Balanced(Resize(st, ptr, size, answer))
    ensures answer != 0 ==> Resize(st, ptr, size, answer).blocks[answer].id == st.blocks[ptr].id
  {
    hide TotalSize, IdsDistinct, Counted, Backed, RecordRealloc, RecordFailure;
    RecordsOnlyStats(st, false);
    ResizeBacked(st, ptr, size, answer);
    ResizeCounted(st, ptr, size, answer);
    ResizeIds(st, ptr, size, answer);
  }

  lemma ResizeCounted(st: State, ptr: nat, size: nat, answer: nat)
    requires Counted(st) && ptr in st.blocks && (answer == ptr || answer !in st.blocks)
    ensures Counted(Resize(st, ptr, size, answer))
  {
    hide TotalSize, RecordRealloc, RecordFailure;
    RecordsOnlyStats(st, false);
    ResizeTotals(st.blocks, ptr, answer, Block(size, st.blocks[ptr].id));
  }

  lemma ResizeBacked(st: State, ptr: nat, size: nat, answer: nat)
    requires Backed(st) && ptr in st.blocks && (FreshAnswer(st, answer) || answer == ptr)
    ensures Backed(Resize(st, ptr, size, answer))
    ensures answer == ptr || answer !in st.blocks
  {
    hide RecordRealloc, RecordFailure;
    RecordsOnlyStats(st, false);
    assert ptr in st.held;
  }

  lemma ResizeIds(st: State, ptr: nat, size: nat, answer: nat)
    requires IdsDistinct(st) && ptr in st.blocks
    ensures IdsDistinct(Resize(st, ptr, size, answer))
    ensures answer != 0 ==> Resize(st, ptr, size, answer).blocks[answer].id == st.blocks[ptr].id
  {
    hide RecordRealloc, RecordFailure;
    RecordsOnlyStats(st, false);
    ReplaceIds(st, ptr, answer, Block(size, st.blocks[ptr].id));
  }

  lemma ResizeTotals(m: map<nat, Block>, ptr: nat, answer: nat, b: Block)
    requires ptr in m && (answer == ptr || answer !in m)
    ensures |m - {ptr}| == |m| - 1 && TotalSize(m - {ptr}) == TotalSize(m) - m[ptr].size
    ensures |(m - {ptr})[answer := b]| == |m|
    ensures TotalSize((m - {ptr})[answer := b]) == TotalSize(m) - m[ptr].size + b.size
  {
    TotalWithout(m, ptr);
    SizeWithout(m, ptr);
    TotalWith(m - {ptr}, answer, b);
  }

  lemma ReplaceIds(st: State, ptr: nat, answer: nat, b: Block)
    requires IdsDistinct(st) && ptr in st.blocks && b.id == st.blocks[ptr].id
    ensures IdsDistinct(st.(blocks := (st.blocks - {ptr})[answer := b]))
    ensures IdsDistinct(st.(blocks := st.blocks - {ptr}))
  {
  }

  /** Recording changes nothing but the statistics. */
  lemma RecordsOnlyStats(st: State, bypass: bool)
    ensures var st' := RecordRealloc(st, bypass);
            st' == st.(stats := st'.stats) && RecordFailure(st') == st.(stats := RecordFailure(st').stats)
  {
  }

  lemma UntrackedBalanced(st: State, ptr: nat, size: nat, answer: nat)
    requires Balanced(st) && ptr !in st.blocks && (FreshAnswer(st, answer) || (answer == ptr && ptr in st.held))
    ensures Balanced(ResizeUntracked(st, ptr, size, answer))
  {
    hide TotalSize, RecordRealloc, RecordFailure, IdsDistinct, Backed;
    RecordsOnlyStats(st, true);
    UntrackedBacked(st, ptr, size, answer);
    UntrackedIds(st, ptr, size, answer);
  }

  lemma UntrackedBacked(st: State, ptr: nat, size: nat, answer: nat)
    requires Backed(st) && ptr !in st.blocks && (FreshAnswer(st, answer) || (answer == ptr && ptr in st.held))
    ensures Backed(ResizeUntracked(st, ptr, size, answer))
  {
    hide RecordRealloc, RecordFailure;
    RecordsOnlyStats(st, true);
  }

  lemma UntrackedIds(st: State, ptr: nat, size: nat, answer: nat)
    requires IdsDistinct(st)
    ensures IdsDistinct(ResizeUntracked(st, ptr, size, answer))
  {
    hide RecordRealloc, RecordFailure;
    RecordsOnlyStats(st, true);
  }

  lemma CountedBalanced(st: State, st': State)
    requires Balanced(st) && st' == st.(captureDepth := st'.captureDepth, stats := st'.stats)
    ensures Balanced(st')
  {
  }

  lemma RawBalanced(st: State, held: set<nat>)
    requires Balanced(st) && st.blocks.Keys <= held && forall a :: a in held ==> IsLive(a)
    ensures Balanced(st.(held := held))
  {
  }

  /** Every operation keeps the books balanced: `live_blocks` counts the registry, `live_bytes`
      is the sum of its sizes, and identities stay distinct. */
  lemma ApplyBalanced(st: State, sizeMax: nat, op: Op)
    requires Balanced(st) && Allowed(st, op)
    ensures Balanced(Apply(st, sizeMax, op))
  {
    assert st.blocks.Keys <= st.held && forall a :: a in st.held ==> IsLive(a);
    match op
    case Malloc(size, answer) => AllocateBalanced(st, ByMalloc, size, answer);
    case Calloc(count, size, answer) =>
      if count * size > sizeMax { CountedBalanced(st, RecordFailure(st)); } else { AllocateBalanced(st, ByCalloc, count * size, answer); }
    case Realloc(ptr, size, answer) => ReallocBalanced(st, sizeMax, ptr, size, answer);
    case Free(ptr) => if ptr != 0 { ReleaseBalanced(st, ptr); }
    case RawAlloc(answer) => if answer != 0 { RawBalanced(st, st.held + {answer}); }
    case RawFree(ptr) => RawBalanced(st, st.held - {ptr});
    case _ => CountedBalanced(st, Apply(st, sizeMax, op));
  }

  lemma ReallocBalanced(st: State, sizeMax: nat, ptr: nat, size: nat, answer: nat)
    requires Balanced(st) && Allowed(st, Realloc(ptr, size, answer))
    ensures Balanced(Apply(st, sizeMax, Realloc(ptr, size, answer)))
  {
    hide Balanced, Resize, ResizeUntracked;
    if ptr == 0 {
      AllocateBalanced(st, ByRealloc, size, answer);
    } else if ptr in st.blocks {
      ResizeBalanced(st, ptr, size, answer);
    } else {
      UntrackedBalanced(st, ptr, size, answer);
    }
  }

  // ------------------------------------------------------------------ runs

  const FIRST := State(map[], {}, 0, 0, 1, 0, NO_STATS)

  function Run(st: State, sizeMax: nat, ops: seq<Op>): State
    decreases |ops|
  {
    if ops == [] then st else Run(Apply(st, sizeMax, ops[0]), sizeMax, ops[1..])
  }

  predicate AllAllowed(st: State, sizeMax: nat, ops: seq<Op>)
    decreases |ops|
  {
    ops == [] || (Allowed(st, ops[0]) && AllAllowed(Apply(st, sizeMax, ops[0]), sizeMax, ops[1..]))
  }

  /** Over every run, with any mix of tracked and untracked pointers and any capture or reset calls. */
  lemma {:induction false} RunBalanced(st: State, sizeMax: nat, ops: seq<Op>)
    requires Balanced(st) && AllAllowed(st, sizeMax, ops)
    ensures Balanced(Run(st, sizeMax, ops))
    decreases |ops|
  {
    if ops != [] {
      ApplyBalanced(st, sizeMax, ops[0]);
      RunBalanced(Apply(st, sizeMax, ops[0]), sizeMax, ops[1..]);
    }
  }

  /** From start-up, the counters are exact and never negative. */
  lemma EveryRunBalanced(sizeMax: nat, ops: seq<Op>)
    requires AllAllowed(FIRST, sizeMax, ops)
    ensures var st := Run(FIRST, sizeMax, ops);
            && st.liveBlocks == |st.blocks| >= 0 && st.liveBytes == TotalSize(st.blocks) >= 0
            && IdsDistinct(st) && st.blocks.Keys <= st.held
  {
    RunBalanced(FIRST, sizeMax, ops);
  }

  /** A block that is never freed or resized keeps its identity and size through any run. */
  lemma {:induction false} UntouchedBlockStays(st: State, sizeMax: nat, ops: seq<Op>, ptr: nat)
    requires Balanced(st) && AllAllowed(st, sizeMax, ops) && ptr in st.blocks
    requires forall op :: op in ops ==> op != Free(ptr) && !(op.Realloc? && op.ptr == ptr)
    ensures ptr in Run(st, sizeMax, ops).blocks && Run(st, sizeMax, ops).blocks[ptr] == st.blocks[ptr]
    decreases |ops|
  {
    if ops != [] {
      assert ops[0] in ops;
      UntouchedStep(st, sizeMax, ops[0], ptr);
      ApplyBalanced(st, sizeMax, ops[0]);
      UntouchedBlockStays(Apply(st, sizeMax, ops[0]), sizeMax, ops[1..], ptr);
    }
  }

  lemma UntouchedStep(st: State, sizeMax: nat, op: Op, ptr: nat)
    requires Balanced(st) && Allowed(st, op) && ptr in st.blocks
    requires op != Free(ptr) && !(op.Realloc? && op.ptr == ptr)
    ensures var st' := Apply(st, sizeMax, op); ptr in st'.blocks && st'.blocks[ptr] == st.blocks[ptr]
  {
    assert ptr in st.held;
  }
}
