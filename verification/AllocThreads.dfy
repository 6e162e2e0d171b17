/** `malloc`, `calloc` and `free` by any number of threads, one atomic access or locked
    section to a step, with libc as an adversary that hands out any address not in use. */
module AllocThreads {
  import opened Registry
  import opened Books

  /** Where a thread is inside `malloc` or `free`. */
  datatype Pc =
    | Idle
    | Answered(addr: nat, size: nat)    // libc has answered; the registry does not know the block
    | Registered(addr: nat, size: nat)  // registered; neither live counter has been raised
    | CountedOnce(addr: nat, size: nat) // live_blocks has been raised, live_bytes has not
    | FreeCalled(addr: nat)             // the client has passed the block to free
    | Removed(addr: nat, size: nat)     // unregistered; neither live counter has been lowered
    | LoweredOnce(addr: nat, size: nat) // live_blocks has been lowered, live_bytes has not
    | Releasing(addr: nat)              // about to give the block back to libc

  /** `owned` is what clients hold: returned by malloc, not yet passed to free. */
  datatype Sys = Sys(blocks: map<nat, Block>, held: set<nat>, owned: set<nat>,
                     liveBlocks: int, liveBytes: int, nextId: nat, threads: seq<Pc>)

  /** What the scheduler, the client and libc choose at a step. */
  datatype Choice = CallMalloc(size: nat, answer: nat) | CallFree(addr: nat) | Continue

  predicate Enabled(s: Sys, i: nat, c: Choice) {
    i < |s.threads| &&
    match c
    case CallMalloc(_, answer) => s.threads[i].Idle? && IsLive(answer) && answer !in s.held
    case CallFree(addr) => s.threads[i].Idle? && addr in s.owned
    case Continue => !s.threads[i].Idle?
  }

  function Step(s: Sys, i: nat, c: Choice): Sys
    requires Enabled(s, i, c)
  {
    match c
    case CallMalloc(size, answer) => s.(held := s.held + {answer}, threads := s.threads[i := Answered(answer, size)])
    case CallFree(addr) => s.(owned := s.owned - {addr}, threads := s.threads[i := FreeCalled(addr)])
    case Continue =>
      match s.threads[i]
      case Answered(a, n) =>
        s.(blocks := s.blocks[a := Block(n, s.nextId)], nextId := s.nextId + 1, threads := s.threads[i := Registered(a, n)])
      case Registered(a, n) => s.(liveBlocks := s.liveBlocks + 1, threads := s.threads[i := CountedOnce(a, n)])
      case CountedOnce(a, n) =>
        s.(liveBytes := s.liveBytes + n, owned := s.owned + {a}, threads := s.threads[i := Idle])
      case FreeCalled(a) =>
        if a in s.blocks then s.(blocks := s.blocks - {a}, threads := s.threads[i := Removed(a, s.blocks[a].size)])
        else s.(threads := s.threads[i := Releasing(a)])
      case Removed(a, n) => s.(liveBlocks := s.liveBlocks - 1, threads := s.threads[i := LoweredOnce(a, n)])
      case LoweredOnce(a, n) => s.(liveBytes := s.liveBytes - n, threads := s.threads[i := Releasing(a)])
      case Releasing(a) => s.(held := s.held - {a}, threads := s.threads[i := Idle])
  }

  // ------------------------------------------------- who has which block

  /** The thread has a block in hand that the registry knows. */
  predicate HasRegistered(pc: Pc) {
    pc.Registered? || pc.CountedOnce? || pc.FreeCalled?
  }

  /** Clients' blocks are registered; a thread's block is registered exactly in the stages that say so;
      everything in the registry or in a thread's hands is held from libc; nobody shares a block. */
  ghost predicate Disjoint(s: Sys) {
    && s.blocks.Keys <= s.held
    && s.owned <= s.blocks.Keys
    && (forall a :: a in s.held ==> IsLive(a))
    && (forall i :: 0 <= i < |s.threads| ==> Holds(s, s.threads[i]))
    && (forall i, j :: 0 <= i < j < |s.threads| ==> Apart(s.threads[i], s.threads[j]))
  }

  ghost predicate Holds(s: Sys, pc: Pc) {
    !pc.Idle? ==>
      && pc.addr in s.held && pc.addr !in s.owned
      && (HasRegistered(pc) <==> pc.addr in s.blocks)
      && (pc.Registered? || pc.CountedOnce? ==> s.blocks[pc.addr].size == pc.size)
  }

  predicate Apart(p: Pc, q: Pc) {
    p.Idle? || q.Idle? || p.addr != q.addr
  }

  // ------------------------------------------------ what is still to be counted

  function AddBlocks(pc: Pc): nat { if pc.Registered? then 1 else 0 }

  function SubBlocks(pc: Pc): nat { if pc.Removed? then 1 else 0 }

  function AddBytes(pc: Pc): nat { if pc.Registered? || pc.CountedOnce? then pc.size else 0 }

  function SubBytes(pc: Pc): nat { if pc.Removed? || pc.LoweredOnce? then pc.size else 0 }

  function Sum(threads: seq<Pc>, f: Pc -> nat): nat {
    if threads == [] then 0 else Sum(threads[..|threads| - 1], f) + f(threads[|threads| - 1])
  }

  lemma {:induction false} SumUpdate(threads: seq<Pc>, f: Pc -> nat, i: nat, pc: Pc)
    requires i < |threads|
    ensures Sum(threads[i := pc], f) == Sum(threads, f) - f(threads[i]) + f(pc)
  {
    var n := |threads| - 1;
    if i == n {
      assert threads[i := pc][..n] == threads[..n];
    } else {
      assert threads[i := pc][..n] == threads[..n][i := pc];
      SumUpdate(threads[..n], f, i, pc);
    }
  }

  lemma {:induction false} SumAtLeast(threads: seq<Pc>, f: Pc -> nat, i: nat)
    requires i < |threads|
    ensures Sum(threads, f) >= f(threads[i])
  {
    var n := |threads| - 1;
    if i < n { SumAtLeast(threads[..n], f, i); }
  }

  /** The live counters are the registry's, less the pending additions, plus the pending removals. */
  ghost predicate Accounted(s: Sys) {
    && s.liveBlocks == |s.blocks| - Sum(s.threads, AddBlocks) + Sum(s.threads, SubBlocks)
    && s.liveBytes == TotalSize(s.blocks) - Sum(s.threads, AddBytes) + Sum(s.threads, SubBytes)
  }

  ghost predicate Inv(s: Sys) {
    Disjoint(s) && Accounted(s) && DistinctIds(s.blocks, s.nextId)
  }

  // ---------------------------------------------------------- every step

  /** One thread moves: if it and the shared state fit together afterwards, and the others are
      not disturbed, nobody shares a block. */
  lemma MoveDisjoint(s: Sys, t: Sys, i: nat, pc: Pc)
    requires Disjoint(s) && i < |s.threads| && t.threads == s.threads[i := pc]
    requires t.blocks.Keys <= t.held && t.owned <= t.blocks.Keys && forall a :: a in t.held ==> IsLive(a)
    requires Holds(t, pc)
    requires pc.Idle? || (!s.threads[i].Idle? && pc.addr == s.threads[i].addr)
             || forall j :: 0 <= j < |s.threads| && j != i ==> Apart(s.threads[j], pc)
    requires forall j :: 0 <= j < |s.threads| && j != i ==> Holds(t, s.threads[j])
    ensures Disjoint(t)
  {
    forall j, k | 0 <= j < k < |t.threads| ensures Apart(t.threads[j], t.threads[k]) {
      assert Apart(s.threads[j], s.threads[k]);
    }
    forall j | 0 <= j < |t.threads| ensures Holds(t, t.threads[j]) {
      assert t.threads[j] == if j == i then pc else s.threads[j];
    }
  }

  lemma MallocDisjoint(s: Sys, i: nat, size: nat, answer: nat)
    requires Disjoint(s) && Enabled(s, i, CallMalloc(size, answer))
    ensures Disjoint(Step(s, i, CallMalloc(size, answer)))
  {
    var t := Step(s, i, CallMalloc(size, answer));
    forall j | 0 <= j < |s.threads| && j != i ensures Holds(t, s.threads[j]) && Apart(s.threads[j], Answered(answer, size)) {
      assert Holds(s, s.threads[j]);
    }
    MoveDisjoint(s, t, i, Answered(answer, size));
  }

  lemma FreeDisjoint(s: Sys, i: nat, addr: nat)
    requires Disjoint(s) && Enabled(s, i, CallFree(addr))
    ensures Disjoint(Step(s, i, CallFree(addr)))
  {
    var t := Step(s, i, CallFree(addr));
    forall j | 0 <= j < |s.threads| && j != i ensures Holds(t, s.threads[j]) && Apart(s.threads[j], FreeCalled(addr)) {
      assert Holds(s, s.threads[j]);
    }
    MoveDisjoint(s, t, i, FreeCalled(addr));
  }

  lemma ContinueDisjoint(s: Sys, i: nat)
    requires Disjoint(s) && Enabled(s, i, Continue)
    ensures Disjoint(Step(s, i, Continue))
  {
    var t := Step(s, i, Continue);
    assert Holds(s, s.threads[i]);
    forall j | 0 <= j < |s.threads| && j != i ensures Holds(t, s.threads[j]) {
      assert Holds(s, s.threads[j]);
      assert Apart(s.threads[if j < i then j else i], s.threads[if j < i then i else j]);
    }
    MoveDisjoint(s, t, i, t.threads[i]);
  }

  /** The sums before and after one thread moves. */
  lemma SumsMove(s: Sys, i: nat, pc: Pc)
    requires i < |s.threads|
    ensures var u := s.threads[i := pc];
            && Sum(u, AddBlocks) == Sum(s.threads, AddBlocks) - AddBlocks(s.threads[i]) + AddBlocks(pc)
            && Sum(u, SubBlocks) == Sum(s.threads, SubBlocks) - SubBlocks(s.threads[i]) + SubBlocks(pc)
            && Sum(u, AddBytes) == Sum(s.threads, AddBytes) - AddBytes(s.threads[i]) + AddBytes(pc)
            && Sum(u, SubBytes) == Sum(s.threads, SubBytes) - SubBytes(s.threads[i]) + SubBytes(pc)
  {
    SumUpdate(s.threads, AddBlocks, i, pc);
    SumUpdate(s.threads, SubBlocks, i, pc);
    SumUpdate(s.threads, AddBytes, i, pc);
    SumUpdate(s.threads, SubBytes, i, pc);
  }

  lemma StepAccounted(s: Sys, i: nat, c: Choice)
    requires Inv(s) && Enabled(s, i, c)
    ensures Accounted(Step(s, i, c))
  {
    hide Sum, TotalSize, Disjoint, DistinctIds;
    var t := Step(s, i, c);
    SumsMove(s, i, t.threads[i]);
    HeldBy(s, i);
    StepTotals(s, i, c);
  }

  lemma HeldBy(s: Sys, i: nat)
    requires Disjoint(s) && i < |s.threads|
    ensures Holds(s, s.threads[i])
  {
  }

  /** What a step does to the registry's count and total. */
  lemma StepTotals(s: Sys, i: nat, c: Choice)
    requires Enabled(s, i, c) && Holds(s, s.threads[i])
    ensures var t, pc := Step(s, i, c), s.threads[i];
            if c.Continue? && pc.Answered? then
              |t.blocks| == |s.blocks| + 1 && TotalSize(t.blocks) == TotalSize(s.blocks) + pc.size
            else if c.Continue? && pc.FreeCalled? then
              |t.blocks| == |s.blocks| - 1 && TotalSize(t.blocks) == TotalSize(s.blocks) - s.blocks[pc.addr].size
            else t.blocks == s.blocks
  {
    hide TotalSize;
    var pc := s.threads[i];
    if c.Continue? {
      if pc.Answered? {
        TotalWith(s.blocks, pc.addr, Block(pc.size, s.nextId));
      } else if pc.FreeCalled? {
        TotalWithout(s.blocks, pc.addr);
        SizeWithout(s.blocks, pc.addr);
      }
    }
  }

  lemma StepIds(s: Sys, i: nat, c: Choice)
    requires DistinctIds(s.blocks, s.nextId) && Enabled(s, i, c)
    ensures DistinctIds(Step(s, i, c).blocks, Step(s, i, c).nextId)
  {
  }

  /** Every step of every thread keeps the invariant. */
  lemma StepKeepsInv(s: Sys, i: nat, c: Choice)
    requires Inv(s) && Enabled(s, i, c)
    ensures Inv(Step(s, i, c))
  {
    hide Accounted, Disjoint, DistinctIds, Step;
    StepAccounted(s, i, c);
    StepIds(s, i, c);
    match c
    case CallMalloc(size, answer) => MallocDisjoint(s, i, size, answer);
    case CallFree(addr) => FreeDisjoint(s, i, addr);
    case Continue => ContinueDisjoint(s, i);
  }

  // ---------------------------------------------------- nothing goes astray

  /** Some thread has registered the block and not yet handed it over, or has it back to free it. */
  ghost predicate InHand(threads: seq<Pc>, a: nat) {
    exists i :: 0 <= i < |threads| && HasRegistered(threads[i]) && threads[i].addr == a
  }

  /** Every registered block is a client's or in a thread's hands. */
  ghost predicate NoStray(s: Sys) {
    forall a :: a in s.blocks ==> a in s.owned || InHand(s.threads, a)
  }

  lemma StillInHand(threads: seq<Pc>, i: nat, pc: Pc, a: nat)
    requires i < |threads| && InHand(threads, a)
    requires HasRegistered(threads[i]) && threads[i].addr == a ==> HasRegistered(pc) && pc.addr == a
    ensures InHand(threads[i := pc], a)
  {
    var j :| 0 <= j < |threads| && HasRegistered(threads[j]) && threads[j].addr == a;
    assert HasRegistered(threads[i := pc][j]);
  }

  lemma NowInHand(threads: seq<Pc>, i: nat, pc: Pc)
    requires i < |threads| && HasRegistered(pc)
    ensures InHand(threads[i := pc], pc.addr)
  {
    assert HasRegistered(threads[i := pc][i]);
  }

  lemma StepKeepsNoStray(s: Sys, i: nat, c: Choice)
    requires NoStray(s) && Enabled(s, i, c)
    ensures NoStray(Step(s, i, c))
  {
    hide InHand;
    var t := Step(s, i, c);
    forall a | a in t.blocks && a !in t.owned ensures InHand(t.threads, a) {
      var pc := t.threads[i];
      if HasRegistered(pc) && pc.addr == a {
        NowInHand(s.threads, i, pc);
      } else {
        StillInHand(s.threads, i, pc, a);
      }
    }
  }

  // ------------------------------------------------------- nothing is leaked

  /** Some call works on the block. */
  ghost predicate AtWork(threads: seq<Pc>, a: nat) {
    exists i :: 0 <= i < |threads| && !threads[i].Idle? && threads[i].addr == a
  }

  /** Every block that libc has handed out is a client's, or some call works on it. */
  ghost predicate NoLeak(s: Sys) {
    forall a :: a in s.held ==> a in s.owned || AtWork(s.threads, a)
  }

  lemma StillAtWork(threads: seq<Pc>, i: nat, pc: Pc, a: nat)
    requires i < |threads| && AtWork(threads, a)
    requires !threads[i].Idle? && threads[i].addr == a ==> !pc.Idle? && pc.addr == a
    ensures AtWork(threads[i := pc], a)
  {
    var j :| 0 <= j < |threads| && !threads[j].Idle? && threads[j].addr == a;
    assert !threads[i := pc][j].Idle?;
  }

  lemma NowAtWork(threads: seq<Pc>, i: nat, pc: Pc)
    requires i < |threads| && !pc.Idle?
    ensures AtWork(threads[i := pc], pc.addr)
  {
    assert !threads[i := pc][i].Idle?;
  }

  lemma StepKeepsNoLeak(s: Sys, i: nat, c: Choice)
    requires NoLeak(s) && Enabled(s, i, c)
    ensures NoLeak(Step(s, i, c))
  {
    hide AtWork;
    var t := Step(s, i, c);
    forall a | a in t.held && a !in t.owned ensures AtWork(t.threads, a) {
      var pc := t.threads[i];
      if !pc.Idle? && pc.addr == a {
        NowAtWork(s.threads, i, pc);
      } else {
        StillAtWork(s.threads, i, pc, a);
      }
    }
  }

  lemma IdleLeaksNothing(s: Sys)
    requires NoLeak(s) && s.owned <= s.held && forall pc :: pc in s.threads ==> pc.Idle?
    ensures s.held == s.owned
  {
    forall i | 0 <= i < |s.threads| ensures s.threads[i].Idle? { assert s.threads[i] in s.threads; }
    assert forall a :: !AtWork(s.threads, a);
  }

  // ---------------------------------------------------------- consequences

  /** The pending additions are all of blocks in the registry, so they never exceed its count and total. */
  lemma {:induction false} PendingFits(threads: seq<Pc>, blocks: map<nat, Block>)
    requires forall i :: 0 <= i < |threads| && (threads[i].Registered? || threads[i].CountedOnce?) ==>
               threads[i].addr in blocks && blocks[threads[i].addr].size == threads[i].size
    requires forall i, j :: 0 <= i < j < |threads| ==> Apart(threads[i], threads[j])
    ensures Sum(threads, AddBlocks) <= |blocks| && Sum(threads, AddBytes) <= TotalSize(blocks)
    decreases |threads|
  {
    if threads != [] {
      var n := |threads| - 1;
      var pc := threads[n];
      if pc.Registered? || pc.CountedOnce? {
        forall i | 0 <= i < n ensures Apart(threads[i], pc) { assert Apart(threads[i], threads[n]); }
        TotalWithout(blocks, pc.addr);
        SizeWithout(blocks, pc.addr);
        PendingFits(threads[..n], blocks - {pc.addr});
      } else {
        PendingFits(threads[..n], blocks);
      }
    }
  }

  /** No interleaving lets a live counter go below zero, not even at the step that lowers it. */
  lemma NeverUnderflows(s: Sys, i: nat)
    requires Inv(s) && i < |s.threads|
    ensures s.liveBlocks >= SubBlocks(s.threads[i]) && s.liveBytes >= SubBytes(s.threads[i])
  {
    hide Sum, TotalSize;
    forall j | 0 <= j < |s.threads| ensures Holds(s, s.threads[j]) { HeldBy(s, j); }
    PendingFits(s.threads, s.blocks);
    SumAtLeast(s.threads, SubBlocks, i);
    SumAtLeast(s.threads, SubBytes, i);
  }

  /** What one step by any thread leaves of a client's block, unless that client passes it to free. */
  lemma OwnedStep(s: Sys, i: nat, c: Choice, addr: nat)
    requires Inv(s) && Enabled(s, i, c) && addr in s.owned && c != CallFree(addr)
    ensures addr in s.blocks && addr in Step(s, i, c).owned
    ensures addr in Step(s, i, c).blocks && Step(s, i, c).blocks[addr] == s.blocks[addr]
  {
    hide Accounted, DistinctIds;
    HeldBy(s, i);
  }

  /** From its return until its free begins, a block stays a client's and stays tracked, with its own size and identity, whatever
      any number of threads do in between. */
  lemma {:induction false} OwnedStaysTracked(s: Sys, moves: seq<(nat, Choice)>, addr: nat)
    requires Inv(s) && addr in s.owned && forall m :: m in moves ==> m.1 != CallFree(addr)
    ensures var t := After(s, moves);
            addr in s.blocks && addr in t.owned && addr in t.blocks && t.blocks[addr] == s.blocks[addr]
    decreases |moves|
  {
    hide Step, Accounted, DistinctIds;
    if moves != [] && Enabled(s, moves[0].0, moves[0].1) {
      assert moves[0] in moves;
      OwnedStep(s, moves[0].0, moves[0].1, addr);
      StepKeepsInv(s, moves[0].0, moves[0].1);
      OwnedStaysTracked(Step(s, moves[0].0, moves[0].1), moves[1..], addr);
    }
  }

  /** In every interleaving: registering adds an entry with the next identity and never overwrites one, and a block that is returned is in the
      registry with the size that was asked for. */
  lemma RegistersNewKey(n: nat, moves: seq<(nat, Choice)>, i: nat)
    requires Enabled(After(Boot(n), moves), i, Continue)
    ensures var s := After(Boot(n), moves);
            var t := Step(s, i, Continue);
            && (s.threads[i].Answered? ==>
                  s.threads[i].addr !in s.blocks && |t.blocks| == |s.blocks| + 1
                  && s.threads[i].addr in t.blocks && t.blocks[s.threads[i].addr] == Block(s.threads[i].size, s.nextId)
                  && t.nextId == s.nextId + 1
                  && forall a :: a in s.blocks ==> a in t.blocks && t.blocks[a] == s.blocks[a])
            && (s.threads[i].CountedOnce? ==>
                  s.threads[i].addr in t.owned && s.threads[i].addr in t.blocks
                  && t.blocks[s.threads[i].addr].size == s.threads[i].size)
  {
    hide Accounted, DistinctIds, After;
    BootInv(n);
    AfterKeepsInv(Boot(n), moves);
    HeldBy(After(Boot(n), moves), i);
  }

  /** That rests on the order in `free`. Were a block given back to libc while it is still registered, libc could answer a
      `malloc` with it, and registering would overwrite the entry and its identity. */
  lemma ReleasedFirstOverwrites(s: Sys, i: nat, addr: nat, size: nat)
    requires DistinctIds(s.blocks, s.nextId) && i < |s.threads| && s.threads[i].Idle?
    requires addr in s.blocks && addr !in s.held && IsLive(addr)
    ensures Enabled(s, i, CallMalloc(size, addr)) && Enabled(Step(s, i, CallMalloc(size, addr)), i, Continue)
    ensures var t := Step(Step(s, i, CallMalloc(size, addr)), i, Continue);
            addr in t.blocks && t.blocks[addr] == Block(size, s.nextId) && t.blocks[addr].id != s.blocks[addr].id
            && |t.blocks| == |s.blocks|
  {
    assert s.blocks[addr := Block(size, s.nextId)].Keys == s.blocks.Keys;
    SizeIsKeys(s.blocks);
    SizeIsKeys(s.blocks[addr := Block(size, s.nextId)]);
  }

  lemma SizeIsKeys(m: map<nat, Block>)
    ensures |m| == |m.Keys|
  {
  }

  /** When every thread is idle, the counters are exact. */
  lemma {:induction false} IdleSums(threads: seq<Pc>)
    requires forall pc :: pc in threads ==> pc.Idle?
    ensures Sum(threads, AddBlocks) == 0 && Sum(threads, SubBlocks) == 0
    ensures Sum(threads, AddBytes) == 0 && Sum(threads, SubBytes) == 0
    decreases |threads|
  {
    if threads != [] {
      assert threads[|threads| - 1] in threads;
      IdleSums(threads[..|threads| - 1]);
    }
  }

  lemma IdleOwned(s: Sys)
    requires NoStray(s) && s.owned <= s.blocks.Keys && forall pc :: pc in s.threads ==> pc.Idle?
    ensures s.blocks.Keys == s.owned
  {
    forall i | 0 <= i < |s.threads| ensures !HasRegistered(s.threads[i]) {
      assert s.threads[i] in s.threads;
    }
    assert forall a :: !InHand(s.threads, a);
  }

  // ------------------------------------------------------------------ runs

  function Boot(n: nat): Sys {
    Sys(map[], {}, {}, 0, 0, 1, seq(n, _ => Idle))
  }

  function After(s: Sys, moves: seq<(nat, Choice)>): Sys
    decreases |moves|
  {
    if moves == [] || !Enabled(s, moves[0].0, moves[0].1) then s
    else After(Step(s, moves[0].0, moves[0].1), moves[1..])
  }

  lemma {:induction false} AfterKeepsInv(s: Sys, moves: seq<(nat, Choice)>)
    requires Inv(s) && NoStray(s) && NoLeak(s)
    ensures Inv(After(s, moves)) && NoStray(After(s, moves)) && NoLeak(After(s, moves))
    decreases |moves|
  {
    hide Inv, NoStray, NoLeak, Step;
    if moves != [] && Enabled(s, moves[0].0, moves[0].1) {
      StepKeepsInv(s, moves[0].0, moves[0].1);
      StepKeepsNoStray(s, moves[0].0, moves[0].1);
      StepKeepsNoLeak(s, moves[0].0, moves[0].1);
      AfterKeepsInv(Step(s, moves[0].0, moves[0].1), moves[1..]);
    }
  }

  lemma BootInv(n: nat)
    ensures Inv(Boot(n)) && NoStray(Boot(n)) && NoLeak(Boot(n))
  {
    IdleSums(Boot(n).threads);
  }

  /** Every interleaving of any number of threads: the counters are the registry's up to what is pending,
      and exact whenever all threads are idle; and then libc has every block back that is not a client's. */
  lemma EveryInterleaving(n: nat, moves: seq<(nat, Choice)>)
    ensures var s := After(Boot(n), moves);
            && Inv(s) && s.owned <= s.blocks.Keys && s.liveBlocks >= 0 && s.liveBytes >= 0
            && ((forall pc :: pc in s.threads ==> pc.Idle?) ==>
                  s.held == s.blocks.Keys == s.owned && s.liveBlocks == |s.blocks| && s.liveBytes == TotalSize(s.blocks))
  {
    hide Step;
    BootInv(n);
    AfterKeepsInv(Boot(n), moves);
    var s := After(Boot(n), moves);
    if |s.threads| > 0 {
      NeverUnderflows(s, 0);
    }
    if forall pc :: pc in s.threads ==> pc.Idle? {
      IdleSums(s.threads);
      IdleOwned(s);
      IdleLeaksNothing(s);
    }
  }

  // ---------------------------------------------------- what a call achieves

  /** How many of its own steps a thread is away from being idle. */
  function StepsLeft(pc: Pc): nat {
    match pc
    case Idle => 0
    case Answered(_, _) => 3
    case Registered(_, _) => 2
    case CountedOnce(_, _) => 1
    case FreeCalled(_) => 4
    case Removed(_, _) => 3
    case LoweredOnce(_, _) => 2
    case Releasing(_) => 1
  }

  predicate Allocates(pc: Pc) {
    pc.Answered? || pc.Registered? || pc.CountedOnce?
  }

  /** The same call, further on: an allocation of the same size at the same address, or a free of the same address. */
  predicate SameCall(p: Pc, q: Pc) {
    && !p.Idle? && !q.Idle? && p.addr == q.addr && Allocates(p) == Allocates(q)
    && (Allocates(p) ==> p.size == q.size)
  }

  predicate AllEnabled(s: Sys, moves: seq<(nat, Choice)>)
    decreases |moves|
  {
    moves == [] || (Enabled(s, moves[0].0, moves[0].1) && AllEnabled(Step(s, moves[0].0, moves[0].1), moves[1..]))
  }

  /** How many of the moves are this thread's. */
  function Own(moves: seq<(nat, Choice)>, i: nat): nat {
    if moves == [] then 0 else (if moves[0].0 == i then 1 else 0) + Own(moves[1..], i)
  }

  lemma OneStep(s: Sys, j: nat, c: Choice, i: nat)
    requires Inv(s) && Enabled(s, j, c) && i < |s.threads|
    requires i == j ==> StepsLeft(s.threads[i]) > 1
    ensures var t := Step(s, j, c);
            && |t.threads| == |s.threads| && (i != j ==> t.threads[i] == s.threads[i])
            && (i == j ==> SameCall(s.threads[i], t.threads[i]) && StepsLeft(t.threads[i]) == StepsLeft(s.threads[i]) - 1)
  {
    hide Accounted, DistinctIds;
    HeldBy(s, j);
  }

  /** A call makes its own steps one by one, whatever other threads do in between. */
  lemma {:induction false} CallGoesOn(s: Sys, moves: seq<(nat, Choice)>, i: nat)
    requires Inv(s) && AllEnabled(s, moves) && i < |s.threads| && Own(moves, i) < StepsLeft(s.threads[i])
    ensures var t := After(s, moves);
            && Inv(t) && i < |t.threads| && SameCall(s.threads[i], t.threads[i])
            && StepsLeft(t.threads[i]) == StepsLeft(s.threads[i]) - Own(moves, i)
    decreases |moves|
  {
    hide Step, Inv, Enabled;
    if moves != [] {
      OneStep(s, moves[0].0, moves[0].1, i);
      StepKeepsInv(s, moves[0].0, moves[0].1);
      CallGoesOn(Step(s, moves[0].0, moves[0].1), moves[1..], i);
    }
  }

  /** In every interleaving, a `malloc` is through after three more steps of its thread; then the client holds the block, which is
      registered with the size that was asked for. */
  lemma MallocDelivers(s: Sys, i: nat, size: nat, answer: nat, moves: seq<(nat, Choice)>)
    requires Inv(s) && Enabled(s, i, CallMalloc(size, answer)) && Own(moves, i) == 2
    requires AllEnabled(Step(s, i, CallMalloc(size, answer)), moves)
    ensures var t := After(Step(s, i, CallMalloc(size, answer)), moves);
            && Enabled(t, i, Continue)
            && var u := Step(t, i, Continue);
               u.threads[i].Idle? && answer in u.owned && answer in u.blocks && u.blocks[answer].size == size
  {
    hide Accounted, DistinctIds, After, AllEnabled;
    StepKeepsInv(s, i, CallMalloc(size, answer));
    CallGoesOn(Step(s, i, CallMalloc(size, answer)), moves, i);
    HeldBy(After(Step(s, i, CallMalloc(size, answer)), moves), i);
  }

  /** In every interleaving, a `free` is through after four more steps of its thread; then libc has the block back, and it is neither
      registered nor a client's. */
  lemma FreeReleases(s: Sys, i: nat, addr: nat, moves: seq<(nat, Choice)>)
    requires Inv(s) && Enabled(s, i, CallFree(addr)) && Own(moves, i) == 3
    requires AllEnabled(Step(s, i, CallFree(addr)), moves)
    ensures var t := After(Step(s, i, CallFree(addr)), moves);
            && Enabled(t, i, Continue)
            && var u := Step(t, i, Continue);
               u.threads[i].Idle? && addr !in u.held && addr !in u.blocks && addr !in u.owned
  {
    hide Accounted, DistinctIds, After, AllEnabled;
    StepKeepsInv(s, i, CallFree(addr));
    CallGoesOn(Step(s, i, CallFree(addr)), moves, i);
    HeldBy(After(Step(s, i, CallFree(addr)), moves), i);
  }
}
