/** After a scan: successful `%m` results move from libc's allocator to the program's. */
module ScanfRehome {
  import opened ScanfFormat
  import opened WscanfFormat

  datatype Owner = Libc | Custom

  /** A heap block: who allocated it, and its characters or wide characters. */
  datatype Chunk = Chunk(owner: Owner, data: seq<int>)

  /** What happens to a pointer slot or to a libc block, in order. */
  datatype Event = Redirect(slot: nat, from: nat, to: nat) | LibcFree(ptr: nat)

  /** Pointer slots by address (0 is the null pointer), heap blocks by address, and the history. */
  datatype Memory = Memory(slots: map<nat, nat>, blocks: map<nat, Chunk>, history: seq<Event>)

  // ---------------------------------------------------------------- cloning

  /** `strlen` and `wcslen`. */
  function Strlen(data: seq<int>): (n: nat)
    requires 0 in data
    ensures n < |data| && data[n] == 0 && forall i :: 0 <= i < n ==> data[i] != 0
  {
    if data[0] == 0 then 0 else 1 + Strlen(data[1..])
  }

  /** The block has what its mode reads: a terminator, or as many elements as the width. */
  predicate Readable(mode: Mode, width: nat, data: seq<int>) {
    match mode
    case CharString => 0 in data
    case WideString => 0 in data
    case CharCount => width <= |data|
    case WideCount => width <= |data|
    case UnsupportedWideCharCount => true
  }

  /** The copy that a mode makes: through the first NUL, or exactly `width` elements. */
  function Clone(mode: Mode, width: nat, data: seq<int>): seq<int>
    requires Readable(mode, width, data)
  {
    match mode
    case CharString => data[..Strlen(data) + 1]
    case WideString => data[..Strlen(data) + 1]
    case CharCount => data[..width]
    case WideCount => data[..width]
    case UnsupportedWideCharCount => []
  }

  // ------------------------------------------------------------- one record

  /** The pointer in a slot is worth moving, and can be moved. */
  predicate Movable(m: Memory, r: Record, ready: bool) {
    && r.slot in m.slots && m.slots[r.slot] != 0 && ready
    && m.slots[r.slot] in m.blocks && m.blocks[m.slots[r.slot]].owner == Libc
    && r.mode != UnsupportedWideCharCount
    && Readable(r.mode, r.width, m.blocks[m.slots[r.slot]].data)
  }

  /** `ao_rehome_scanf_record`, with `malloc`'s answer for the copy (0 when it fails). */
  function RehomeOne(m: Memory, r: Record, ready: bool, answer: nat): Memory {
    if !Movable(m, r, ready) || answer == 0 then m
    else
      var original := m.slots[r.slot];
      Memory(m.slots[r.slot := answer],
             m.blocks[answer := Chunk(Custom, Clone(r.mode, r.width, m.blocks[original].data))] - {original},
             m.history + [Redirect(r.slot, original, answer), LibcFree(original)])
  }

  // --------------------------------------------------------------- the plan

  /** `ao_rehome_scanf_plan`: stop at the first record behind the matches. `answers[i]` is `malloc`'s answer for record `i`. */
  function RehomePlan(m: Memory, plan: seq<Record>, matches: int, ready: bool, answers: seq<nat>): Memory
    requires |answers| == |plan|
    decreases |plan|
  {
    if plan == [] || plan[0].ordinal > matches then m
    else RehomePlan(RehomeOne(m, plan[0], ready, answers[0]), plan[1..], matches, ready, answers[1..])
  }

  /** Every record whose conversion matched, and no other. */
  function RehomeMatched(m: Memory, plan: seq<Record>, matches: int, ready: bool, answers: seq<nat>): Memory
    requires |answers| == |plan|
    decreases |plan|
  {
    if plan == [] then m
    else RehomeMatched(if plan[0].ordinal <= matches then RehomeOne(m, plan[0], ready, answers[0]) else m,
                       plan[1..], matches, ready, answers[1..])
  }

  lemma {:induction false} NoneMatched(m: Memory, plan: seq<Record>, matches: int, ready: bool, answers: seq<nat>)
    requires |answers| == |plan| && forall i :: 0 <= i < |plan| ==> plan[i].ordinal > matches
    ensures RehomeMatched(m, plan, matches, ready, answers) == m
    decreases |plan|
  {
    if plan != [] { NoneMatched(m, plan[1..], matches, ready, answers[1..]); }
  }

  /** Ordinals increase, so stopping early is the same as passing over every record that did not match. */
  lemma {:induction false} BreakIsFilter(m: Memory, plan: seq<Record>, matches: int, ready: bool, answers: seq<nat>, above: nat)
    requires |answers| == |plan| && Increasing(plan, above)
    ensures RehomePlan(m, plan, matches, ready, answers) == RehomeMatched(m, plan, matches, ready, answers)
    decreases |plan|
  {
    if plan != [] {
      if plan[0].ordinal > matches {
        NoneMatched(m, plan, matches, ready, answers);
      } else {
        BreakIsFilter(RehomeOne(m, plan[0], ready, answers[0]), plan[1..], matches, ready, answers[1..], plan[0].ordinal);
      }
    }
  }

  // ------------------------------------------------- the state it works on

  /** The records whose conversion matched have different slots, which hold null or different live blocks, each readable in
      its mode. The slots of the others hold whatever the caller left there. */
  ghost predicate Separate(m: Memory, plan: seq<Record>, matches: int) {
    && (forall i :: 0 <= i < |plan| && plan[i].ordinal <= matches ==> Holds(m, plan[i]))
    && (forall i, j :: 0 <= i < j < |plan| && plan[i].ordinal <= matches && plan[j].ordinal <= matches ==>
          Apart(m, plan[i], plan[j]))
  }

  predicate Holds(m: Memory, r: Record) {
    && r.slot in m.slots
    && (m.slots[r.slot] == 0 ||
        (m.slots[r.slot] in m.blocks && Readable(r.mode, r.width, m.blocks[m.slots[r.slot]].data)))
  }

  predicate Apart(m: Memory, r: Record, s: Record) {
    && r.slot in m.slots && s.slot in m.slots && r.slot != s.slot
    && (m.slots[r.slot] == 0 || m.slots[r.slot] != m.slots[s.slot])
  }

  /** A new block from `malloc`: not where a block is. */
  predicate FreshAnswer(m: Memory, answer: nat) {
    answer == 0 || answer !in m.blocks
  }

  predicate AllFresh(m: Memory, plan: seq<Record>, matches: int, ready: bool, answers: seq<nat>)
    requires |answers| == |plan|
    decreases |plan|
  {
    plan == [] || plan[0].ordinal > matches ||
    (FreshAnswer(m, answers[0]) && AllFresh(RehomeOne(m, plan[0], ready, answers[0]), plan[1..], matches, ready, answers[1..]))
  }

  /** The rest of a plan behind a matched record: its records are elsewhere. */
  lemma RestApart(m: Memory, plan: seq<Record>, matches: int, i: nat)
    requires plan != [] && plan[0].ordinal <= matches && Separate(m, plan, matches)
    requires i < |plan| - 1 && plan[i + 1].ordinal <= matches
    ensures plan[1..][i] == plan[i + 1] && Holds(m, plan[0]) && Holds(m, plan[i + 1]) && Apart(m, plan[0], plan[i + 1])
  {
  }

  /** Moving one result disturbs neither the slots nor the blocks of the others. */
  lemma StepSeparate(m: Memory, plan: seq<Record>, matches: int, ready: bool, answer: nat)
    requires plan != [] && plan[0].ordinal <= matches && Separate(m, plan, matches) && FreshAnswer(m, answer)
    ensures Separate(RehomeOne(m, plan[0], ready, answer), plan[1..], matches)
  {
    var m', rest := RehomeOne(m, plan[0], ready, answer), plan[1..];
    forall i | 0 <= i < |rest| && rest[i].ordinal <= matches ensures Holds(m', rest[i]) && SameFor(m, m', rest[i]) {
      RestApart(m, plan, matches, i);
      OthersKept(m, plan[0], ready, answer, plan[i + 1]);
    }
    forall i, j | 0 <= i < j < |rest| && rest[i].ordinal <= matches && rest[j].ordinal <= matches
      ensures Apart(m', rest[i], rest[j])
    {
      assert Apart(m, plan[i + 1], plan[j + 1]);
      assert SameFor(m, m', rest[i]) && SameFor(m, m', rest[j]);
    }
  }

  /** A record's slot and the block it points to are the same in both states. */
  predicate SameFor(m: Memory, m': Memory, r: Record)
    requires r.slot in m.slots
  {
    && r.slot in m'.slots && m'.slots[r.slot] == m.slots[r.slot]
    && (m.slots[r.slot] != 0 && m.slots[r.slot] in m.blocks ==>
          m.slots[r.slot] in m'.blocks && m'.blocks[m.slots[r.slot]] == m.blocks[m.slots[r.slot]])
  }

  lemma OthersKept(m: Memory, r: Record, ready: bool, answer: nat, other: Record)
    requires Holds(m, r) && Holds(m, other) && Apart(m, r, other) && FreshAnswer(m, answer)
    ensures SameFor(m, RehomeOne(m, r, ready, answer), other) && Holds(RehomeOne(m, r, ready, answer), other)
  {
  }

  // ------------------------------------------------- where each result ends

  /** The record's result is moved: its slot leads to a copy that the program's allocator owns. */
  predicate Moves(m: Memory, r: Record, ready: bool, answer: nat) {
    Movable(m, r, ready) && answer != 0
  }

  /** A moved result is a clone in the program's allocator; any other slot and its block are as they were. */
  predicate SettledAs(m: Memory, m': Memory, r: Record, ready: bool, answer: nat)
    requires r.slot in m.slots
  {
    if Moves(m, r, ready, answer) then
      && r.slot in m'.slots && m'.slots[r.slot] == answer && answer in m'.blocks
      && m'.blocks[answer] == Chunk(Custom, Clone(r.mode, r.width, m.blocks[m.slots[r.slot]].data))
    else SameFor(m, m', r)
  }

  /** No matched record has this slot. */
  ghost predicate NotMatched(plan: seq<Record>, matches: int, slot: nat) {
    forall i :: 0 <= i < |plan| && plan[i].ordinal <= matches ==> plan[i].slot != slot
  }

  function WithSlot(m: Memory, slot: nat, value: nat): Memory {
    m.(slots := m.slots[slot := value])
  }

  /** A slot of no matched record is neither read nor written: whatever it holds, rehoming does the same and leaves it. */
  lemma {:induction false} UnmatchedUnread(m: Memory, plan: seq<Record>, matches: int, ready: bool, answers: seq<nat>, slot: nat, value: nat)
    requires |answers| == |plan| && NotMatched(plan, matches, slot)
    ensures RehomePlan(WithSlot(m, slot, value), plan, matches, ready, answers)
            == WithSlot(RehomePlan(m, plan, matches, ready, answers), slot, value)
    decreases |plan|
  {
    hide RehomeOne, WithSlot;
    if plan != [] && plan[0].ordinal <= matches {
      OneUnread(m, plan[0], ready, answers[0], slot, value);
      assert NotMatched(plan[1..], matches, slot);
      UnmatchedUnread(RehomeOne(m, plan[0], ready, answers[0]), plan[1..], matches, ready, answers[1..], slot, value);
    }
  }

  lemma OneUnread(m: Memory, r: Record, ready: bool, answer: nat, slot: nat, value: nat)
    requires r.slot != slot
    ensures RehomeOne(WithSlot(m, slot, value), r, ready, answer) == WithSlot(RehomeOne(m, r, ready, answer), slot, value)
  {
    hide Clone, Readable;
    assert r.slot in m.slots ==> WithSlot(m, slot, value).slots[r.slot] == m.slots[r.slot];
    if Movable(m, r, ready) && answer != 0 {
      assert m.slots[slot := value][r.slot := answer] == m.slots[r.slot := answer][slot := value];
    }
  }

  /** A slot of no matched record stays. */
  lemma SlotKept(m: Memory, plan: seq<Record>, matches: int, ready: bool, answers: seq<nat>, slot: nat)
    requires |answers| == |plan| && slot in m.slots && NotMatched(plan, matches, slot)
    ensures var m' := RehomePlan(m, plan, matches, ready, answers); slot in m'.slots && m'.slots[slot] == m.slots[slot]
  {
    UnmatchedUnread(m, plan, matches, ready, answers, slot, m.slots[slot]);
    assert WithSlot(m, slot, m.slots[slot]) == m;
  }

  /** None of the matched records points to the block. */
  ghost predicate NotPointed(m: Memory, plan: seq<Record>, matches: int, ptr: nat) {
    forall i :: 0 <= i < |plan| && plan[i].ordinal <= matches ==> plan[i].slot in m.slots && m.slots[plan[i].slot] != ptr
  }

  /** A block that none of the matched records points to stays. */
  lemma {:induction false} BlockKept(m: Memory, plan: seq<Record>, matches: int, ready: bool, answers: seq<nat>, ptr: nat)
    requires |answers| == |plan| && Separate(m, plan, matches) && AllFresh(m, plan, matches, ready, answers)
    requires ptr in m.blocks && NotPointed(m, plan, matches, ptr)
    ensures var m' := RehomePlan(m, plan, matches, ready, answers); ptr in m'.blocks && m'.blocks[ptr] == m.blocks[ptr]
    decreases |plan|
  {
    hide Separate, NotPointed;
    if plan != [] && plan[0].ordinal <= matches {
      StepSeparate(m, plan, matches, ready, answers[0]);
      BlockStep(m, plan, matches, ready, answers[0], ptr);
      BlockKept(RehomeOne(m, plan[0], ready, answers[0]), plan[1..], matches, ready, answers[1..], ptr);
    }
  }

  lemma BlockStep(m: Memory, plan: seq<Record>, matches: int, ready: bool, answer: nat, ptr: nat)
    requires plan != [] && plan[0].ordinal <= matches && Separate(m, plan, matches) && FreshAnswer(m, answer)
    requires ptr in m.blocks && NotPointed(m, plan, matches, ptr)
    ensures var m1 := RehomeOne(m, plan[0], ready, answer);
            ptr in m1.blocks && m1.blocks[ptr] == m.blocks[ptr] && NotPointed(m1, plan[1..], matches, ptr)
  {
    var m1, rest := RehomeOne(m, plan[0], ready, answer), plan[1..];
    forall i | 0 <= i < |rest| && rest[i].ordinal <= matches ensures rest[i].slot in m1.slots && m1.slots[rest[i].slot] != ptr {
      RestApart(m, plan, matches, i);
    }
    assert m.slots[plan[0].slot] != ptr;
  }

  lemma SettledFirst(m: Memory, plan: seq<Record>, matches: int, ready: bool, answers: seq<nat>)
    requires |answers| == |plan| && plan != [] && Separate(m, plan, matches) && AllFresh(m, plan, matches, ready, answers)
    requires plan[0].ordinal <= matches
    ensures plan[0].slot in m.slots && SettledAs(m, RehomePlan(m, plan, matches, ready, answers), plan[0], ready, answers[0])
  {
    hide Clone, Readable, AllFresh;
    FreshSteps(m, plan, matches, ready, answers);
    var r, rest := plan[0], plan[1..];
    var m1 := RehomeOne(m, r, ready, answers[0]);
    StepSeparate(m, plan, matches, ready, answers[0]);
    forall i | 0 <= i < |rest| && rest[i].ordinal <= matches ensures rest[i].slot != r.slot { RestApart(m, plan, matches, i); }
    SlotKept(m1, rest, matches, ready, answers[1..], r.slot);
    if Moves(m, r, ready, answers[0]) {
      AnswerNotPointed(m, plan, matches, ready, answers[0]);
      BlockKept(m1, rest, matches, ready, answers[1..], answers[0]);
    } else if m.slots[r.slot] != 0 && m.slots[r.slot] in m.blocks {
      OriginalNotPointed(m, plan, matches);
      BlockKept(m1, rest, matches, ready, answers[1..], m.slots[r.slot]);
    }
  }

  lemma FreshSteps(m: Memory, plan: seq<Record>, matches: int, ready: bool, answers: seq<nat>)
    requires |answers| == |plan| && plan != [] && plan[0].ordinal <= matches && AllFresh(m, plan, matches, ready, answers)
    ensures FreshAnswer(m, answers[0])
    ensures AllFresh(RehomeOne(m, plan[0], ready, answers[0]), plan[1..], matches, ready, answers[1..])
  {
  }

  lemma AnswerNotPointed(m: Memory, plan: seq<Record>, matches: int, ready: bool, answer: nat)
    requires plan != [] && plan[0].ordinal <= matches && Separate(m, plan, matches) && FreshAnswer(m, answer) && answer != 0
    ensures NotPointed(RehomeOne(m, plan[0], ready, answer), plan[1..], matches, answer)
  {
    var m1, rest := RehomeOne(m, plan[0], ready, answer), plan[1..];
    forall i | 0 <= i < |rest| && rest[i].ordinal <= matches ensures rest[i].slot in m1.slots && m1.slots[rest[i].slot] != answer {
      RestApart(m, plan, matches, i);
    }
  }

  lemma OriginalNotPointed(m: Memory, plan: seq<Record>, matches: int)
    requires plan != [] && plan[0].ordinal <= matches && Separate(m, plan, matches)
    requires plan[0].slot in m.slots && m.slots[plan[0].slot] != 0
    ensures NotPointed(m, plan[1..], matches, m.slots[plan[0].slot])
  {
    forall i | 0 <= i < |plan[1..]| && plan[1..][i].ordinal <= matches
      ensures plan[1..][i].slot in m.slots && m.slots[plan[1..][i].slot] != m.slots[plan[0].slot]
    {
      RestApart(m, plan, matches, i);
    }
  }

  lemma SettledTransfers(m: Memory, m1: Memory, m': Memory, r: Record, ready: bool, answer: nat)
    requires Holds(m, r) && SameFor(m, m1, r) && SettledAs(m1, m', r, ready, answer)
    ensures SettledAs(m, m', r, ready, answer)
  {
  }

  lemma {:induction false} PlanSettledAs(m: Memory, plan: seq<Record>, matches: int, ready: bool, answers: seq<nat>, above: nat, k: nat)
    requires |answers| == |plan| && Separate(m, plan, matches) && AllFresh(m, plan, matches, ready, answers)
    requires Increasing(plan, above) && k < |plan| && plan[k].ordinal <= matches
    ensures plan[k].slot in m.slots && SettledAs(m, RehomePlan(m, plan, matches, ready, answers), plan[k], ready, answers[k])
    decreases |plan|
  {
    hide AllFresh, SettledAs, RehomeOne, Apart;
    if k == 0 {
      SettledFirst(m, plan, matches, ready, answers);
    } else {
      var m1, rest := RehomeOne(m, plan[0], ready, answers[0]), plan[1..];
      assert plan[0].ordinal < plan[k].ordinal;
      FreshSteps(m, plan, matches, ready, answers);
      StepSeparate(m, plan, matches, ready, answers[0]);
      RestApart(m, plan, matches, k - 1);
      OthersKept(m, plan[0], ready, answers[0], plan[k]);
      PlanSettledAs(m1, rest, matches, ready, answers[1..], plan[0].ordinal, k - 1);
      SettledTransfers(m, m1, RehomePlan(m, plan, matches, ready, answers), plan[k], ready, answers[k]);
    }
  }

  /** The documented contents of a copy: a string is a prefix of the original that ends in its only NUL, characters are exactly
      the first `width` of the original. */
  predicate CopyOf(mode: Mode, width: nat, data: seq<int>, copy: seq<int>) {
    && copy <= data
    && (mode == CharString || mode == WideString ==>
          copy != [] && copy[|copy| - 1] == 0 && forall i :: 0 <= i < |copy| - 1 ==> copy[i] != 0)
    && (mode == CharCount || mode == WideCount ==> |copy| == width)
  }

  lemma CloneIsCopy(mode: Mode, width: nat, data: seq<int>)
    requires Readable(mode, width, data)
    ensures CopyOf(mode, width, data, Clone(mode, width, data))
  {
  }

  /** Only a block that is readable in its mode has such a copy. */
  lemma CopyNeedsReadable(mode: Mode, width: nat, data: seq<int>, copy: seq<int>)
    requires CopyOf(mode, width, data, copy)
    ensures Readable(mode, width, data)
  {
    if mode == CharString || mode == WideString { assert copy[|copy| - 1] in data; }
  }

  /** The slot holds a result of libc's, in a supported mode, and the copy could be allocated. */
  predicate Due(m: Memory, r: Record, ready: bool, answer: nat)
    requires r.slot in m.slots
  {
    var original := m.slots[r.slot];
    && original != 0 && original in m.blocks && m.blocks[original].owner == Libc
    && r.mode != UnsupportedWideCharCount && ready && answer != 0
  }

  /** A result that is due is a copy in the program's allocator; any other slot and its block are as they were. */
  predicate Settled(m: Memory, m': Memory, r: Record, ready: bool, answer: nat)
    requires r.slot in m.slots
  {
    if Due(m, r, ready, answer) then
      && r.slot in m'.slots && m'.slots[r.slot] == answer
      && answer in m'.blocks && m'.blocks[answer].owner == Custom
      && CopyOf(r.mode, r.width, m.blocks[m.slots[r.slot]].data, m'.blocks[answer].data)
    else SameFor(m, m', r)
  }

  lemma DueMoves(m: Memory, r: Record, ready: bool, answer: nat)
    requires Holds(m, r)
    ensures Due(m, r, ready, answer) == Moves(m, r, ready, answer)
  {
  }

  /** After rehoming, each slot of a matched conversion is settled: null stays null; a supported libc result whose copy could be
      allocated is owned by the program's allocator with the documented contents; everything else is as libc left it. */
  lemma PlanSettled(m: Memory, plan: seq<Record>, matches: int, ready: bool, answers: seq<nat>, above: nat, k: nat)
    requires |answers| == |plan| && Separate(m, plan, matches) && AllFresh(m, plan, matches, ready, answers)
    requires Increasing(plan, above) && k < |plan| && plan[k].ordinal <= matches
    ensures plan[k].slot in m.slots && Settled(m, RehomePlan(m, plan, matches, ready, answers), plan[k], ready, answers[k])
  {
    hide Clone, CopyOf, AllFresh, Apart, Increasing, RehomePlan;
    PlanSettledAs(m, plan, matches, ready, answers, above, k);
    assert Holds(m, plan[k]);
    DueMoves(m, plan[k], ready, answers[k]);
    if Moves(m, plan[k], ready, answers[k]) {
      CloneIsCopy(plan[k].mode, plan[k].width, m.blocks[m.slots[plan[k].slot]].data);
    }
  }

  // ------------------------------------------------------------ the history

  /** What rehoming does, told from the state before: for each moved result, redirect the slot, then free the block. */
  function Log(m: Memory, plan: seq<Record>, matches: int, ready: bool, answers: seq<nat>): seq<Event>
    requires |answers| == |plan|
    decreases |plan|
  {
    if plan == [] || plan[0].ordinal > matches then []
    else (if Moves(m, plan[0], ready, answers[0])
          then [Redirect(plan[0].slot, m.slots[plan[0].slot], answers[0]), LibcFree(m.slots[plan[0].slot])] else [])
         + Log(m, plan[1..], matches, ready, answers[1..])
  }

  /** The matched records of a plan find their slots and blocks as they were. */
  ghost predicate AllSame(m: Memory, m1: Memory, plan: seq<Record>, matches: int) {
    forall i :: 0 <= i < |plan| && plan[i].ordinal <= matches ==> Holds(m, plan[i]) && SameFor(m, m1, plan[i])
  }

  /** The log looks only at the matched records' own slots and blocks. */
  lemma {:induction false} LogSame(m: Memory, m1: Memory, plan: seq<Record>, matches: int, ready: bool, answers: seq<nat>)
    requires |answers| == |plan| && AllSame(m, m1, plan, matches)
    ensures Log(m, plan, matches, ready, answers) == Log(m1, plan, matches, ready, answers)
    decreases |plan|
  {
    hide Readable;
    if plan != [] && plan[0].ordinal <= matches {
      assert Holds(m, plan[0]) && SameFor(m, m1, plan[0]);
      forall i | 0 <= i < |plan[1..]| && plan[1..][i].ordinal <= matches
        ensures Holds(m, plan[1..][i]) && SameFor(m, m1, plan[1..][i])
      {
        assert plan[1..][i] == plan[i + 1];
      }
      LogSame(m, m1, plan[1..], matches, ready, answers[1..]);
    }
  }

  lemma RestSame(m: Memory, plan: seq<Record>, matches: int, ready: bool, answer: nat)
    requires plan != [] && plan[0].ordinal <= matches && Separate(m, plan, matches) && FreshAnswer(m, answer)
    ensures AllSame(m, RehomeOne(m, plan[0], ready, answer), plan[1..], matches)
  {
    hide Separate, RehomeOne;
    forall i | 0 <= i < |plan[1..]| && plan[1..][i].ordinal <= matches
      ensures Holds(m, plan[1..][i]) && SameFor(m, RehomeOne(m, plan[0], ready, answer), plan[1..][i])
    {
      RestApart(m, plan, matches, i);
      OthersKept(m, plan[0], ready, answer, plan[i + 1]);
    }
  }

  /** The history grows by exactly the log. */
  lemma {:induction false} HistoryIsLog(m: Memory, plan: seq<Record>, matches: int, ready: bool, answers: seq<nat>)
    requires |answers| == |plan| && Separate(m, plan, matches) && AllFresh(m, plan, matches, ready, answers)
    ensures RehomePlan(m, plan, matches, ready, answers).history == m.history + Log(m, plan, matches, ready, answers)
    decreases |plan|
  {
    hide Separate, SameFor, Movable, Clone, Holds, AllSame;
    if plan == [] || plan[0].ordinal > matches {
    } else {
      var m1, rest := RehomeOne(m, plan[0], ready, answers[0]), plan[1..];
      StepSeparate(m, plan, matches, ready, answers[0]);
      RestSame(m, plan, matches, ready, answers[0]);
      LogSame(m, m1, rest, matches, ready, answers[1..]);
      HistoryIsLog(m1, rest, matches, ready, answers[1..]);
    }
  }

  /** The block that some matched record points to. */
  ghost predicate PointedTo(m: Memory, plan: seq<Record>, matches: int, ptr: nat) {
    exists i :: 0 <= i < |plan| && plan[i].ordinal <= matches && plan[i].slot in m.slots && m.slots[plan[i].slot] == ptr
  }

  /** Every free follows the redirection of the slot that led to the block, and no block is freed twice. */
  ghost predicate FreesInOrder(log: seq<Event>) {
    && (forall i :: 0 <= i < |log| && log[i].LibcFree? ==> i > 0 && log[i - 1].Redirect? && log[i - 1].from == log[i].ptr)
    && (forall i, j :: 0 <= i < j < |log| && log[i].LibcFree? && log[j].LibcFree? ==> log[i].ptr != log[j].ptr)
  }

  lemma FreesInOrderCons(slot: nat, ptr: nat, answer: nat, log: seq<Event>)
    requires FreesInOrder(log) && forall i :: 0 <= i < |log| && log[i].LibcFree? ==> log[i].ptr != ptr
    ensures FreesInOrder([Redirect(slot, ptr, answer), LibcFree(ptr)] + log)
  {
    var both := [Redirect(slot, ptr, answer), LibcFree(ptr)] + log;
    assert forall i :: 2 <= i < |both| ==> both[i] == log[i - 2];
  }

  lemma {:induction false} LogInOrder(m: Memory, plan: seq<Record>, matches: int, ready: bool, answers: seq<nat>)
    requires |answers| == |plan| && Separate(m, plan, matches)
    ensures FreesInOrder(Log(m, plan, matches, ready, answers))
    ensures forall e :: e in Log(m, plan, matches, ready, answers) && e.LibcFree? ==>
              e.ptr != 0 && PointedTo(m, plan, matches, e.ptr)
    decreases |plan|
  {
    hide Readable, Separate, PointedTo;
    if plan != [] && plan[0].ordinal <= matches {
      var rest := plan[1..];
      var tail := Log(m, rest, matches, ready, answers[1..]);
      SeparateRest(m, plan, matches);
      LogInOrder(m, rest, matches, ready, answers[1..]);
      forall e | e in tail && e.LibcFree? ensures PointedTo(m, plan, matches, e.ptr) && e.ptr != m.slots[plan[0].slot] {
        PointedRest(m, plan, matches, e.ptr);
      }
      if Moves(m, plan[0], ready, answers[0]) {
        PointedFirst(m, plan, matches);
        forall i | 0 <= i < |tail| && tail[i].LibcFree? ensures tail[i].ptr != m.slots[plan[0].slot] { assert tail[i] in tail; }
        FreesInOrderCons(plan[0].slot, m.slots[plan[0].slot], answers[0], tail);
      }
    }
  }

  /** The redirection and the free of a result that is due are in the log. */
  lemma {:induction false} LogHas(m: Memory, plan: seq<Record>, matches: int, ready: bool, answers: seq<nat>, above: nat, k: nat)
    requires |answers| == |plan| && Increasing(plan, above) && k < |plan| && plan[k].ordinal <= matches
    requires Moves(m, plan[k], ready, answers[k])
    ensures Redirect(plan[k].slot, m.slots[plan[k].slot], answers[k]) in Log(m, plan, matches, ready, answers)
    ensures LibcFree(m.slots[plan[k].slot]) in Log(m, plan, matches, ready, answers)
    decreases |plan|
  {
    hide Moves;
    assert k > 0 ==> plan[0].ordinal < plan[k].ordinal;
    if k > 0 { LogHas(m, plan[1..], matches, ready, answers[1..], plan[0].ordinal, k - 1); }
  }

  /** A block that is gone comes back only as a block of the program's. */
  lemma {:induction false} NotBack(m: Memory, plan: seq<Record>, matches: int, ready: bool, answers: seq<nat>, ptr: nat)
    requires |answers| == |plan| && ptr !in m.blocks && ptr !in answers
    ensures ptr !in RehomePlan(m, plan, matches, ready, answers).blocks
    decreases |plan|
  {
    hide Movable, Clone;
    if plan != [] && plan[0].ordinal <= matches {
      assert answers[0] in answers && forall a :: a in answers[1..] ==> a in answers;
      NotBack(RehomeOne(m, plan[0], ready, answers[0]), plan[1..], matches, ready, answers[1..], ptr);
    }
  }

  /** The original of a moved result is gone, unless `malloc` has handed its address out again. */
  lemma {:induction false} OriginalGone(m: Memory, plan: seq<Record>, matches: int, ready: bool, answers: seq<nat>, above: nat, k: nat)
    requires |answers| == |plan| && Separate(m, plan, matches) && AllFresh(m, plan, matches, ready, answers)
    requires Increasing(plan, above) && k < |plan| && plan[k].ordinal <= matches
    requires Moves(m, plan[k], ready, answers[k]) && m.slots[plan[k].slot] !in answers
    ensures m.slots[plan[k].slot] !in RehomePlan(m, plan, matches, ready, answers).blocks
    decreases |plan|
  {
    hide AllFresh, Apart, Clone, Readable;
    var m1, rest := RehomeOne(m, plan[0], ready, answers[0]), plan[1..];
    assert forall a :: a in answers[1..] ==> a in answers;
    if k == 0 {
      NotBack(m1, rest, matches, ready, answers[1..], m.slots[plan[k].slot]);
    } else {
      assert plan[0].ordinal < plan[k].ordinal;
      FreshSteps(m, plan, matches, ready, answers);
      StepSeparate(m, plan, matches, ready, answers[0]);
      RestApart(m, plan, matches, k - 1);
      OthersKept(m, plan[0], ready, answers[0], plan[k]);
      OriginalGone(m1, rest, matches, ready, answers[1..], plan[0].ordinal, k - 1);
    }
  }

  /** A result that is due is freed: its slot's redirection and its free happen, and its block is gone. */
  lemma DueIsFreed(m: Memory, plan: seq<Record>, matches: int, ready: bool, answers: seq<nat>, above: nat, k: nat)
    requires |answers| == |plan| && Separate(m, plan, matches) && AllFresh(m, plan, matches, ready, answers)
    requires Increasing(plan, above) && k < |plan| && plan[k].ordinal <= matches
    ensures plan[k].slot in m.slots
    ensures Due(m, plan[k], ready, answers[k]) ==>
              Freed(m, RehomePlan(m, plan, matches, ready, answers), plan[k], answers, answers[k])
  {
    hide AllFresh, Apart, Moves, RehomePlan, Log, Due;
    assert Holds(m, plan[k]);
    DueMoves(m, plan[k], ready, answers[k]);
    if Due(m, plan[k], ready, answers[k]) {
      HistoryIsLog(m, plan, matches, ready, answers);
      LogHas(m, plan, matches, ready, answers, above, k);
      if m.slots[plan[k].slot] !in answers { OriginalGone(m, plan, matches, ready, answers, above, k); }
    }
  }

  ghost predicate Freed(m: Memory, m': Memory, r: Record, answers: seq<nat>, answer: nat)
    requires r.slot in m.slots
  {
    var original := m.slots[r.slot];
    && m.history <= m'.history
    && Redirect(r.slot, original, answer) in m'.history[|m.history|..] && LibcFree(original) in m'.history[|m.history|..]
    && (original !in answers ==> original !in m'.blocks)
  }

  lemma PointedFirst(m: Memory, plan: seq<Record>, matches: int)
    requires plan != [] && plan[0].ordinal <= matches && plan[0].slot in m.slots
    ensures PointedTo(m, plan, matches, m.slots[plan[0].slot])
  {
  }

  lemma SeparateRest(m: Memory, plan: seq<Record>, matches: int)
    requires plan != [] && plan[0].ordinal <= matches && Separate(m, plan, matches)
    ensures Separate(m, plan[1..], matches) && Holds(m, plan[0])
  {
    var rest := plan[1..];
    forall i | 0 <= i < |rest| && rest[i].ordinal <= matches ensures Holds(m, rest[i]) { RestApart(m, plan, matches, i); }
    forall i, j | 0 <= i < j < |rest| && rest[i].ordinal <= matches && rest[j].ordinal <= matches
      ensures Apart(m, rest[i], rest[j])
    {
      assert Apart(m, plan[i + 1], plan[j + 1]);
    }
  }

  lemma PointedRest(m: Memory, plan: seq<Record>, matches: int, ptr: nat)
    requires plan != [] && plan[0].ordinal <= matches && Separate(m, plan, matches)
    requires PointedTo(m, plan[1..], matches, ptr) && ptr != 0
    ensures PointedTo(m, plan, matches, ptr) && plan[0].slot in m.slots && ptr != m.slots[plan[0].slot]
  {
    var i :| 0 <= i < |plan[1..]| && plan[1..][i].ordinal <= matches && plan[1..][i].slot in m.slots && m.slots[plan[1..][i].slot] == ptr;
    RestApart(m, plan, matches, i);
  }

  /** Ownership transfer as a whole: each libc block is freed at most once, only right after its slot was redirected, and only if
      a matched conversion stored it. */
  lemma EachFreedOnceAfterRedirect(m: Memory, plan: seq<Record>, matches: int, ready: bool, answers: seq<nat>)
    requires |answers| == |plan| && Separate(m, plan, matches) && AllFresh(m, plan, matches, ready, answers)
    ensures var h := RehomePlan(m, plan, matches, ready, answers).history;
            && m.history <= h && FreesInOrder(h[|m.history|..])
            && forall e :: e in h[|m.history|..] && e.LibcFree? ==> PointedTo(m, plan, matches, e.ptr)
  {
    HistoryIsLog(m, plan, matches, ready, answers);
    LogInOrder(m, plan, matches, ready, answers);
    assert RehomePlan(m, plan, matches, ready, answers).history[|m.history|..] == Log(m, plan, matches, ready, answers);
  }

  /** Rehoming after a scan that matched `matches` conversions of a plan with increasing ordinals, from any memory in which the
      matched slots are as a scan leaves them: only matched conversions are rehomed, each of their slots ends as documented, no
      other slot is read or written, no other block changes, and each libc block that is copied is freed, none twice,
      and each right after its slot was redirected. */
  ghost predicate Rehomed(m: Memory, plan: seq<Record>, matches: int, ready: bool, answers: seq<nat>)
    requires |answers| == |plan|
  {
    var m' := RehomePlan(m, plan, matches, ready, answers);
    && m' == RehomeMatched(m, plan, matches, ready, answers)
    && (forall k :: 0 <= k < |plan| && plan[k].ordinal <= matches ==>
          plan[k].slot in m.slots && Settled(m, m', plan[k], ready, answers[k])
          && (Due(m, plan[k], ready, answers[k]) ==> Freed(m, m', plan[k], answers, answers[k])))
    && (forall slot, value :: NotMatched(plan, matches, slot) ==>
          RehomePlan(WithSlot(m, slot, value), plan, matches, ready, answers) == WithSlot(m', slot, value))
    && (forall ptr :: ptr in m.blocks && NotPointed(m, plan, matches, ptr) ==> ptr in m'.blocks && m'.blocks[ptr] == m.blocks[ptr])
    && m.history <= m'.history && FreesInOrder(m'.history[|m.history|..])
  }

  lemma PlanRehomed(m: Memory, plan: seq<Record>, matches: int, ready: bool, answers: seq<nat>)
    requires |answers| == |plan| && Increasing(plan, 0)
    requires Separate(m, plan, matches) && AllFresh(m, plan, matches, ready, answers)
    ensures Rehomed(m, plan, matches, ready, answers)
  {
    hide RehomePlan, RehomeMatched, AllFresh, Settled, Due, Freed, FreesInOrder, WithSlot, NotMatched, NotPointed, Separate;
    BreakIsFilter(m, plan, matches, ready, answers, 0);
    forall k | 0 <= k < |plan| && plan[k].ordinal <= matches
      ensures plan[k].slot in m.slots && Settled(m, RehomePlan(m, plan, matches, ready, answers), plan[k], ready, answers[k])
      ensures Due(m, plan[k], ready, answers[k]) ==>
                Freed(m, RehomePlan(m, plan, matches, ready, answers), plan[k], answers, answers[k])
    {
      PlanSettled(m, plan, matches, ready, answers, 0, k);
      DueIsFreed(m, plan, matches, ready, answers, 0, k);
    }
    forall slot: nat, value: nat | NotMatched(plan, matches, slot)
      ensures RehomePlan(WithSlot(m, slot, value), plan, matches, ready, answers)
              == WithSlot(RehomePlan(m, plan, matches, ready, answers), slot, value)
    {
      UnmatchedUnread(m, plan, matches, ready, answers, slot, value);
    }
    forall ptr | ptr in m.blocks && NotPointed(m, plan, matches, ptr)
      ensures var m' := RehomePlan(m, plan, matches, ready, answers); ptr in m'.blocks && m'.blocks[ptr] == m.blocks[ptr]
    {
      BlockKept(m, plan, matches, ready, answers, ptr);
    }
    EachFreedOnceAfterRedirect(m, plan, matches, ready, answers);
  }

  /** From a narrow format to its results. */
  lemma ScanThenRehome(format: string, sizeMax: nat, args: nat -> nat, m: Memory, matches: int, ready: bool, answers: seq<nat>)
    requires sizeMax >= 9
    requires var plan := Parse(format, sizeMax, args, 0, 0);
             |answers| == |plan| && Separate(m, plan, matches) && AllFresh(m, plan, matches, ready, answers)
    ensures Rehomed(m, Parse(format, sizeMax, args, 0, 0), matches, ready, answers)
  {
    hide Parse, Rehomed, Separate, AllFresh;
    PlanIncreases(format, sizeMax, args, 0, 0);
    PlanRehomed(m, Parse(format, sizeMax, args, 0, 0), matches, ready, answers);
  }

  /** From a wide format to its results. */
  lemma WideScanThenRehome(format: seq<nat>, sizeMax: nat, args: nat -> nat, m: Memory, matches: int, ready: bool, answers: seq<nat>)
    requires sizeMax >= 9
    requires var plan := ParseWide(format, sizeMax, args, 0, 0);
             |answers| == |plan| && Separate(m, plan, matches) && AllFresh(m, plan, matches, ready, answers)
    ensures Rehomed(m, ParseWide(format, sizeMax, args, 0, 0), matches, ready, answers)
  {
    hide ParseWide, Rehomed, Separate, AllFresh;
    WidePlanIncreases(format, sizeMax, args, 0, 0);
    PlanRehomed(m, ParseWide(format, sizeMax, args, 0, 0), matches, ready, answers);
  }

  // ----------------------------------------------------------- in place

  /** The process's memory, whose slots and blocks rehoming updates. */
  class Heap {
    var slots: map<nat, nat>
    var blocks: map<nat, Chunk>
    ghost var history: seq<Event>

    ghost function Now(): Memory
      reads this
    {
      Memory(slots, blocks, history)
    }

    /** `ao_rehome_scanf_record`. */
    method RehomeRecord(r: Record, ready: bool, answer: nat)
      requires Holds(Now(), r)
      modifies this
      ensures Now() == RehomeOne(old(Now()), r, ready, answer)
    {
      var original := slots[r.slot];
      if original == 0 || !ready || blocks[original].owner == Custom {
        return;
      }
      if r.mode == UnsupportedWideCharCount {
        return;
      }
      var copy := CloneData(r.mode, r.width, blocks[original].data);
      if answer == 0 {
        return;
      }
      slots := slots[r.slot := answer];
      history := history + [Redirect(r.slot, original, answer)];
      blocks := blocks[answer := Chunk(Custom, copy)] - {original};
      history := history + [LibcFree(original)];
    }

    /** `ao_rehome_scanf_plan`. */
    method RehomePlanned(plan: seq<Record>, matches: int, ready: bool, answers: seq<nat>)
      requires |answers| == |plan| && Separate(Now(), plan, matches) && AllFresh(Now(), plan, matches, ready, answers)
      modifies this
      ensures Now() == RehomePlan(old(Now()), plan, matches, ready, answers)
    {
      ghost var whole := RehomePlan(Now(), plan, matches, ready, answers);
      var i := 0;
      while i < |plan|
        invariant 0 <= i <= |plan|
        invariant Separate(Now(), plan[i..], matches) && AllFresh(Now(), plan[i..], matches, ready, answers[i..])
        invariant RehomePlan(Now(), plan[i..], matches, ready, answers[i..]) == whole
      {
        assert plan[i..][0] == plan[i] && plan[i..][1..] == plan[i + 1..];
        assert answers[i..][0] == answers[i] && answers[i..][1..] == answers[i + 1..];
        if plan[i].ordinal > matches {
          return;
        }
        FreshSteps(Now(), plan[i..], matches, ready, answers[i..]);
        StepSeparate(Now(), plan[i..], matches, ready, answers[i]);
        SeparateRest(Now(), plan[i..], matches);
        RehomeRecord(plan[i], ready, answers[i]);
        i := i + 1;
      }
    }
  }

  /** The clone helpers: `strlen` or `wcslen` and a copy through the NUL, or a copy of `width` elements. */
  method CloneData(mode: Mode, width: nat, data: seq<int>) returns (copy: seq<int>)
    requires Readable(mode, width, data)
    ensures copy == Clone(mode, width, data) && CopyOf(mode, width, data, copy)
  {
    match mode {
      case CharString =>
        var n := Length(data);
        copy := data[..n + 1];
      case WideString =>
        var n := Length(data);
        copy := data[..n + 1];
      case CharCount => copy := data[..width];
      case WideCount => copy := data[..width];
      case UnsupportedWideCharCount => copy := [];
    }
  }

  method Length(data: seq<int>) returns (n: nat)
    requires 0 in data
    ensures n == Strlen(data)
  {
    n := 0;
    while data[n] != 0
      invariant n <= Strlen(data)
      decreases |data| - n
    {
      n := n + 1;
    }
  }
}
