/** The mock allocator over its hash table and counters, once libc is known. Each entry point takes libc's
    answer as an argument and moves the books as `Books.Apply` says. */
module MockAllocator {
  import opened Registry
  import opened Books

  class Allocator {
    const registry: Table
    const sizeMax: nat
    var liveBlocks: nat
    var liveBytes: nat
    var nextId: nat
    var captureDepth: nat
    var stats: Stats
    ghost var held: set<nat>

    ghost function Now(): State
      requires registry.Valid()
      reads this, registry.slots
    {
      State(registry.Map(), held, liveBlocks, liveBytes, nextId, captureDepth, stats)
    }

    ghost predicate Valid()
      reads this, registry.slots
    {
      registry.Valid() && Balanced(Now())
    }

    /** No slot of the registry is free. */
    ghost predicate Full()
      reads registry.slots
    {
      AllLive(registry.slots[..])
    }

    constructor (bits: nat, sizeMax: nat)
      ensures Valid() && fresh(registry.slots) && Now() == FIRST && this.sizeMax == sizeMax
    {
      registry := new Table(bits);
      this.sizeMax := sizeMax;
      liveBlocks, liveBytes, nextId, captureDepth, stats, held := 0, 0, 1, 0, NO_STATS, {};
    }

    // ------------------------------------------------------- the recorders

    method RecordFailed()
      requires registry.Valid()
      modifies this`stats
      ensures Now() == RecordFailure(old(Now()))
    {
      if captureDepth > 0 {
        stats := stats.(failures := stats.failures + 1);
      }
    }

    method RecordSuccessful(kind: Kind, size: nat)
      requires registry.Valid()
      modifies this`stats
      ensures Now() == RecordSuccess(old(Now()), kind, size)
    {
      if captureDepth > 0 {
        match kind {
          case ByMalloc => stats := stats.(mallocs := stats.mallocs + 1);
          case ByCalloc => stats := stats.(callocs := stats.callocs + 1);
          case ByRealloc => stats := stats.(reallocs := stats.reallocs + 1);
        }
        stats := stats.(successes := stats.successes + 1, successBytes := stats.successBytes + size);
      }
    }

    method RecordReallocated(bypass: bool)
      requires registry.Valid()
      modifies this`stats
      ensures Now() == RecordRealloc(old(Now()), bypass)
    {
      if captureDepth > 0 {
        stats := stats.(reallocs := stats.reallocs + 1);
        if bypass {
          stats := stats.(bypassReallocs := stats.bypassReallocs + 1);
        }
      }
    }

    method RecordFreed(bypass: bool)
      requires registry.Valid()
      modifies this`stats
      ensures Now() == RecordFree(old(Now()), bypass)
    {
      if captureDepth > 0 {
        stats := stats.(frees := stats.frees + 1);
        if bypass {
          stats := stats.(bypassFrees := stats.bypassFrees + 1);
        }
      }
    }

    // ------------------------------------------------------- entry points

    /** `ao_track_allocation_or_die`: the process ends exactly when no slot is free. */
    method TrackOrDie(ptr: nat, size: nat) returns (alive: bool)
      requires Valid() && IsLive(ptr) && ptr !in held
      modifies this, registry.slots
      ensures registry.Valid() && (alive <==> !old(Full()))
      ensures alive ==> Now() == Track(old(Now()), ptr, size)
    {
      hide TotalSize, IdsDistinct;
      var id := nextId;
      nextId := nextId + 1;
      alive := registry.Insert(ptr, size, id);
      if alive {
        liveBlocks := liveBlocks + 1;
        liveBytes := liveBytes + size;
        held := held + {ptr};
      }
    }

    /** The common tail of `malloc`, `calloc` and `realloc(NULL, …)` after libc's answer. */
    method Allocated(kind: Kind, size: nat, answer: nat) returns (alive: bool)
      requires Valid() && FreshAnswer(Now(), answer)
      modifies this, registry.slots
      ensures alive <==> answer == 0 || !old(Full())
      ensures alive ==> Valid() && Now() == Allocate(old(Now()), kind, size, answer)
    {
      hide TotalSize, IdsDistinct, Track, RecordSuccess, RecordFailure;
      AllocateBalanced(Now(), kind, size, answer);
      alive := true;
      if answer == 0 {
        RecordFailed();
      } else {
        alive := TrackOrDie(answer, size);
        if alive {
          RecordSuccessful(kind, size);
        }
      }
    }

    method Malloc(size: nat, answer: nat) returns (alive: bool, ptr: nat)
      requires Valid() && Allowed(Now(), Op.Malloc(size, answer))
      modifies this, registry.slots
      ensures alive <==> answer == 0 || !old(Full())
      ensures alive ==> Valid() && ptr == answer && Now() == Apply(old(Now()), sizeMax, Op.Malloc(size, answer))
    {
      alive := Allocated(ByMalloc, size, answer);
      ptr := answer;
    }

    method Calloc(count: nat, size: nat, answer: nat) returns (alive: bool, ptr: nat)
      requires Valid() && Allowed(Now(), Op.Calloc(count, size, answer)) && size <= sizeMax
      modifies this, registry.slots
      ensures alive <==> count * size > sizeMax || answer == 0 || !old(Full())
      ensures alive ==> Valid() && ptr == (if count * size > sizeMax then 0 else answer)
      ensures alive ==> Now() == Apply(old(Now()), sizeMax, Op.Calloc(count, size, answer))
    {
      OverflowTest(count, size, sizeMax);
      if count != 0 && size > sizeMax / count {
        CountedBalanced(Now(), RecordFailure(Now()));
        RecordFailed();
        return true, 0;
      }
      alive := Allocated(ByCalloc, count * size, answer);
      ptr := answer;
    }

    /** `ao_mock_begin_capture`. */
    method StartCapture()
      requires Valid()
      modifies this`captureDepth
      ensures Valid() && Now() == Apply(old(Now()), sizeMax, BeginCapture)
    {
      hide Balanced;
      CountedBalanced(Now(), Apply(Now(), sizeMax, BeginCapture));
      captureDepth := captureDepth + 1;
    }

    /** `ao_mock_end_capture`: the depth never goes below zero. */
    method StopCapture()
      requires Valid()
      modifies this`captureDepth
      ensures Valid() && Now() == Apply(old(Now()), sizeMax, EndCapture)
    {
      hide Balanced;
      CountedBalanced(Now(), Apply(Now(), sizeMax, EndCapture));
      if captureDepth > 0 {
        captureDepth := captureDepth - 1;
      }
    }

    /** `ao_mock_reset`: the live counters stay. */
    method ResetStats()
      requires Valid()
      modifies this`stats
      ensures Valid() && Now() == Apply(old(Now()), sizeMax, Reset)
    {
      hide Balanced;
      CountedBalanced(Now(), Apply(Now(), sizeMax, Reset));
      stats := NO_STATS;
    }

    /** `free`: the block leaves the registry before libc gets it back. */
    method Free(ptr: nat)
      requires Valid() && Allowed(Now(), Op.Free(ptr))
      modifies this, registry.slots
      ensures Valid() && Now() == Apply(old(Now()), sizeMax, Op.Free(ptr))
    {
      hide Balanced, Release;
      if ptr != 0 {
        ReleaseBalanced(Now(), ptr);
        HeldIsLive(Now(), ptr);
        EnoughLive(Now(), ptr);
        FreeBlock(ptr);
      }
    }

    method FreeBlock(ptr: nat)
      requires registry.Valid() && IsLive(ptr)
      requires ptr in registry.Map() ==> liveBlocks >= 1 && liveBytes >= registry.Map()[ptr].size
      modifies this, registry.slots
      ensures registry.Valid() && Now() == Release(old(Now()), ptr)
    {
      hide RecordFree;
      FreedCommutes(Now(), Now().blocks - {ptr}, ptr !in Now().blocks);
      SameMap(Now().blocks, ptr);
      var tracked, block := registry.Remove(ptr);
      RecordFreed(!tracked);
      if tracked {
        LiveRemove(block.size);
      }
      held := held - {ptr};
    }

    /** `realloc`. On a registered block the removal leaves a free slot, so the second
        insertion cannot fail: only a new block can exhaust the registry. */
    method Realloc(ptr: nat, size: nat, answer: nat) returns (alive: bool, newPtr: nat)
      requires Valid() && Allowed(Now(), Op.Realloc(ptr, size, answer))
      modifies this, registry.slots
      ensures alive <==> ptr != 0 || answer == 0 || !old(Full())
      ensures alive ==> Valid() && newPtr == answer && Now() == Apply(old(Now()), sizeMax, Op.Realloc(ptr, size, answer))
    {
      hide Balanced, Allocate, Resize, ResizeUntracked;
      newPtr := answer;
      if ptr == 0 {
        alive := Allocated(ByRealloc, size, answer);
        return;
      }
      alive := true;
      HeldIsLive(Now(), ptr);
      ReallocBalanced(Now(), sizeMax, ptr, size, answer);
      EnoughLive(Now(), ptr);
      var tracked, block := registry.Lookup(ptr);
      if tracked {
        ReallocTracked(ptr, size, answer, block);
      } else {
        ReallocUntracked(ptr, size, answer);
      }
    }

    method ReallocUntracked(ptr: nat, size: nat, answer: nat)
      requires registry.Valid() && ptr !in Now().blocks
      modifies this
      ensures registry.Valid() && Now() == ResizeUntracked(old(Now()), ptr, size, answer)
    {
      RecordReallocated(true);
      if answer == 0 && size != 0 {
        RecordFailed();
      } else {
        held := held - {ptr} + (if answer == 0 then {} else {answer});
      }
    }

    method ReallocTracked(ptr: nat, size: nat, answer: nat, block: Block)
      requires registry.Valid() && IsLive(ptr) && ptr in registry.Map() && block == registry.Map()[ptr]
      requires liveBlocks >= 1 && liveBytes >= block.size && (answer == 0 || IsLive(answer))
      modifies this, registry.slots
      ensures registry.Valid() && Now() == Resize(old(Now()), ptr, size, answer)
    {
      hide RecordRealloc, RecordFailure, Table.Map, Table.Valid;
      RecordReallocated(false);
      if answer == 0 && size != 0 {
        RecordFailed();
        return;
      }
      RecordsOnlyStats(old(Now()), false);
      MoveBlock(ptr, size, answer, block);
    }

    method MoveBlock(ptr: nat, size: nat, answer: nat, block: Block)
      requires registry.Valid() && IsLive(ptr) && ptr in registry.Map() && block == registry.Map()[ptr]
      requires liveBlocks >= 1 && liveBytes >= block.size && (answer == 0 || IsLive(answer))
      modifies this`held, this`liveBlocks, this`liveBytes, registry.slots
      ensures registry.Valid()
      ensures registry.Map() == if answer == 0 then old(registry.Map()) - {ptr}
                                else (old(registry.Map()) - {ptr})[answer := Block(size, block.id)]
      ensures held == if answer == 0 then old(held) - {ptr} else old(held) - {ptr} + {answer}
      ensures liveBlocks == if answer == 0 then old(liveBlocks) - 1 else old(liveBlocks)
      ensures liveBytes == old(liveBytes) + (if answer == 0 then 0 else size) - block.size
    {
      MoveEntry(ptr, size, answer, block.id);
      SettleCounters(ptr, size, answer, block.size);
    }

    method SettleCounters(ptr: nat, size: nat, answer: nat, oldSize: nat)
      requires liveBlocks >= 1 && liveBytes >= oldSize
      modifies this`held, this`liveBlocks, this`liveBytes
      ensures held == if answer == 0 then old(held) - {ptr} else old(held) - {ptr} + {answer}
      ensures liveBlocks == if answer == 0 then old(liveBlocks) - 1 else old(liveBlocks)
      ensures liveBytes == old(liveBytes) + (if answer == 0 then 0 else size) - oldSize
    {
      if answer != 0 {
        LiveUpdate(oldSize, size);
        held := held - {ptr} + {answer};
      } else {
        LiveRemove(oldSize);
        held := held - {ptr};
      }
    }

    /** The locked section of `realloc`: take the old entry out and put the new one in. */
    method MoveEntry(ptr: nat, size: nat, answer: nat, id: nat)
      requires registry.Valid() && IsLive(ptr) && ptr in registry.Map() && (answer == 0 || IsLive(answer))
      modifies registry.slots
      ensures registry.Valid()
      ensures registry.Map() == if answer == 0 then old(registry.Map()) - {ptr}
                                else (old(registry.Map()) - {ptr})[answer := Block(size, id)]
    {
      var removed, block := registry.Remove(ptr);
      if answer != 0 {
        var inserted := registry.Insert(answer, size, id);
        assert inserted;
      }
    }

    /** `ao_live_update`. */
    method LiveUpdate(oldSize: nat, newSize: nat)
      requires liveBytes >= oldSize
      modifies this`liveBytes
      ensures liveBytes == old(liveBytes) + newSize - oldSize
    {
      if newSize > oldSize {
        liveBytes := liveBytes + (newSize - oldSize);
      } else if oldSize > newSize {
        liveBytes := liveBytes - (oldSize - newSize);
      }
    }

    method LiveRemove(size: nat)
      requires liveBlocks >= 1 && liveBytes >= size
      modifies this`liveBlocks, this`liveBytes
      ensures liveBlocks == old(liveBlocks) - 1 && liveBytes == old(liveBytes) - size
    {
      liveBlocks := liveBlocks - 1;
      liveBytes := liveBytes - size;
    }
  }

  lemma HeldIsLive(st: State, ptr: nat)
    requires Balanced(st) && ptr in st.held
    ensures IsLive(ptr)
  {
  }

  /** The counters cover every registered block, so taking one off never underflows. */
  lemma EnoughLive(st: State, ptr: nat)
    requires Balanced(st)
    ensures ptr in st.blocks ==> st.liveBlocks >= 1 && st.liveBytes >= st.blocks[ptr].size
  {
    if ptr in st.blocks {
      TotalWithout(st.blocks, ptr);
      SizeWithout(st.blocks, ptr);
    }
  }

  lemma SameMap(m: map<nat, Block>, ptr: nat)
    ensures ptr !in m ==> m - {ptr} == m
  {
  }

  /** Recording commutes with taking the block out of the registry. */
  lemma FreedCommutes(st: State, blocks: map<nat, Block>, bypass: bool)
    ensures RecordFree(st.(blocks := blocks), bypass) == RecordFree(st, bypass).(blocks := blocks)
    ensures RecordFree(st, bypass) == st.(stats := RecordFree(st, bypass).stats)
  {
  }

  /** The division test for overflow of the product. */
  lemma OverflowTest(count: nat, size: nat, sizeMax: nat)
    ensures count != 0 && size > sizeMax / count <==> count * size > sizeMax
  {
    if count != 0 {
      var q := sizeMax / count;
      if size > q {
        ProductMonotone(count, q + 1, size);
      } else {
        ProductMonotone(count, size, q);
      }
    }
  }

  lemma ProductMonotone(a: nat, b: nat, c: nat)
    requires b <= c
    ensures a * b <= a * c
  {
  }
}
