/** The bootstrap heap that serves allocations while libc's symbols are being resolved:
    a bump allocator over a fixed area, advanced by compare-and-exchange. */
module Bootstrap {

  /** The area's size, the rounding unit, the size of the header before each block, and that of a size in it. */
  datatype Layout = Layout(heapSize: nat, unit: nat, header: nat, sizeBytes: nat) {
    predicate Valid() { unit > 0 && 0 < sizeBytes <= header }
  }

  /** `ao_align_up`. */
  function AlignUp(value: nat, unit: nat): nat
    requires unit > 0
  {
    if value % unit == 0 then value else value + (unit - value % unit)
  }

  function Total(l: Layout, size: nat): nat
    requires l.Valid()
  {
    AlignUp(l.header + size, l.unit)
  }

  ghost predicate Multiple(x: nat, unit: nat) {
    exists k: nat :: IsTimes(x, k, unit)
  }

  ghost predicate IsTimes(x: nat, k: nat, unit: nat) {
    x == k * unit
  }

  lemma AlignUpRounds(value: nat, unit: nat)
    requires unit > 0
    ensures value <= AlignUp(value, unit) < value + unit && Multiple(AlignUp(value, unit), unit)
  {
    var q := value / unit;
    assert value == q * unit + value % unit;
    if value % unit == 0 {
      assert IsTimes(value, q, unit);
    } else {
      assert (q + 1) * unit == q * unit + unit;
      assert IsTimes(AlignUp(value, unit), q + 1, unit);
    }
  }

  lemma TotalHolds(l: Layout, size: nat)
    requires l.Valid()
    ensures l.header + size <= Total(l, size)
  {
    AlignUpRounds(l.header + size, l.unit);
  }

  /** `Total` is the least multiple of the unit that holds header and payload. */
  lemma TotalIsLeast(l: Layout, size: nat, x: nat)
    requires l.Valid()
    ensures Multiple(Total(l, size), l.unit) && Total(l, size) >= l.header + size
    ensures Multiple(x, l.unit) && x >= l.header + size ==> Total(l, size) <= x
  {
    AlignUpRounds(l.header + size, l.unit);
    if Multiple(x, l.unit) && x < Total(l, size) { MultiplesApart(x, Total(l, size), l.unit); }
  }

  lemma MultiplesApart(x: nat, y: nat, unit: nat)
    requires Multiple(x, unit) && Multiple(y, unit) && x < y
    ensures x + unit <= y
  {
    var j: nat :| IsTimes(x, j, unit);
    var k: nat :| IsTimes(y, k, unit);
    if k <= j { TimesMonotone(k, j, unit); }
    TimesMonotone(j + 1, k, unit);
    assert (j + 1) * unit == j * unit + unit;
  }

  lemma TimesMonotone(a: nat, b: nat, unit: nat)
    requires a <= b
    ensures a * unit <= b * unit
  {
  }

  lemma MultipleSum(x: nat, y: nat, unit: nat)
    requires Multiple(x, unit) && Multiple(y, unit)
    ensures Multiple(x + y, unit)
  {
    var j: nat :| IsTimes(x, j, unit);
    var k: nat :| IsTimes(y, k, unit);
    assert (j + k) * unit == j * unit + k * unit;
    assert IsTimes(x + y, j + k, unit);
  }

  // ------------------------------------------------ interleaved allocation

  /** A thread inside `ao_bootstrap_alloc`: about to load the offset, or holding a loaded value. */
  datatype Pc = Idle | Loading(size: nat) | Loaded(size: nat, current: nat)

  /** A block handed out: header and payload take `[start, start + total)`. */
  datatype Extent = Extent(start: nat, total: nat, size: nat)

  datatype Sys = Sys(offset: nat, given: seq<Extent>, threads: seq<Pc>)

  /** A weak compare-exchange may fail although the values agree. */
  datatype Choice = Call(size: nat) | Continue(spurious: bool)

  predicate Enabled(s: Sys, i: nat, c: Choice) {
    i < |s.threads| && (c.Call? <==> s.threads[i].Idle?)
  }

  function Step(l: Layout, s: Sys, i: nat, c: Choice): Sys
    requires l.Valid() && Enabled(s, i, c)
  {
    if c.Call? then s.(threads := s.threads[i := Loading(c.size)])
    else match s.threads[i]
      case Loading(size) =>
        if s.offset > l.heapSize || Total(l, size) > l.heapSize - s.offset
        then s.(threads := s.threads[i := Idle])
        else s.(threads := s.threads[i := Loaded(size, s.offset)])
      case Loaded(size, current) =>
        if s.offset != current || c.spurious then s.(threads := s.threads[i := Loading(size)])
        else s.(offset := current + Total(l, size), given := s.given + [Extent(current, Total(l, size), size)],
                threads := s.threads[i := Idle])
  }

  /** The blocks handed out tile the heap from its start to the offset, without gap or overlap. */
  ghost predicate Tiles(l: Layout, given: seq<Extent>, end: nat)
    requires l.Valid()
  {
    && (forall k :: 0 <= k < |given| ==> given[k].total == Total(l, given[k].size))
    && (forall k :: 0 <= k < |given| ==> Joined(given, k, end))
    && Next(given, 0, end) == 0
  }

  /** Block `k` ends where the next one starts. */
  ghost predicate Joined(given: seq<Extent>, k: nat, end: nat)
    requires k < |given|
  {
    given[k].start + given[k].total == Next(given, k + 1, end)
  }

  /** Where block `k` starts, or where the next one would. */
  function Next(given: seq<Extent>, k: nat, end: nat): nat {
    if k < |given| then given[k].start else end
  }

  ghost predicate Inv(l: Layout, s: Sys)
    requires l.Valid()
  {
    && s.offset <= l.heapSize && Multiple(s.offset, l.unit)
    && Tiles(l, s.given, s.offset)
    && forall pc :: pc in s.threads && pc.Loaded? ==> pc.current <= s.offset && pc.current + Total(l, pc.size) <= l.heapSize
  }

  lemma TilesGrow(l: Layout, given: seq<Extent>, end: nat, size: nat)
    requires l.Valid() && Tiles(l, given, end)
    ensures Tiles(l, given + [Extent(end, Total(l, size), size)], end + Total(l, size))
  {
    var more, end' := given + [Extent(end, Total(l, size), size)], end + Total(l, size);
    forall k | 0 <= k < |more| ensures Joined(more, k, end') {
      if k < |given| { assert Joined(given, k, end); }
    }
  }

  /** Every load and every compare-exchange keeps the tiling, and the offset only grows. */
  lemma StepKeepsInv(l: Layout, s: Sys, i: nat, c: Choice)
    requires l.Valid() && Inv(l, s) && Enabled(s, i, c)
    ensures Inv(l, Step(l, s, i, c)) && s.offset <= Step(l, s, i, c).offset && s.given <= Step(l, s, i, c).given
  {
    var t := Step(l, s, i, c);
    forall pc | pc in t.threads && pc.Loaded? ensures pc.current <= t.offset && pc.current + Total(l, pc.size) <= l.heapSize {
      assert pc == t.threads[i] || pc in s.threads;
    }
    assert s.threads[i] in s.threads;
    if t.offset != s.offset || t.given != s.given {
      var size := s.threads[i].size;
      AlignUpRounds(l.header + size, l.unit);
      MultipleSum(s.offset, Total(l, size), l.unit);
      TilesGrow(l, s.given, s.offset, size);
    }
  }

  /** How a call ends or goes on: it is refused only where its block does not fit the rest of the heap; an exchange fails, unless
      spuriously, only when another thread has advanced the offset; and one that succeeds hands out the block at the offset. */
  lemma StepOutcome(l: Layout, s: Sys, i: nat, spurious: bool)
    requires l.Valid() && Inv(l, s) && Enabled(s, i, Continue(spurious))
    ensures var t, pc := Step(l, s, i, Continue(spurious)), s.threads[i];
            && (pc.Loading? ==>
                  t.given == s.given && t.offset == s.offset
                  && t.threads[i] == if s.offset + Total(l, pc.size) > l.heapSize then Idle else Loaded(pc.size, s.offset))
            && (pc.Loaded? && t.given == s.given ==> t.threads[i] == Loading(pc.size) && (spurious || pc.current < s.offset))
            && (pc.Loaded? && t.given != s.given ==>
                  t.threads[i].Idle? && t.given == s.given + [Extent(s.offset, Total(l, pc.size), pc.size)]
                  && t.offset == s.offset + Total(l, pc.size))
  {
    assert s.threads[i] in s.threads;
    if s.threads[i].Loaded? && s.threads[i].current == s.offset && !spurious {
      assert |Step(l, s, i, Continue(spurious)).given| == |s.given| + 1;
    }
  }

  /** A thread that runs alone gets a block of its size exactly when it fits. */
  lemma AloneAllocates(l: Layout, s: Sys, i: nat, size: nat)
    requires l.Valid() && Inv(l, s) && Enabled(s, i, Call(size))
    ensures var t := Step(l, s, i, Call(size));
            && Enabled(t, i, Continue(false))
            && var u := Step(l, t, i, Continue(false));
               if s.offset + Total(l, size) > l.heapSize then u.threads[i].Idle? && u.given == s.given
               else && Enabled(u, i, Continue(false))
                    && var v := Step(l, u, i, Continue(false));
                       v.threads[i].Idle? && v.given == s.given + [Extent(s.offset, Total(l, size), size)]
  {
  }

  /** In a tiling, a later block starts at or behind the end of an earlier one. */
  lemma {:induction false} TilesOrdered(l: Layout, given: seq<Extent>, end: nat, j: nat, k: nat)
    requires l.Valid() && Tiles(l, given, end) && j < k <= |given|
    ensures given[j].start + given[j].total <= Next(given, k, end)
    decreases k - j
  {
    assert Joined(given, j, end);
    if j + 1 < k { TilesOrdered(l, given, end, j + 1, k); }
  }

  function After(l: Layout, s: Sys, moves: seq<(nat, Choice)>): Sys
    requires l.Valid()
    decreases |moves|
  {
    if moves == [] || !Enabled(s, moves[0].0, moves[0].1) then s
    else After(l, Step(l, s, moves[0].0, moves[0].1), moves[1..])
  }

  lemma {:induction false} AfterKeepsInv(l: Layout, s: Sys, moves: seq<(nat, Choice)>)
    requires l.Valid() && Inv(l, s)
    ensures Inv(l, After(l, s, moves)) && s.offset <= After(l, s, moves).offset
    decreases |moves|
  {
    if moves != [] && Enabled(s, moves[0].0, moves[0].1) {
      StepKeepsInv(l, s, moves[0].0, moves[0].1);
      AfterKeepsInv(l, Step(l, s, moves[0].0, moves[0].1), moves[1..]);
    }
  }

  function Boot(n: nat): Sys {
    Sys(0, [], seq(n, _ => Idle))
  }

  /** Under every interleaving: the offset is rounded and inside the heap, and the blocks handed out are
      inside the heap, big enough for header and payload, and pairwise disjoint. */
  lemma EveryInterleaving(l: Layout, n: nat, moves: seq<(nat, Choice)>)
    requires l.Valid()
    ensures var s := After(l, Boot(n), moves);
            && s.offset <= l.heapSize && Multiple(s.offset, l.unit)
            && (forall k :: 0 <= k < |s.given| ==>
                  s.given[k].start + l.header + s.given[k].size <= s.given[k].start + s.given[k].total <= l.heapSize)
            && (forall j, k :: 0 <= j < k < |s.given| ==> s.given[j].start + s.given[j].total <= s.given[k].start)
  {
    assert IsTimes(0, 0, l.unit);
    AfterKeepsInv(l, Boot(n), moves);
    var s := After(l, Boot(n), moves);
    forall j, k | 0 <= j < k < |s.given| ensures s.given[j].start + s.given[j].total <= s.given[k].start {
      TilesOrdered(l, s.given, s.offset, j, k);
    }
    forall k | 0 <= k < |s.given|
      ensures s.given[k].start + l.header + s.given[k].size <= s.given[k].start + s.given[k].total <= l.heapSize
    {
      TilesOrdered(l, s.given, s.offset, k, |s.given|);
      AlignUpRounds(l.header + s.given[k].size, l.unit);
    }
  }

  // ------------------------------------------------------- sizes as bytes

  newtype Byte = x: int | 0 <= x < 256

  /** How many numbers `width` bytes can hold. */
  function Range(width: nat): (r: nat)
    ensures r > 0
  {
    if width == 0 then 1 else 256 * Range(width - 1)
  }

  /** A number as `width` bytes, the lowest first. */
  function ToBytes(n: nat, width: nat): (bs: seq<Byte>)
    ensures |bs| == width
  {
    if width == 0 then [] else [(n % 256) as Byte] + ToBytes(n / 256, width - 1)
  }

  function FromBytes(bs: seq<Byte>): nat {
    if bs == [] then 0 else bs[0] as nat + 256 * FromBytes(bs[1..])
  }

  /** A size that fits is read back from its bytes. */
  lemma {:induction false} SizeReadBack(n: nat, width: nat)
    requires n < Range(width)
    ensures FromBytes(ToBytes(n, width)) == n
  {
    if width > 0 {
      SizeReadBack(n / 256, width - 1);
      assert ToBytes(n, width)[1..] == ToBytes(n / 256, width - 1);
    }
  }

  // ------------------------------------------------------- headers

  /** The size that the header before `p` holds. */
  function SizeAt(l: Layout, heap: seq<Byte>, p: nat): nat
    requires l.Valid() && l.header <= p <= |heap|
  {
    FromBytes(heap[p - l.header..p - l.header + l.sizeBytes])
  }

  /** Below `end` there is a block of this size, behind a header that says so. */
  ghost predicate Headed(l: Layout, heap: seq<Byte>, p: nat, size: nat, end: nat)
    requires l.Valid() && end <= |heap|
  {
    l.header <= p && p + size <= end && SizeAt(l, heap, p) == size
  }

  ghost predicate AllHeaded(l: Layout, heap: seq<Byte>, requested: map<nat, nat>, end: nat)
    requires l.Valid() && end <= |heap|
  {
    forall p :: p in requested ==> Headed(l, heap, p, requested[p], end)
  }

  /** Writing behind a block leaves its header. */
  lemma HeaderStays(l: Layout, was: seq<Byte>, now: seq<Byte>, p: nat, end: nat)
    requires l.Valid() && l.header <= p <= end <= |was| == |now| && now[..end] == was[..end]
    ensures SizeAt(l, now, p) == SizeAt(l, was, p)
  {
    var from, to := p - l.header, p - l.header + l.sizeBytes;
    assert now[from..to] == now[..end][from..to] && was[from..to] == was[..end][from..to];
  }

  /** Writing from `to` on, behind the starts of all blocks, leaves every header. */
  lemma HeadersStay(l: Layout, was: seq<Byte>, now: seq<Byte>, requested: map<nat, nat>, to: nat, end: nat, end': nat)
    requires l.Valid() && end <= end' <= |was| == |now| && to <= |was| && now[..to] == was[..to]
    requires AllHeaded(l, was, requested, end) && forall p :: p in requested ==> p <= to
    ensures AllHeaded(l, now, requested, end')
  {
    hide SizeAt;
    forall p | p in requested ensures Headed(l, now, p, requested[p], end') {
      assert Headed(l, was, p, requested[p], end);
      HeaderStays(l, was, now, p, to);
    }
  }

  lemma HeaderAdded(l: Layout, heap: seq<Byte>, requested: map<nat, nat>, end: nat, p: nat, size: nat)
    requires l.Valid() && end <= |heap| && AllHeaded(l, heap, requested, end) && Headed(l, heap, p, size, end)
    ensures AllHeaded(l, heap, requested[p := size], end)
  {
  }

  /** The `n` bytes at `to` are those that were at `from`. */
  ghost predicate SameBytes(was: seq<Byte>, from: nat, now: seq<Byte>, to: nat, n: nat) {
    from + n <= |was| && to + n <= |now| && now[to..to + n] == was[from..from + n]
  }

  function Min(a: nat, b: nat): (m: nat)
    ensures m <= a && m <= b && (m == a || m == b)
  {
    if a < b then a else b
  }

  lemma PayloadMoved(was: seq<Byte>, before: seq<Byte>, now: seq<Byte>, from: nat, to: nat, n: nat, end: nat)
    requires from + n <= end <= to && to + n <= |was| == |before| == |now|
    requires before[..end] == was[..end] && now[..to] == before[..to] && now[to..to + n] == before[from..from + n]
    ensures SameBytes(was, from, now, to, n) && now[..end] == was[..end]
  {
    assert before[from..from + n] == before[..end][from..from + n] == was[from..from + n];
    assert now[..end] == now[..to][..end];
  }

  /** A header that has just been written. */
  lemma HeaderWritten(l: Layout, heap: seq<Byte>, start: nat, size: nat, end: nat)
    requires l.Valid() && size < Range(l.sizeBytes) && start + l.header + size <= end <= |heap|
    requires heap[start..start + l.sizeBytes] == ToBytes(size, l.sizeBytes)
    ensures Headed(l, heap, start + l.header, size, end)
  {
    SizeReadBack(size, l.sizeBytes);
  }

  // ------------------------------------------------------- the heap, sequentially

  /** `g_bootstrap_heap` with its offset. A pointer is an index into `bytes`. The header before each block begins with the
      requested size in `l.sizeBytes` bytes; `requested` tells, for the proof, which sizes those are. */
  class Heap {
    const l: Layout
    const bytes: array<Byte>
    var offset: nat
    ghost var requested: map<nat, nat>

    ghost predicate Valid()
      reads this, bytes
    {
      && l.Valid() && bytes.Length == l.heapSize && offset <= l.heapSize
      && AllHeaded(l, bytes[..], requested, offset)
    }

    constructor (l: Layout)
      requires l.Valid()
      ensures Valid() && fresh(bytes) && requested == map[] && offset == 0 && this.l == l
    {
      this.l := l;
      bytes := new Byte[l.heapSize](_ => 0);
      offset, requested := 0, map[];
    }

    /** `ao_bootstrap_alloc`: it fails exactly when the block does not fit; what was handed out keeps its bytes. */
    method Alloc(size: nat) returns (ok: bool, ptr: nat)
      requires Valid() && size < Range(l.sizeBytes)
      modifies this`offset, this`requested, bytes
      ensures Valid()
      ensures ok <==> Total(l, size) <= l.heapSize - old(offset)
      ensures !ok ==> offset == old(offset) && requested == old(requested) && bytes[..] == old(bytes[..])
      ensures ok ==> ptr == old(offset) + l.header && offset == old(offset) + Total(l, size)
      ensures ok ==> ptr !in old(requested) && requested == old(requested)[ptr := size] && ptr + size <= offset
      ensures bytes[..old(offset)] == old(bytes[..offset])
    {
      hide AllHeaded, Range, SizeAt, Total, ToBytes;
      TotalHolds(l, size);
      BlocksBelow();
      var total := Total(l, size);
      if total > l.heapSize - offset {
        return false, 0;
      }
      ghost var was, end := bytes[..], offset;
      ptr := offset + l.header;
      StoreAt(offset, ToBytes(size, l.sizeBytes));
      HeaderWritten(l, bytes[..], end, size, end + total);
      HeadersStay(l, was, bytes[..], requested, end, end, end + total);
      HeaderAdded(l, bytes[..], requested, end + total, ptr, size);
      offset := offset + total;
      requested := requested[ptr := size];
      ok := true;
    }

    method StoreAt(at: nat, data: seq<Byte>)
      requires at + |data| <= bytes.Length
      modifies bytes
      ensures bytes[..at] == old(bytes[..at]) && bytes[at..at + |data|] == data
      ensures bytes[at + |data|..] == old(bytes[at + |data|..])
    {
      forall i | 0 <= i < |data| { bytes[at + i] := data[i]; }
    }

    /** `ao_bootstrap_realloc`: the size comes from the header; the first min(old, new) bytes move along, and nothing that
        was handed out changes, headers included; a pointer from elsewhere is refused. */
    method Realloc(ptr: Pointer, size: nat) returns (ok: bool, newPtr: nat)
      requires Valid() && size < Range(l.sizeBytes) && (ptr.Block? ==> ptr.at in requested)
      modifies this`offset, this`requested, bytes
      ensures Valid()
      ensures ok <==> !ptr.Foreign? && Total(l, size) <= l.heapSize - old(offset)
      ensures !ok ==> offset == old(offset) && requested == old(requested) && bytes[..] == old(bytes[..])
      ensures ok ==> newPtr == old(offset) + l.header && newPtr !in old(requested) && requested == old(requested)[newPtr := size]
      ensures ok && ptr.Block? ==> SameBytes(old(bytes[..]), ptr.at, bytes[..], newPtr, Min(old(requested)[ptr.at], size))
      ensures bytes[..old(offset)] == old(bytes[..offset])
    {
      hide Total, AllHeaded, Range, SameBytes, Min;
      if ptr.Foreign? {
        return false, 0;
      }
      if ptr.Null? {
        ok, newPtr := Alloc(size);
        return;
      }
      ok, newPtr := ReallocBlock(ptr.at, size);
    }

    /** `realloc` of a block of this heap. */
    method ReallocBlock(at: nat, size: nat) returns (ok: bool, newPtr: nat)
      requires Valid() && size < Range(l.sizeBytes) && at in requested
      modifies this`offset, this`requested, bytes
      ensures Valid()
      ensures ok <==> Total(l, size) <= l.heapSize - old(offset)
      ensures !ok ==> offset == old(offset) && requested == old(requested) && bytes[..] == old(bytes[..])
      ensures ok ==> newPtr == old(offset) + l.header && newPtr !in old(requested) && requested == old(requested)[newPtr := size]
      ensures ok ==> SameBytes(old(bytes[..]), at, bytes[..], newPtr, Min(old(requested)[at], size))
      ensures bytes[..old(offset)] == old(bytes[..offset])
    {
      hide Total, AllHeaded, Range, SizeAt, SameBytes;
      ghost var was, end := bytes[..], offset;
      BlocksBelow();
      var oldSize := SizeAt(l, bytes[..], at);
      ok, newPtr := Alloc(size);
      if ok {
        MovePayload(at, newPtr, Min(oldSize, size), was, end);
      }
    }

    /** Every block lies below the offset and its header tells its size. */
    lemma BlocksBelow()
      requires Valid()
      ensures forall p :: p in requested ==>
                l.header <= p && p + requested[p] <= offset <= bytes.Length && SizeAt(l, bytes[..], p) == requested[p]
      ensures offset + l.header !in requested && l.Valid()
    {
      hide SizeAt;
      forall p | p in requested
        ensures l.header <= p && p + requested[p] <= offset <= bytes.Length && SizeAt(l, bytes[..], p) == requested[p]
      {
        assert Headed(l, bytes[..], p, requested[p], offset);
      }
    }

    /** The copy of the payload into the block behind all others. */
    method MovePayload(from: nat, to: nat, n: nat, ghost was: seq<Byte>, ghost end: nat)
      requires Valid() && to in requested && n <= requested[to] && from + n <= end && end + l.header == to
      requires end <= |was| == bytes.Length && bytes[..end] == was[..end] && forall p :: p in requested ==> p <= to
      modifies bytes
      ensures Valid() && SameBytes(was, from, bytes[..], to, n) && bytes[..end] == was[..end]
    {
      hide AllHeaded, SizeAt, SameBytes;
      BlocksBelow();
      ghost var before := bytes[..];
      Fill(to, bytes[from..from + n]);
      PayloadMoved(was, before, bytes[..], from, to, n, end);
    }

    /** Writing into the last block leaves every header. */
    method Fill(to: nat, data: seq<Byte>)
      requires Valid() && to in requested && |data| <= requested[to] && forall p :: p in requested ==> p <= to
      modifies bytes
      ensures Valid() && to + |data| <= bytes.Length
      ensures bytes[to..to + |data|] == data && bytes[..to] == old(bytes[..to])
    {
      hide AllHeaded, SizeAt;
      BlocksBelow();
      ghost var was := bytes[..];
      StoreAt(to, data);
      HeadersStay(l, was, bytes[..], requested, to, offset, offset);
    }

    /** `calloc` before libc is known: the product wraps around, and the block is zeroed. */
    method Calloc(count: nat, size: nat) returns (ok: bool, ptr: nat)
      requires Valid()
      modifies this`offset, this`requested, bytes
      ensures Valid()
      ensures var n := count * size % Range(l.sizeBytes);
              && (ok <==> Total(l, n) <= l.heapSize - old(offset))
              && (ok ==> ptr == old(offset) + l.header && ptr !in old(requested) && requested == old(requested)[ptr := n])
              && (ok ==> ptr + n <= bytes.Length && forall i :: ptr <= i < ptr + n ==> bytes[i] == 0)
      ensures !ok ==> offset == old(offset) && requested == old(requested) && bytes[..] == old(bytes[..])
      ensures bytes[..old(offset)] == old(bytes[..offset])
    {
      hide Total, AllHeaded, Range, SizeAt;
      BlocksBelow();
      var n := count * size % Range(l.sizeBytes);
      ok, ptr := Alloc(n);
      if ok {
        Fill(ptr, seq(n, _ => 0));
        assert forall i :: ptr <= i < ptr + n ==> bytes[i] == bytes[ptr..ptr + n][i - ptr];
        assert bytes[..old(offset)] == bytes[..ptr][..old(offset)];
      }
    }
  }

  /** What a client may pass to `realloc`: nothing, a block of this heap, or a pointer from elsewhere. */
  datatype Pointer = Null | Block(at: nat) | Foreign
}
