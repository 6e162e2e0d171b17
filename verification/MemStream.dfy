/** The cookie behind `open_memstream`: a growable buffer that refines a sparse file,
    a byte sequence with a position that may lie behind its end. */
module MemStream {
  import opened Bits

  type Byte = bv8

  // ------------------------------------------------------ the file it refines

  datatype File = File(pos: nat, data: seq<Byte>)

  function Zeros(n: nat): (z: seq<Byte>)
    ensures |z| == n && forall i :: 0 <= i < n ==> z[i] == 0
  {
    seq(n, _ => 0)
  }

  /** The contents with a gap up to `n` filled by zeros. */
  function Padded(data: seq<Byte>, n: nat): seq<Byte> {
    if n <= |data| then data else data + Zeros(n - |data|)
  }

  /** Write at the position. An empty write behind the end still fills the gap. */
  function WriteFile(f: File, bytes: seq<Byte>): File {
    var base := Padded(f.data, f.pos);
    var end := f.pos + |bytes|;
    File(end, base[..f.pos] + bytes + (if end <= |base| then base[end..] else []))
  }

  function LengthAfter(f: File, n: nat): nat {
    if f.pos + n > |f.data| then f.pos + n else |f.data|
  }

  /** Byte by byte: the new bytes where they were written, zeros in the gap, the old bytes elsewhere. */
  function ByteAfter(f: File, bytes: seq<Byte>, k: nat): Byte {
    if f.pos <= k < f.pos + |bytes| then bytes[k - f.pos] else if k < |f.data| then f.data[k] else 0
  }

  lemma WriteFileAt(f: File, bytes: seq<Byte>)
    ensures var g := WriteFile(f, bytes);
            && g.pos == f.pos + |bytes| && |g.data| == LengthAfter(f, |bytes|)
            && forall k :: 0 <= k < |g.data| ==> g.data[k] == ByteAfter(f, bytes, k)
  {
  }

  /** Two writes in a row are one write of both. */
  lemma WriteFileTwice(f: File, a: seq<Byte>, b: seq<Byte>)
    ensures WriteFile(WriteFile(f, a), b) == WriteFile(f, a + b)
  {
    hide WriteFile;
    var g := WriteFile(f, a);
    var one, two := WriteFile(g, b), WriteFile(f, a + b);
    WriteFileAt(f, a);
    WriteFileAt(g, b);
    WriteFileAt(f, a + b);
    forall k | 0 <= k < |one.data| ensures one.data[k] == two.data[k] {
      assert ByteAfter(g, b, k) == ByteAfter(f, a + b, k);
    }
    assert one.data == two.data;
  }

  // ------------------------------------------------------------- the growth

  /** `SIZE_MAX` and `SSIZE_MAX` for an address width. */
  function SizeMax(width: nat): nat { Pow2(width) - 1 }

  function SSizeMax(width: nat): nat
    requires width > 0
  {
    Pow2(width - 1) - 1
  }

  /** The capacity asked for: bitwise-or of one more than double the old one and the required size. */
  function NewSpace(space: nat, required: nat): nat {
    Or(2 * space + 1, required)
  }

  /** Each growth at least doubles, and asks for less than three times what is required. */
  lemma GrowthBounds(space: nat, required: nat)
    requires space < required
    ensures required <= NewSpace(space, required)
    ensures 2 * space + 1 <= NewSpace(space, required) < 3 * required
  {
    OrBounds(2 * space + 1, required);
  }

  /** The capacity has exactly the bits of its two operands. */
  lemma NewSpaceBits(space: nat, required: nat, k: nat)
    ensures Bit(NewSpace(space, required), k) <==> Bit(2 * space + 1, k) || Bit(required, k)
  {
    OrBits(2 * space + 1, required, k);
  }

  /** The largest signed size is half of the largest size. */
  lemma SizeLimits(width: nat)
    requires width > 0
    ensures SizeMax(width) == 2 * SSizeMax(width) + 1 && SizeMax(width) + 1 == 2 * Pow2(width - 1)
  {
  }

  /** While positions and capacities are object sizes, no sum wraps, the saturating branch is not taken,
      and the fix-up after the bitwise-or has nothing to do. */
  lemma GuardsNeverFire(width: nat, pos: nat, len: nat, space: nat)
    requires width > 0 && pos <= SSizeMax(width) && len <= SSizeMax(width) && space <= SSizeMax(width)
    ensures !(pos > SizeMax(width) - len - 1) && pos + len + 1 <= SizeMax(width)
    ensures !(space > (SizeMax(width) - 1) / 2) && 2 * space + 1 <= SizeMax(width)
    ensures space < pos + len + 1 ==> !(NewSpace(space, pos + len + 1) < pos + len + 1)
    ensures NewSpace(space, pos + len + 1) <= SizeMax(width)
  {
    OrBounds(2 * space + 1, pos + len + 1);
    OrWidth(2 * space + 1, pos + len + 1, width);
  }

  /** The capacity after writes that required these sizes, and the bytes all their reallocations copied. */
  function SpaceAfter(space: nat, required: seq<nat>): nat
    decreases |required|
  {
    if required == [] then space
    else SpaceAfter(if required[0] <= space then space else NewSpace(space, required[0]), required[1..])
  }

  function CopiedBy(space: nat, required: seq<nat>): nat
    decreases |required|
  {
    if required == [] then 0
    else if required[0] <= space then CopiedBy(space, required[1..])
    else space + CopiedBy(NewSpace(space, required[0]), required[1..])
  }

  /** Over any run, what is copied never exceeds what the capacity has gained. */
  lemma {:induction false} CopiedAtMostGained(space: nat, required: seq<nat>)
    ensures CopiedBy(space, required) + space <= SpaceAfter(space, required)
    decreases |required|
  {
    if required != [] {
      if required[0] <= space {
        CopiedAtMostGained(space, required[1..]);
      } else {
        GrowthBounds(space, required[0]);
        CopiedAtMostGained(NewSpace(space, required[0]), required[1..]);
      }
    }
  }

  // ------------------------------------------------------------- whole runs

  datatype Op = WriteOp(bytes: seq<Byte>) | SeekOp(offset: int, whence: int)

  /** Where a seek counts from: the start, the position, or the end. */
  function BaseOf(f: File, whence: int): nat {
    if whence == 0 then 0 else if whence == 1 then f.pos else |f.data|
  }

  /** What an operation does when it succeeds. */
  function OneOp(f: File, op: Op): File {
    match op
    case WriteOp(bytes) => WriteFile(f, bytes)
    case SeekOp(offset, whence) => var to := BaseOf(f, whence) + offset; if to >= 0 then File(to, f.data) else f
  }

  /** The file after the operations that succeeded. */
  function FileAfter(f: File, ops: seq<Op>, oks: seq<bool>): File
    requires |oks| == |ops|
  {
    if ops == [] then f
    else
      var n := |ops| - 1;
      var g := FileAfter(f, ops[..n], oks[..n]);
      if oks[n] then OneOp(g, ops[n]) else g
  }

  /** The place a seek asks for exists. */
  predicate InReach(width: nat, f: File, offset: int, whence: int)
    requires width > 0
  {
    0 <= whence <= 2 && 0 <= BaseOf(f, whence) + offset <= SSizeMax(width)
  }

  /** Every seek so far succeeded exactly where it could. */
  predicate SeeksRight(width: nat, f: File, ops: seq<Op>, oks: seq<bool>)
    requires |oks| == |ops| && width > 0
  {
    ops == [] ||
    (var n := |ops| - 1;
     && SeeksRight(width, f, ops[..n], oks[..n])
     && (ops[n].SeekOp? ==> oks[n] == InReach(width, FileAfter(f, ops[..n], oks[..n]), ops[n].offset, ops[n].whence)))
  }

  lemma RunSnoc(width: nat, f: File, ops: seq<Op>, oks: seq<bool>, op: Op, ok: bool)
    requires |oks| == |ops| && width > 0 && SeeksRight(width, f, ops, oks)
    requires op.SeekOp? ==> ok == InReach(width, FileAfter(f, ops, oks), op.offset, op.whence)
    ensures FileAfter(f, ops + [op], oks + [ok]) == if ok then OneOp(FileAfter(f, ops, oks), op) else FileAfter(f, ops, oks)
    ensures SeeksRight(width, f, ops + [op], oks + [ok])
  {
    assert (ops + [op])[..|ops|] == ops && (oks + [ok])[..|ops|] == oks;
  }

  lemma RunStarts(width: nat, f: File)
    requires width > 0
    ensures FileAfter(f, [], []) == f && SeeksRight(width, f, [], [])
  {
  }

  // -------------------------------------------------------------- the cookie

  /** What the client's `bufp` and `sizep` point to is part of the state. */
  class Cookie {
    const width: nat
    var pos: nat
    var buf: array<Byte>
    var len: nat
    var space: nat
    var published: array<Byte>
    var publishedSize: nat
    ghost var copied: nat

    ghost predicate Valid()
      reads this, buf
    {
      && width > 0 && pos <= SSizeMax(width) && space <= SSizeMax(width)
      && buf.Length == (if space == 0 then 1 else space)
      && (len < space || (len == 0 && space == 0))
      && (forall i :: len <= i < buf.Length ==> buf[i] == 0)
      && published == buf
      && copied <= space
    }

    ghost function Contents(): File
      requires Valid()
      reads this, buf
    {
      File(pos, buf[..len])
    }

    /** The initial state set up by `open_memstream`: one NUL byte, of which no capacity is counted. */
    constructor (width: nat)
      requires width > 0
      ensures Valid() && fresh(buf) && Contents() == File(0, []) && publishedSize == 0 && this.width == width
    {
      this.width := width;
      var b := new Byte[1](_ => 0);
      buf, published := b, b;
      pos, len, space, publishedSize, copied := 0, 0, 0, 0, 0;
    }

    /** `ao_memstream_grow`. `granted` is the allocator: it refuses what no object can have. */
    method Grow(n: nat, granted: nat -> bool) returns (ok: bool)
      requires Valid() && n <= SSizeMax(width) && forall s :: s > SSizeMax(width) ==> !granted(s)
      modifies this`buf, this`space, this`published, this`copied
      ensures Valid() && Contents() == old(Contents())
      ensures ok <==> pos + n + 1 <= old(space) || granted(NewSpace(old(space), pos + n + 1))
      ensures ok ==> pos + n + 1 <= space
      ensures space == if ok && old(space) < pos + n + 1 then NewSpace(old(space), pos + n + 1) else old(space)
      ensures !ok || old(space) == space ==> buf == old(buf)
      ensures copied == old(copied) + if space == old(space) then 0 else old(space)
      ensures buf == old(buf) || fresh(buf)
    {
      GuardsNeverFire(width, pos, n, space);
      var required := pos + n + 1;
      if required <= space {
        return true;
      }
      GrowthBounds(space, required);
      var newSpace := NewSpace(space, required);
      if !granted(newSpace) {
        return false;
      }
      var newBuf := new Byte[newSpace];
      forall i | 0 <= i < space { newBuf[i] := buf[i]; }
      forall i | space <= i < newSpace { newBuf[i] := 0; }
      copied := copied + space;
      buf, space, published := newBuf, newSpace, newBuf;
      ok := true;
    }

    /** `ao_memstream_write`: all or nothing, and afterwards the buffer is published and NUL-terminated. */
    method Write(bytes: seq<Byte>, granted: nat -> bool) returns (written: nat, ok: bool)
      requires Valid() && |bytes| <= SSizeMax(width) && forall s :: s > SSizeMax(width) ==> !granted(s)
      modifies this, buf
      ensures Valid()
      ensures ok <==> old(pos) + |bytes| + 1 <= old(space) || granted(NewSpace(old(space), old(pos) + |bytes| + 1))
      ensures Contents() == if ok then WriteFile(old(Contents()), bytes) else old(Contents())
      ensures written == if ok then |bytes| else 0
      ensures ok ==> len < space && buf[len] == 0 && published == buf && publishedSize == pos
      ensures space == if ok && old(space) < old(pos) + |bytes| + 1 then NewSpace(old(space), old(pos) + |bytes| + 1) else old(space)
      ensures copied == old(copied) + if space == old(space) then 0 else old(space)
      ensures !ok ==> publishedSize == old(publishedSize)
      ensures buf == old(buf) || fresh(buf)
    {
      ok := Grow(|bytes|, granted);
      if !ok {
        return 0, false;
      }
      Store(bytes);
      written := |bytes|;
    }

    method Store(bytes: seq<Byte>)
      requires Valid() && pos + |bytes| < space
      modifies this`pos, this`len, this`publishedSize, buf
      ensures space == old(space)
      ensures Valid() && len < space && publishedSize == pos
      ensures Contents() == WriteFile(old(Contents()), bytes)
    {
      hide WriteFile;
      ghost var before, old' := Contents(), buf[..];
      WriteFileAt(before, bytes);
      forall i | 0 <= i < |bytes| { buf[pos + i] := bytes[i]; }
      assert forall k :: 0 <= k < buf.Length ==> buf[k] == if pos <= k < pos + |bytes| then bytes[k - pos] else old'[k];
      pos := pos + |bytes|;
      if pos >= len {
        len := pos;
      }
      publishedSize := pos;
      assert forall k :: 0 <= k < len ==> buf[k] == ByteAfter(before, bytes, k);
      assert Contents().data == WriteFile(before, bytes).data;
    }

    /** `ao_memstream_seek`: any place from the start to the largest offset; anything else changes nothing. */
    method Seek(offset: int, whence: int) returns (ok: bool, newOffset: int)
      requires Valid()
      modifies this`pos
      ensures Valid()
      ensures var base := if whence == 0 then 0 else if whence == 1 then old(pos) else len;
              && (ok <==> 0 <= whence <= 2 && 0 <= base + offset <= SSizeMax(width))
              && newOffset == (if ok then base + offset else offset)
              && Contents() == (if ok then File(base + offset, old(Contents()).data) else old(Contents()))
    {
      if whence < 0 || whence > 2 {
        return false, offset;
      }
      var base := if whence == 0 then 0 else if whence == 1 then pos else len;
      if offset < -base || offset > SSizeMax(width) - base {
        return false, offset;
      }
      newOffset := base + offset;
      pos := newOffset;
      ok := true;
    }

    /** Any run of writes and seeks, with growth refused wherever the allocator likes: what the buffer holds is the sparse file after
        those that succeeded, every seek succeeds where it can, and all reallocations together copy at most what the capacity gains. */
    method Run(ops: seq<Op>, granted: (nat, nat) -> bool) returns (oks: seq<bool>)
      requires Valid() && forall op :: op in ops && op.WriteOp? ==> |op.bytes| <= SSizeMax(width)
      requires forall k: nat, s: nat :: s > SSizeMax(width) ==> !granted(k, s)
      modifies this, buf
      ensures Valid() && |oks| == |ops| && Contents() == FileAfter(old(Contents()), ops, oks)
      ensures SeeksRight(width, old(Contents()), ops, oks)
      ensures copied + old(space) <= old(copied) + space
    {
      hide FileAfter, SeeksRight, WriteFile;
      ghost var start := Contents();
      oks := [];
      RunStarts(width, start);
      while |oks| < |ops|
        invariant |oks| <= |ops| && Valid() && (buf == old(buf) || fresh(buf))
        invariant Contents() == FileAfter(start, ops[..|oks|], oks) && SeeksRight(width, start, ops[..|oks|], oks)
        invariant copied + old(space) <= old(copied) + space
      {
        var k := |oks|;
        assert ops[k] in ops && ops[..k + 1] == ops[..k] + [ops[k]];
        var ok := Perform(ops[k], (s: nat) => granted(k, s));
        RunSnoc(width, start, ops[..k], oks, ops[k], ok);
        oks := oks + [ok];
      }
      assert ops[..|oks|] == ops;
    }

    method Perform(op: Op, granted: nat -> bool) returns (ok: bool)
      requires Valid() && (op.WriteOp? ==> |op.bytes| <= SSizeMax(width)) && forall s :: s > SSizeMax(width) ==> !granted(s)
      modifies this, buf
      ensures Valid() && (buf == old(buf) || fresh(buf))
      ensures Contents() == if ok then OneOp(old(Contents()), op) else old(Contents())
      ensures op.SeekOp? ==> ok == InReach(width, old(Contents()), op.offset, op.whence)
      ensures copied + old(space) <= old(copied) + space
    {
      hide WriteFile, NewSpace;
      match op {
        case WriteOp(bytes) =>
          ghost var need := pos + |bytes| + 1;
          if space < need { GrowthBounds(space, need); }
          var written;
          written, ok := Write(bytes, granted);
        case SeekOp(offset, whence) =>
          var to;
          ok, to := Seek(offset, whence);
      }
    }
  }
}
