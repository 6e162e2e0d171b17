/** `getdelim`: reading a stream piece by piece into a caller's buffer that grows by half. */
module LineReader {

  type Byte = bv8

  // --------------------------------------------------- splitting a stream

  /** The length of the first piece: through the first delimiter, or everything. */
  function PieceLen(bytes: seq<Byte>, delim: int): (n: nat)
    ensures n <= |bytes| && (bytes != [] ==> n > 0)
    ensures forall i :: 0 <= i < n - 1 ==> bytes[i] as int != delim
    ensures n < |bytes| ==> bytes[n - 1] as int == delim
  {
    if bytes == [] then 0
    else if bytes[0] as int == delim then 1
    else 1 + PieceLen(bytes[1..], delim)
  }

  predicate HasDelim(bytes: seq<Byte>, delim: int) {
    exists i :: 0 <= i < |bytes| && bytes[i] as int == delim
  }

  /** A stream cut behind each delimiter. */
  function Pieces(bytes: seq<Byte>, delim: int): seq<seq<Byte>>
    decreases |bytes|
  {
    if bytes == [] then []
    else [bytes[..PieceLen(bytes, delim)]] + Pieces(bytes[PieceLen(bytes, delim)..], delim)
  }

  function Joined(pieces: seq<seq<Byte>>): seq<Byte> {
    if pieces == [] then [] else pieces[0] + Joined(pieces[1..])
  }

  /** A piece holds the delimiter only as its last byte. */
  ghost predicate DelimOnlyLast(piece: seq<Byte>, delim: int) {
    piece != [] && forall i :: 0 <= i < |piece| - 1 ==> piece[i] as int != delim
  }

  ghost predicate EndsInDelim(piece: seq<Byte>, delim: int) {
    piece != [] && piece[|piece| - 1] as int == delim
  }

  /** Pieces hold the delimiter only as their last byte, and all but possibly the final one have it. */
  ghost predicate WellSplit(pieces: seq<seq<Byte>>, delim: int) {
    && (forall k :: 0 <= k < |pieces| ==> DelimOnlyLast(pieces[k], delim))
    && (forall k :: 0 <= k < |pieces| - 1 ==> EndsInDelim(pieces[k], delim))
  }

  lemma WellSplitCons(piece: seq<Byte>, rest: seq<seq<Byte>>, delim: int)
    requires WellSplit(rest, delim) && DelimOnlyLast(piece, delim) && (rest != [] ==> EndsInDelim(piece, delim))
    ensures WellSplit([piece] + rest, delim) && Joined([piece] + rest) == piece + Joined(rest)
  {
    assert ([piece] + rest)[1..] == rest;
  }

  /** The pieces are the stream: joined they give it back, each holds the delimiter only as its last byte,
      and every piece but possibly the final one has it. */
  lemma {:induction false} PiecesSplit(bytes: seq<Byte>, delim: int)
    ensures Joined(Pieces(bytes, delim)) == bytes && WellSplit(Pieces(bytes, delim), delim)
    decreases |bytes|
  {
    if bytes != [] {
      var n := PieceLen(bytes, delim);
      PiecesSplit(bytes[n..], delim);
      WellSplitCons(bytes[..n], Pieces(bytes[n..], delim), delim);
      assert bytes[..n] + bytes[n..] == bytes;
    }
  }

  /** What an error in place of end-of-file leaves of the pieces: a final one without the delimiter is never delivered. */
  function Delivered(pieces: seq<seq<Byte>>, delim: int, broken: bool): seq<seq<Byte>> {
    var n := |pieces|;
    if broken && n > 0 && !HasDelim(pieces[n - 1], delim) then pieces[..n - 1] else pieces
  }

  lemma DeliveredCons(piece: seq<Byte>, rest: seq<seq<Byte>>, delim: int, broken: bool)
    requires HasDelim(piece, delim) || !broken
    ensures Delivered([piece] + rest, delim, broken) == [piece] + Delivered(rest, delim, broken)
  {
    var n := |rest|;
    if n > 0 {
      assert ([piece] + rest)[n] == rest[n - 1];
      assert ([piece] + rest)[..n] == [piece] + rest[..n - 1];
    }
  }

  /** The first piece has the delimiter exactly when the bytes have one. */
  lemma PieceHasDelim(bytes: seq<Byte>, delim: int)
    ensures HasDelim(bytes[..PieceLen(bytes, delim)], delim) == HasDelim(bytes, delim)
  {
    var n := PieceLen(bytes, delim);
    if n < |bytes| {
      assert bytes[..n][n - 1] as int == delim;
    } else {
      assert bytes[..n] == bytes;
    }
  }

  // ------------------------------------------------------------- the growth

  /** The capacity `ao_grow_line_buffer` asks for first. */
  function Roomy(length: nat, sizeMax: nat): nat {
    if length + 2 < sizeMax / 4 then length + 2 + (length + 2) / 2 else length + 2
  }

  /** A full buffer of capacity n grows to one and a half times n plus one, rounded down, and near the largest size to n plus one. */
  lemma GrowsByHalf(capacity: nat, sizeMax: nat)
    requires capacity >= 1
    ensures capacity + 1 < sizeMax / 4 ==> 3 * capacity + 2 <= 2 * Roomy(capacity - 1, sizeMax) <= 3 * capacity + 3
    ensures capacity + 1 >= sizeMax / 4 ==> Roomy(capacity - 1, sizeMax) == capacity + 1
  {
  }

  // ------------------------------------------------------------- the stream

  /** A stream whose remaining bytes end in end-of-file or in a read error. */
  class Stream {
    var rest: seq<Byte>
    const broken: bool

    /** `getc_unlocked`: a byte, or EOF (-1). */
    method Get() returns (c: int)
      modifies this
      ensures old(rest) == [] ==> c == -1 && rest == []
      ensures old(rest) != [] ==> c == old(rest)[0] as int && rest == old(rest)[1..]
    {
      if rest == [] {
        return -1;
      }
      c := rest[0] as int;
      rest := rest[1..];
    }

    constructor (bytes: seq<Byte>, broken: bool)
      ensures rest == bytes && this.broken == broken
    {
      rest := bytes;
      this.broken := broken;
    }
  }

  /** The caller's `*s` and `*n`, with the bytes copied by reallocations counted. */
  class Line {
    var buffer: array?<Byte>
    var capacity: nat
    ghost var copied: nat

    /** The caller's promise: the buffer has the capacity it is said to have. */
    ghost predicate Valid()
      reads this
    {
      buffer != null ==> capacity <= buffer.Length
    }

    /** Without a buffer the caller's capacity does not count. */
    function Usable(): nat
      reads this
    {
      if buffer == null then 0 else capacity
    }

    constructor ()
      ensures Valid() && buffer == null && capacity == 0
    {
      buffer, capacity, copied := null, 0, 0;
    }

    /** `ao_grow_line_buffer`: half as much again, or just enough when that is refused. */
    method Grow(length: nat, sizeMax: nat, granted: nat -> bool) returns (ok: bool)
      requires Valid() && (buffer == null ==> capacity == 0) && length <= capacity <= length + 1
      modifies this
      ensures Valid()
      ensures ok <==> length + 2 <= sizeMax && (granted(Roomy(length, sizeMax)) || granted(length + 2))
      ensures ok ==> buffer != null && fresh(buffer) && capacity >= length + 2
      ensures ok && length > 0 ==> old(buffer) != null && buffer[..length] == old(buffer[..length])
      ensures ok ==> capacity == if granted(Roomy(length, sizeMax)) then Roomy(length, sizeMax) else length + 2
      ensures ok ==> copied == old(copied) + old(capacity)
      ensures !ok ==> buffer == old(buffer) && capacity == old(capacity) && copied == old(copied)
    {
      if length + 2 > sizeMax {
        return false;
      }
      var newCapacity := length + 2;
      if newCapacity < sizeMax / 4 {
        newCapacity := newCapacity + newCapacity / 2;
      }
      if !granted(newCapacity) {
        newCapacity := length + 2;
        if !granted(newCapacity) {
          return false;
        }
      }
      var newBuffer := new Byte[newCapacity];
      if buffer != null {
        forall i | 0 <= i < capacity { newBuffer[i] := buffer[i]; }
      }
      copied := copied + capacity;
      buffer, capacity := newBuffer, newCapacity;
      ok := true;
    }
  }

  lemma {:induction false} PieceEnds(bytes: seq<Byte>, delim: int, n: nat)
    requires n <= |bytes| && forall i :: 0 <= i < n - 1 ==> bytes[i] as int != delim
    requires (0 < n && bytes[n - 1] as int == delim) || (n == |bytes| && !HasDelim(bytes, delim))
    ensures PieceLen(bytes, delim) == n
  {
    if n > 1 {
      assert bytes[0] as int != delim;
      assert HasDelim(bytes[1..], delim) ==> HasDelim(bytes, delim) by {
        if HasDelim(bytes[1..], delim) {
          var i :| 0 <= i < |bytes| - 1 && bytes[1..][i] as int == delim;
          assert bytes[i + 1] as int == delim;
        }
      }
      PieceEnds(bytes[1..], delim, n - 1);
    }
  }

  /** No byte before the end of the piece is the delimiter. */
  lemma {:induction false} WithinPiece(bytes: seq<Byte>, delim: int, count: nat)
    requires count <= |bytes| && forall i :: 0 <= i < count ==> bytes[i] as int != delim
    ensures count <= PieceLen(bytes, delim)
  {
    if count > 0 {
      assert bytes[0] as int != delim;
      WithinPiece(bytes[1..], delim, count - 1);
    }
  }

  /** The allocator grants what a line of up to `most` bytes asks for, and the line is far below the largest size. */
  ghost predicate Generous(most: nat, sizeMax: nat, granted: nat -> bool) {
    most + 2 < sizeMax / 4 && forall m: nat :: m <= most ==> granted(Roomy(m, sizeMax))
  }

  /** The allocator refuses a buffer that a line of up to `most` bytes needs, beyond the capacity there is. */
  ghost predicate Refuses(most: nat, capacity: nat, sizeMax: nat, granted: nat -> bool) {
    exists m: nat :: m <= most && m + 1 >= capacity && Refused(m, sizeMax, granted)
  }

  /** In the reading loop: the bytes so far are in the buffer and hold no delimiter. */
  ghost predicate Reading(line: Line, stream: Stream, bytes: seq<Byte>, count: nat, delim: int)
    reads line, line.buffer, stream
  {
    && line.Valid() && count <= |bytes| && stream.rest == bytes[count..]
    && (forall i :: 0 <= i < count ==> bytes[i] as int != delim)
    && (line.buffer == null ==> count == 0 && line.capacity == 0)
    && (count < line.capacity || count == 0)
    && (count > 0 ==> line.buffer[..count] == bytes[..count])
  }

  lemma NoneSeen(bytes: seq<Byte>, delim: int)
    requires forall i :: 0 <= i < |bytes| ==> bytes[i] as int != delim
    ensures !HasDelim(bytes, delim)
  {
  }

  lemma DelimSeen(bytes: seq<Byte>, delim: int, i: nat)
    requires i < |bytes| && bytes[i] as int == delim
    ensures HasDelim(bytes, delim)
  {
  }

  /** Growing at the end of a full buffer keeps what has been read, and pays for its copy. */
  method MakeRoom(line: Line, stream: Stream, ghost bytes: seq<Byte>, count: nat, delim: int, sizeMax: nat, granted: nat -> bool,
                  ghost most: nat, ghost least: nat)
    returns (ok: bool)
    requires Reading(line, stream, bytes, count, delim) && count + 1 >= line.capacity && count <= most && least <= line.capacity
    modifies line
    ensures Reading(line, stream, bytes, count, delim)
    ensures ok ==> line.buffer != null && fresh(line.buffer) && count + 1 < line.capacity
    ensures !ok ==> Refuses(most, least, sizeMax, granted) && line.buffer == old(line.buffer)
    ensures line.capacity >= old(line.capacity)
    ensures ok ==> line.capacity == if granted(Roomy(count, sizeMax)) then Roomy(count, sizeMax) else count + 2
    ensures Generous(most, sizeMax, granted) && old(line.copied) <= 2 * old(line.capacity) ==>
              ok && line.copied <= 2 * line.capacity
    ensures !ok ==> line.copied == old(line.copied) && line.capacity == old(line.capacity)
  {
    assert !Refused(count, sizeMax, granted) || Refuses(most, least, sizeMax, granted);
    ok := line.Grow(count, sizeMax, granted);
  }

  /** One byte from the stream into the buffer, where there is room for it and a NUL. */
  method ReadByte(line: Line, stream: Stream, ghost bytes: seq<Byte>, count: nat, delim: int) returns (c: int)
    requires Reading(line, stream, bytes, count, delim) && line.buffer != null && count + 1 < line.capacity
    modifies stream, line.buffer
    ensures c == -1 <==> count == |bytes|
    ensures c == -1 ==> Reading(line, stream, bytes, count, delim)
    ensures c != -1 ==> c == bytes[count] as int && stream.rest == bytes[count + 1..]
    ensures c != -1 ==> line.buffer[..count + 1] == bytes[..count + 1]
    ensures c != -1 && c != delim ==> Reading(line, stream, bytes, count + 1, delim)
  {
    c := stream.Get();
    if c != -1 {
      line.buffer[count] := c as Byte;
      assert line.buffer[..count + 1] == line.buffer[..count] + [line.buffer[count]];
    }
  }

  /** One turn of the reading loop: room for a byte and a NUL, then a byte from the stream. */
  method NextByte(line: Line, stream: Stream, ghost bytes: seq<Byte>, count: nat, delim: int, sizeMax: nat, granted: nat -> bool,
                  ghost least: nat)
    returns (c: int, refused: bool)
    requires Reading(line, stream, bytes, count, delim) && least <= line.capacity
    modifies line, line.buffer, stream
    ensures line.buffer == old(line.buffer) || fresh(line.buffer)
    ensures line.capacity >= old(line.capacity) && (line.capacity == 0 || line.buffer != null)
    ensures refused ==> Reading(line, stream, bytes, count, delim) && Refuses(PieceLen(bytes, delim), least, sizeMax, granted)
    ensures !refused ==> line.Valid() && line.buffer != null && count + 1 < line.capacity && (c == -1 <==> count == |bytes|)
    ensures !refused && c == -1 ==> Reading(line, stream, bytes, count, delim)
    ensures !refused && c != -1 ==>
              c == bytes[count] as int && stream.rest == bytes[count + 1..] && line.buffer[..count + 1] == bytes[..count + 1]
    ensures !refused && c != -1 && c != delim ==> Reading(line, stream, bytes, count + 1, delim)
    ensures Generous(PieceLen(bytes, delim), sizeMax, granted) && old(line.copied) <= 2 * old(line.capacity) ==>
              !refused && line.copied <= 2 * line.capacity
  {
    hide Generous, Refuses, PieceLen;
    c, refused := 0, false;
    WithinPiece(bytes, delim, count);
    if count + 1 >= line.capacity {
      var ok := MakeRoom(line, stream, bytes, count, delim, sizeMax, granted, PieceLen(bytes, delim), least);
      if !ok {
        return -1, true;
      }
    }
    c := ReadByte(line, stream, bytes, count, delim);
  }

  /** The reading loop, up to the delimiter or the end. */
  method ReadPiece(line: Line, delim: int, stream: Stream, sizeMax: nat, granted: nat -> bool)
    returns (length: int, refused: bool)
    requires Reading(line, stream, stream.rest, 0, delim) && line.copied == 0
    modifies line, line.buffer, stream
    ensures line.Valid()
    ensures var bytes := old(stream.rest);
            length >= 0 <==> !refused && bytes != [] && (stream.broken ==> HasDelim(bytes, delim))
    ensures var bytes := old(stream.rest);
            length >= 0 ==>
              && length == PieceLen(bytes, delim) && stream.rest == bytes[length..]
              && line.buffer != null && length < line.capacity && line.buffer[..length] == bytes[..length]
    ensures line.buffer == old(line.buffer) || fresh(line.buffer)
    ensures line.buffer == null ==> line.capacity == 0
    ensures length < 0 && !refused ==> stream.rest == []
    ensures |stream.rest| <= |old(stream.rest)| && stream.rest == old(stream.rest)[|old(stream.rest)| - |stream.rest|..]
    ensures refused ==> Refuses(PieceLen(old(stream.rest), delim), old(line.capacity), sizeMax, granted)
    ensures length < 0 ==> length == -1
    ensures line.capacity >= old(line.capacity)
    ensures Generous(PieceLen(old(stream.rest), delim), sizeMax, granted) ==> !refused && line.copied <= 2 * line.capacity
  {
    hide Generous, Refuses, HasDelim, PieceLen;
    ghost var bytes := stream.rest;
    var count := 0;
    while true
      invariant Reading(line, stream, bytes, count, delim)
      invariant line.buffer == old(line.buffer) || fresh(line.buffer)
      invariant line.capacity >= old(line.capacity)
      invariant Generous(PieceLen(bytes, delim), sizeMax, granted) ==> line.copied <= 2 * line.capacity
      decreases |stream.rest|
    {
      var c;
      c, refused := NextByte(line, stream, bytes, count, delim, sizeMax, granted, old(line.capacity));
      if refused {
        return -1, true;
      }
      if c == -1 {
        NoneSeen(bytes, delim);
        if count == 0 || stream.broken {
          return -1, false;
        }
        PieceEnds(bytes, delim, count);
        return count, false;
      }
      if c == delim {
        DelimSeen(bytes, delim, count);
        PieceEnds(bytes, delim, count + 1);
        return count + 1, false;
      }
      count := count + 1;
    }
  }

  /** `getdelim`: it returns the first piece of what is left, NUL-terminated in the line buffer; it returns -1 when
      nothing is left, when the stream breaks before a delimiter, or when the allocator refuses. */
  method GetDelim(line: Line, delim: int, stream: Stream, sizeMax: nat, granted: nat -> bool)
    returns (length: int, refused: bool)
    requires line.Valid()
    modifies line, line.buffer, stream
    ensures line.Valid()
    ensures var bytes := old(stream.rest);
            length >= 0 <==> !refused && bytes != [] && (stream.broken ==> HasDelim(bytes, delim))
    ensures var bytes := old(stream.rest);
            length >= 0 ==>
              && length == PieceLen(bytes, delim) && stream.rest == bytes[length..]
              && line.buffer != null && length < line.capacity
              && line.buffer[..length] == bytes[..length] && line.buffer[length] == 0
    ensures line.buffer == old(line.buffer) || fresh(line.buffer)
    ensures line.buffer == null ==> line.capacity == 0
    ensures length < 0 && !refused ==> stream.rest == []
    ensures |stream.rest| <= |old(stream.rest)| && stream.rest == old(stream.rest)[|old(stream.rest)| - |stream.rest|..]
    ensures refused ==> Refuses(PieceLen(old(stream.rest), delim), old(line.Usable()), sizeMax, granted)
    ensures length < 0 ==> length == -1
    ensures line.capacity >= old(line.Usable())
    ensures Generous(PieceLen(old(stream.rest), delim), sizeMax, granted) ==> !refused && line.copied <= 2 * line.capacity
  {
    line.copied := 0;
    if line.buffer == null {
      line.capacity := 0;
    }
    length, refused := ReadPiece(line, delim, stream, sizeMax, granted);
    if length >= 0 {
      line.buffer[length] := 0;
    }
  }

  /** One call on the way through a stream: the pieces still to come are this one and those of the rest. */
  lemma NextPiece(bytes: seq<Byte>, delim: int, broken: bool)
    requires bytes != [] && (broken ==> HasDelim(bytes, delim))
    ensures var n := PieceLen(bytes, delim);
            Delivered(Pieces(bytes, delim), delim, broken)
            == [bytes[..n]] + Delivered(Pieces(bytes[n..], delim), delim, broken)
  {
    PieceHasDelim(bytes, delim);
    DeliveredCons(bytes[..PieceLen(bytes, delim)], Pieces(bytes[PieceLen(bytes, delim)..], delim), delim, broken);
  }

  /** Where a call returns -1 without a refusal, no piece is still to come. */
  lemma NoMorePieces(bytes: seq<Byte>, delim: int, broken: bool)
    requires bytes == [] || (broken && !HasDelim(bytes, delim))
    ensures Delivered(Pieces(bytes, delim), delim, broken) == []
  {
    if bytes != [] {
      var n := PieceLen(bytes, delim);
      assert n == |bytes| by { if n < |bytes| { assert HasDelim(bytes, delim); } }
      assert bytes[..n] == bytes && bytes[n..] == [];
    }
  }

  /** Capacities after the pieces of a stream: they never shrink, and each holds its piece and the NUL. */
  ghost predicate Growing(pieces: seq<seq<Byte>>, capacities: seq<nat>, low: nat, high: nat) {
    && |capacities| == |pieces| && low <= high
    && (forall k :: 0 <= k < |pieces| ==> |pieces[k]| < capacities[k] && low <= capacities[k] <= high)
    && (forall j, k :: 0 <= j < k < |pieces| ==> capacities[j] <= capacities[k])
  }

  lemma GrowingSnoc(pieces: seq<seq<Byte>>, capacities: seq<nat>, low: nat, high: nat, piece: seq<Byte>, capacity: nat)
    requires Growing(pieces, capacities, low, high) && high <= capacity && |piece| < capacity
    ensures Growing(pieces + [piece], capacities + [capacity], low, capacity)
  {
  }

  /** One call of the loop below: the next piece as the caller finds it in the buffer. */
  method ReadNext(line: Line, delim: int, stream: Stream, sizeMax: nat, granted: nat -> bool)
    returns (found: bool, refused: bool, piece: seq<Byte>)
    requires line.Valid()
    modifies line, line.buffer, stream
    ensures line.Valid() && (line.buffer == old(line.buffer) || fresh(line.buffer))
    ensures old(line.Usable()) <= line.Usable() == line.capacity
    ensures |stream.rest| <= |old(stream.rest)|
    ensures found ==> !refused && |piece| < line.capacity && |stream.rest| < |old(stream.rest)|
    ensures found ==> Delivered(Pieces(old(stream.rest), delim), delim, stream.broken)
                      == [piece] + Delivered(Pieces(stream.rest, delim), delim, stream.broken)
    ensures !found && !refused ==> stream.rest == [] && Delivered(Pieces(old(stream.rest), delim), delim, stream.broken) == []
    ensures refused ==> !Generous(|old(stream.rest)|, sizeMax, granted)
  {
    hide Pieces, Delivered, Refuses, HasDelim, Generous;
    ghost var bytes := stream.rest;
    GenerousPiece(bytes, delim, sizeMax, granted);
    var length;
    length, refused := GetDelim(line, delim, stream, sizeMax, granted);
    found, piece := length >= 0, [];
    if found {
      NextPiece(bytes, delim, stream.broken);
      piece := line.buffer[..length];
    } else if !refused {
      NoMorePieces(bytes, delim, stream.broken);
    }
    assert refused ==> !Generous(PieceLen(bytes, delim), sizeMax, granted);
  }

  lemma GenerousPiece(bytes: seq<Byte>, delim: int, sizeMax: nat, granted: nat -> bool)
    ensures Generous(|bytes|, sizeMax, granted) ==> Generous(PieceLen(bytes, delim), sizeMax, granted)
  {
  }

  /** A caller's loop that reuses one buffer until `getdelim` returns -1. Unless the allocator refuses, it sees exactly the pieces
      of the stream, without a final unfinished one where the stream breaks; the capacity never shrinks. */
  method ReadAll(line: Line, delim: int, stream: Stream, sizeMax: nat, granted: nat -> bool)
    returns (pieces: seq<seq<Byte>>, refused: bool, ghost capacities: seq<nat>)
    requires line.Valid()
    modifies line, line.buffer, stream
    ensures line.Valid()
    ensures !refused ==> pieces == Delivered(Pieces(old(stream.rest), delim), delim, stream.broken) && stream.rest == []
    ensures pieces <= Delivered(Pieces(old(stream.rest), delim), delim, stream.broken)
    ensures Growing(pieces, capacities, old(line.Usable()), line.capacity)
    ensures Generous(|old(stream.rest)|, sizeMax, granted) ==> !refused
  {
    hide Pieces, Delivered, Generous, Growing;
    ghost var all := Delivered(Pieces(stream.rest, delim), delim, stream.broken);
    ghost var low := line.Usable();
    GrowingEmpty(low, low);
    pieces, refused, capacities := [], false, [];
    while true
      invariant line.Valid() && (line.buffer == old(line.buffer) || fresh(line.buffer))
      invariant pieces + Delivered(Pieces(stream.rest, delim), delim, stream.broken) == all
      invariant Growing(pieces, capacities, low, line.Usable())
      invariant |stream.rest| <= |old(stream.rest)|
      decreases |stream.rest|
    {
      ghost var high := line.Usable();
      GenerousLess(|stream.rest|, |old(stream.rest)|, sizeMax, granted);
      var found, piece;
      found, refused, piece := ReadNext(line, delim, stream, sizeMax, granted);
      if !found {
        GrowingMore(pieces, capacities, low, high, line.capacity);
        return;
      }
      GrowingSnoc(pieces, capacities, low, high, piece, line.capacity);
      Regroup(pieces, piece, Delivered(Pieces(stream.rest, delim), delim, stream.broken));
      pieces := pieces + [piece];
      capacities := capacities + [line.capacity];
    }
  }

  lemma GenerousLess(n: nat, most: nat, sizeMax: nat, granted: nat -> bool)
    requires n <= most
    ensures Generous(most, sizeMax, granted) ==> Generous(n, sizeMax, granted)
  {
  }

  lemma GrowingEmpty(low: nat, high: nat)
    requires low <= high
    ensures Growing([], [], low, high)
  {
  }

  lemma GrowingMore(pieces: seq<seq<Byte>>, capacities: seq<nat>, low: nat, high: nat, higher: nat)
    requires Growing(pieces, capacities, low, high) && high <= higher
    ensures Growing(pieces, capacities, low, higher)
  {
  }

  lemma Regroup(pieces: seq<seq<Byte>>, piece: seq<Byte>, rest: seq<seq<Byte>>)
    ensures pieces + ([piece] + rest) == pieces + [piece] + rest
  {
  }

  /** The allocator will not give a buffer for `length` bytes and their NUL. */
  predicate Refused(length: nat, sizeMax: nat, granted: nat -> bool) {
    length + 2 > sizeMax || !granted(length + 2)
  }
}
