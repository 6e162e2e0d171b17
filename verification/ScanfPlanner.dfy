/** The narrow format parser as the program runs it: a cursor that moves over the format,
    and a growable plan that records are pushed into. */
module ScanfPlanner {
  import opened Bits
  import opened ScanfFormat

  /** `ao_scanf_plan`: records in a buffer that doubles. */
  class Plan {
    var records: array<Record>
    var count: nat

    ghost predicate Valid()
      reads this
    {
      records.Length == CapacityFor(count)
    }

    ghost function Contents(): seq<Record>
      requires Valid()
      reads this, records
    {
      records[..count]
    }

    constructor ()
      ensures Valid() && fresh(records) && Contents() == []
    {
      records := new Record[0];
      count := 0;
    }

    /** `ao_scanf_plan_push`: it fails exactly when the buffer is full and a bigger one is refused. */
    method Push(r: Record, granted: nat -> bool) returns (ok: bool)
      requires Valid()
      modifies this, records
      ensures Valid() && (records == old(records) || fresh(records))
      ensures Contents() == if ok then old(Contents()) + [r] else old(Contents())
      ensures ok <==> HasRoom(old(count), granted)
    {
      if count == records.Length {
        var capacity := Bigger(records.Length);
        if !granted(capacity) {
          return false;
        }
        var more := new Record[capacity](_ => r);
        forall i | 0 <= i < count { more[i] := records[i]; }
        records := more;
      }
      records[count] := r;
      count := count + 1;
      ok := true;
    }
  }

  function Bigger(capacity: nat): nat {
    if capacity == 0 then 8 else capacity * 2
  }

  /** The capacity behind `count` pushes into an empty plan. */
  function CapacityFor(count: nat): (capacity: nat)
    ensures count <= capacity
  {
    if count == 0 then 0
    else if CapacityFor(count - 1) < count then Bigger(CapacityFor(count - 1))
    else CapacityFor(count - 1)
  }

  /** One more record fits, or the bigger buffer it needs is granted. */
  predicate HasRoom(count: nat, granted: nat -> bool) {
    count < CapacityFor(count) || granted(Bigger(CapacityFor(count)))
  }

  /** Every buffer that the first `n` records need is granted. */
  predicate Grants(granted: nat -> bool, n: nat) {
    forall k: nat :: k < n ==> HasRoom(k, granted)
  }

  /** A plan never asks for more than 8 records or twice what it holds. */
  lemma {:induction false} CapacityBound(count: nat)
    requires count > 0
    ensures if count <= 8 then CapacityFor(count) == 8 else CapacityFor(count) <= 2 * (count - 1)
  {
    if count > 1 { CapacityBound(count - 1); }
  }

  /** It is the least of 8, 16, 32, … that holds the records. */
  lemma {:induction false} CapacityDoubles(count: nat) returns (j: nat)
    requires count > 0
    ensures CapacityFor(count) == 8 * Pow2(j) && (j > 0 ==> 8 * Pow2(j - 1) < count)
  {
    j := 0;
    if count > 1 {
      j := CapacityDoubles(count - 1);
      if CapacityFor(count - 1) < count { j := j + 1; }
    }
  }

  /** So an allocator that grants every buffer up to that size grants all that `n` records need. */
  lemma EnoughGranted(granted: nat -> bool, n: nat)
    requires forall c: nat :: c <= 8 || c <= 2 * n ==> granted(c)
    ensures Grants(granted, n)
  {
    forall k: nat | k < n ensures HasRoom(k, granted) {
      CapacityBound(k + 1);
    }
  }

  // --------------------------------------------------------- the helpers

  // A cursor is the text from it on; `p[1..]` is `p + 1`.

  lemma DigitsSnoc(ds: string, c: char)
    requires AllDigits(ds) && IsDigit(c)
    ensures AllDigits(ds + [c]) && (ds + [c])[..|ds + [c]| - 1] == ds
  {
  }

  /** `ao_parse_width_char`. */
  method ReadWidth(cursor: string, sizeMax: nat) returns (width: nat, p: string)
    requires sizeMax >= 9
    ensures (width, p) == ParseWidth(cursor, sizeMax)
  {
    width, p := 0, cursor;
    ghost var seen := "";
    while IsDigit(Peek(p))
      invariant cursor == seen + p && AllDigits(seen) && width == WidthOf(seen, sizeMax)
      decreases |p|
    {
      DigitsSnoc(seen, p[0]);
      width := WidthStep(width, DigitOf(p[0]), sizeMax);
      seen, p := seen + [p[0]], p[1..];
    }
    DigitRunOf(seen, p);
  }

  /** `ao_parse_position_char`: the cursor moves behind `$`, also when the number is zero. */
  method ReadPosition(cursor: string) returns (found: bool, value: nat, p: string)
    requires Peek(cursor) != '*'
    ensures (if found then Positional(value) else Sequential, p) == ParseDest(cursor)
  {
    value, p := 0, cursor;
    ghost var seen := "";
    while IsDigit(Peek(p))
      invariant cursor == seen + p && AllDigits(seen) && value == PositionOf(seen)
      decreases |p|
    {
      DigitsSnoc(seen, p[0]);
      value := PositionStep(value, DigitOf(p[0]));
      seen, p := seen + [p[0]], p[1..];
    }
    DigitRunOf(seen, p);
    DestCases(cursor, seen, p);
    if !IsDigit(Peek(cursor)) || Peek(p) != '$' {
      return false, 0, cursor;
    }
    p := p[1..];
    found := value != 0;
  }

  /** `ao_skip_scanset_char`. */
  method SkipSet(cursor: string) returns (p: string)
    ensures p == SkipScanset(cursor)
  {
    hide BodyLen;
    p := cursor;
    if Peek(p) == '^' {
      p := p[1..];
    }
    if Peek(p) == ']' {
      p := p[1..];
    }
    p := SkipBody(p);
    if Peek(p) == ']' {
      p := p[1..];
    }
  }

  method SkipBody(cursor: string) returns (p: string)
    ensures p == cursor[BodyLen(cursor)..]
  {
    p := cursor;
    ghost var seen := "";
    while p != "" && Peek(p) != ']'
      invariant cursor == seen + p && ']' !in seen
      decreases |p|
    {
      seen, p := seen + [p[0]], p[1..];
    }
    BodyLenOf(seen, p);
  }

  /** The `m` flag and the length modifier. */
  method ReadModifiers(cursor: string) returns (alloc: bool, long: bool, p: string)
    ensures var (a, t) := ParseAlloc(cursor); alloc == a && (long, p) == ParseLength(t)
  {
    alloc, long, p := false, false, cursor;
    if Peek(p) == 'm' {
      alloc := true;
      p := p[1..];
    }
    if Peek(p) == 'l' {
      p := p[1..];
      if Peek(p) != 'l' {
        long := true;
      }
      if Peek(p) == 'l' {
        p := p[1..];
      }
    } else if Peek(p) in {'h', 'j', 'z', 't', 'L'} {
      if Peek(p) == 'h' && Peek(p[1..]) == 'h' {
        p := p[1..];
      }
      p := p[1..];
    }
  }

  /** Everything from behind the `%` up to the conversion character, with the argument it names. */
  method ReadHead(cursor: string, sizeMax: nat, args: nat -> nat, used: nat)
    returns (h: Head, dest: nat, used': nat)
    requires sizeMax >= 9
    ensures h == ParseHead(cursor, sizeMax)
    ensures dest == Argument(args, used, h.dest) && used' == UsedAfter(used, h.dest)
  {
    hide WidthOf, PositionOf, DigitRun;
    var p := cursor;
    var which := NoDest;
    dest, used' := 0, used;
    if Peek(p) == '*' {
      p := p[1..];
    } else {
      var found, value;
      found, value, p := ReadPosition(p);
      if found {
        which, dest := Positional(value), if value == 0 then 0 else args(used + value - 1);
      } else {
        which, dest, used' := Sequential, args(used), used + 1;
      }
    }
    assert (which, p) == ParseDest(cursor);
    var width, alloc, long;
    width, p := ReadWidth(p, sizeMax);
    alloc, long, p := ReadModifiers(p);
    h := Head(which, width, alloc, long, p);
  }

  // --------------------------------------------------------- the parser

  /** `ao_record_narrow_m_conversion`. */
  method PushNarrow(plan: Plan, dest: nat, ordinal: nat, long: bool, count: bool, width: nat, granted: nat -> bool) returns (ok: bool)
    requires plan.Valid()
    modifies plan, plan.records
    ensures plan.Valid() && (plan.records == old(plan.records) || fresh(plan.records))
    ensures ok <==> NarrowRecord(dest, ordinal, long, count, width) == [] || HasRoom(old(plan.count), granted)
    ensures plan.Contents() == old(plan.Contents()) + if ok then NarrowRecord(dest, ordinal, long, count, width) else []
  {
    if dest == 0 {
      return true;
    }
    var mode := if count then (if long then WideCount else CharCount) else (if long then WideString else CharString);
    ok := plan.Push(Record(dest, ordinal, mode, width), granted);
  }

  /** One conversion behind its head: the record, and the text behind a scanset. */
  method Convert(plan: Plan, h: Head, dest: nat, ordinal: nat, ghost args: nat -> nat, ghost used: nat, granted: nat -> bool)
    returns (ok: bool, p: string, ordinal': nat)
    requires plan.Valid() && h.rest != "" && dest == Argument(args, used, h.dest)
    modifies plan, plan.records
    ensures plan.Valid() && (plan.records == old(plan.records) || fresh(plan.records))
    ensures ok <==> Conversion(h, h.rest[0], ordinal, args, used) == [] || HasRoom(old(plan.count), granted)
    ensures plan.Contents() == old(plan.Contents()) + if ok then Conversion(h, h.rest[0], ordinal, args, used) else []
    ensures ok ==> p == Behind(h.rest[0], h.rest[1..]) && ordinal' == OrdinalAfter(ordinal, h, h.rest[0])
  {
    hide FoldsToLower, IsSpec, SkipScanset, NarrowRecord, HasRoom;
    var c := h.rest[0];
    p := h.rest[1..];
    ok, ordinal' := true, ordinal;
    var long := h.long || FoldsToLower(c);
    var suppressed := h.dest.NoDest?;
    if h.alloc && !suppressed && (IsSpec(c, 's') || IsSpec(c, 'c') || IsSpec(c, '[')) {
      var count := IsSpec(c, 'c');
      var width := if count && h.width == 0 then 1 else h.width;
      ok := PushNarrow(plan, dest, ordinal + 1, long, count, width, granted);
      if !ok {
        return;
      }
    }
    if IsSpec(c, '[') {
      p := SkipSet(p);
    }
    if !suppressed && !IsSpec(c, 'n') {
      ordinal' := ordinal' + 1;
    }
  }

  lemma ParseConversion(t: string, sizeMax: nat, args: nat -> nat, used: nat, ordinal: nat)
    requires sizeMax >= 9 && t != "" && t[0] == '%' && Peek(t[1..]) != '%'
    ensures var h := ParseHead(t[1..], sizeMax);
            Parse(t, sizeMax, args, used, ordinal) ==
            if h.rest == "" then []
            else Conversion(h, h.rest[0], ordinal, args, used)
                 + Parse(Behind(h.rest[0], h.rest[1..]), sizeMax, args, UsedAfter(used, h.dest), OrdinalAfter(ordinal, h, h.rest[0]))
  {
    hide ParseHead, Conversion, Behind;
  }

  lemma ParseLiteral(t: string, sizeMax: nat, args: nat -> nat, used: nat, ordinal: nat)
    requires sizeMax >= 9 && t != "" && (t[0] != '%' || Peek(t[1..]) == '%')
    ensures Parse(t, sizeMax, args, used, ordinal)
            == Parse(if t[0] != '%' then t[1..] else t[2..], sizeMax, args, used, ordinal)
  {
  }

  /** `ao_parse_scanf_format`: the plan, unless a buffer it needs is refused; then what was planned so far. */
  method ParseFormat(format: string, sizeMax: nat, args: nat -> nat, plan: Plan, granted: nat -> bool) returns (ok: bool)
    requires plan.Valid() && plan.Contents() == [] && sizeMax >= 9
    modifies plan, plan.records
    ensures plan.Valid()
    ensures ok <==> Grants(granted, |Parse(format, sizeMax, args, 0, 0)|)
    ensures ok ==> plan.Contents() == Parse(format, sizeMax, args, 0, 0)
    ensures plan.Contents() <= Parse(format, sizeMax, args, 0, 0)
  {
    hide Parse, ParseHead, Conversion, Behind, OrdinalAfter, UsedAfter, HasRoom;
    ghost var whole := Parse(format, sizeMax, args, 0, 0);
    var p, used, ordinal := format, 0, 0;
    while p != ""
      invariant plan.Valid() && (plan.records == old(plan.records) || fresh(plan.records))
      invariant plan.Contents() + Parse(p, sizeMax, args, used, ordinal) == whole
      invariant Grants(granted, plan.count)
      decreases |p|
    {
      if p[0] != '%' || Peek(p[1..]) == '%' {
        ParseLiteral(p, sizeMax, args, used, ordinal);
        p := if p[0] != '%' then p[1..] else p[2..];
        continue;
      }
      ParseConversion(p, sizeMax, args, used, ordinal);
      var h, dest, used' := ReadHead(p[1..], sizeMax, args, used);
      if h.rest == "" {
        p := "";
        break;
      }
      var p', ordinal';
      ghost var before := plan.Contents();
      CountedConversion(h, h.rest[0], ordinal, args, used);
      ok, p', ordinal' := Convert(plan, h, dest, ordinal, args, used, granted);
      if !ok {
        Stopped(granted, before, whole, Parse(p, sizeMax, args, used, ordinal));
        return;
      }
      Regroup(before, Conversion(h, h.rest[0], ordinal, args, used), Parse(p', sizeMax, args, used', ordinal'));
      p, used, ordinal := p', used', ordinal';
    }
    ParseEnds(sizeMax, args, used, ordinal);
    ok := true;
  }

  /** The first record that finds no room is one that the plan needs. */
  lemma Stopped(granted: nat -> bool, before: seq<Record>, whole: seq<Record>, rest: seq<Record>)
    requires whole == before + rest && rest != [] && !HasRoom(|before|, granted)
    ensures !Grants(granted, |whole|) && before + [] <= whole
  {
  }

  lemma ParseEnds(sizeMax: nat, args: nat -> nat, used: nat, ordinal: nat)
    requires sizeMax >= 9
    ensures Parse("", sizeMax, args, used, ordinal) == []
  {
  }

  lemma Regroup(a: seq<Record>, b: seq<Record>, c: seq<Record>)
    ensures a + (b + c) == a + b + c
  {
  }
}
