/** The wide format parser as the program runs it: a second copy of the parser and of its helpers, over wide
    characters, pushing into the same plan. */
module WscanfPlanner {
  import opened Bits
  import opened ScanfFormat
  import opened WscanfFormat
  import opened ScanfPlanner

  // A cursor is the code points from it on; `p[1..]` is `p + 1`.

  /** `ao_parse_width_wchar`. */
  method ReadWideWidth(cursor: Wide, sizeMax: nat) returns (width: nat, p: Wide)
    requires sizeMax >= 9
    ensures (width, p) == WidthLoop(cursor, 0, sizeMax)
  {
    width, p := 0, cursor;
    while IsWideDigit(At(p))
      invariant WidthLoop(p, width, sizeMax) == WidthLoop(cursor, 0, sizeMax)
      decreases |p|
    {
      if width > (sizeMax - 9) / 10 {
        width := sizeMax;
      } else {
        width := width * 10 + (p[0] - '0' as nat);
      }
      p := p[1..];
    }
  }

  /** `ao_parse_position_wchar`: the cursor moves behind `$`, also when the number is zero. */
  method ReadWidePosition(cursor: Wide) returns (found: bool, position: nat, p: Wide)
    ensures (found, position, p) == WidePosition(cursor)
  {
    if !IsWideDigit(At(cursor)) {
      return false, 0, cursor;
    }
    var value: nat := 0;
    p := cursor;
    while IsWideDigit(At(p))
      invariant PositionLoop(p, value) == PositionLoop(cursor, 0)
      decreases |p|
    {
      value := (value * 10 + (p[0] - '0' as nat)) % UINT_RANGE;
      p := p[1..];
    }
    if At(p) != '$' as nat {
      return false, 0, cursor;
    }
    return value != 0, value, p[1..];
  }

  /** `ao_skip_scanset_wchar`. */
  method SkipSetWide(cursor: Wide) returns (p: Wide)
    ensures p == SkipWideSet(cursor)
  {
    p := cursor;
    if At(p) == '^' as nat {
      p := p[1..];
    }
    if At(p) == ']' as nat {
      p := p[1..];
    }
    ghost var body := p;
    while p != [] && At(p) != ']' as nat
      invariant ToBracket(p) == ToBracket(body)
      decreases |p|
    {
      p := p[1..];
    }
    if At(p) == ']' as nat {
      p := p[1..];
    }
  }

  /** The length modifier. */
  method ReadWideLength(cursor: Wide) returns (long: bool, p: Wide)
    ensures (long, p) == WideLength(cursor)
  {
    long, p := false, cursor;
    if At(p) == 'l' as nat {
      p := p[1..];
      if At(p) != 'l' as nat {
        long := true;
      }
      if At(p) == 'l' as nat {
        p := p[1..];
      }
    } else if IsShort(At(p)) {
      if At(p) == 'h' as nat && At(p[1..]) == 'h' as nat {
        p := p[1..];
      }
      p := p[1..];
    }
  }

  /** Everything from behind the `%` up to the conversion character, with the argument it names. */
  method ReadHeadWide(cursor: Wide, sizeMax: nat, args: nat -> nat, used: nat) returns (h: WideHead)
    requires sizeMax >= 9
    ensures h == ReadWideHead(cursor, sizeMax, args, used)
  {
    hide WidthLoop, PositionLoop, WidePosition, WideLength;
    var p, suppressed, dest, used' := cursor, false, 0, used;
    if At(p) == '*' as nat {
      suppressed := true;
      p := p[1..];
    } else {
      var found, position;
      found, position, p := ReadWidePosition(p);
      if found {
        dest := args(used + position - 1);
      } else {
        dest, used' := args(used), used + 1;
      }
    }
    assert WideTarget(cursor, args, used) == WideDest(suppressed, dest, used', p);
    var width := 0;
    if IsWideDigit(At(p)) {
      width, p := ReadWideWidth(p, sizeMax);
    }
    var alloc := false;
    if At(p) == 'm' as nat {
      alloc := true;
      p := p[1..];
    }
    var long;
    long, p := ReadWideLength(p);
    h := WideHead(suppressed, dest, used', width, alloc, long, p);
  }

  /** `ao_record_wide_m_conversion`. */
  method PushWide(plan: Plan, dest: nat, ordinal: nat, long: bool, count: bool, width: nat, granted: nat -> bool) returns (ok: bool)
    requires plan.Valid()
    modifies plan, plan.records
    ensures plan.Valid() && (plan.records == old(plan.records) || fresh(plan.records))
    ensures ok <==> WideRecord(dest, ordinal, long, count, width) == [] || HasRoom(old(plan.count), granted)
    ensures plan.Contents() == old(plan.Contents()) + if ok then WideRecord(dest, ordinal, long, count, width) else []
  {
    if dest == 0 {
      return true;
    }
    var mode := if count then (if long then WideCount else UnsupportedWideCharCount) else (if long then WideString else CharString);
    ok := plan.Push(Record(dest, ordinal, mode, width), granted);
  }

  /** One conversion behind its head: the record, and the text behind a scanset. */
  method ConvertWide(plan: Plan, h: WideHead, ordinal: nat, granted: nat -> bool) returns (ok: bool, p: Wide, ordinal': nat)
    requires plan.Valid() && h.rest != []
    modifies plan, plan.records
    ensures plan.Valid() && (plan.records == old(plan.records) || fresh(plan.records))
    ensures ok <==> WideConversion(h, h.rest[0], ordinal) == [] || HasRoom(old(plan.count), granted)
    ensures plan.Contents() == old(plan.Contents()) + if ok then WideConversion(h, h.rest[0], ordinal) else []
    ensures ok ==> p == WideBehind(h.rest[0], h.rest[1..]) && ordinal' == WideOrdinal(ordinal, h, h.rest[0])
  {
    hide And, Or, SkipWideSet, WideRecord, HasRoom;
    var spec, long := h.rest[0], h.long;
    p := h.rest[1..];
    ok, ordinal' := true, ordinal;
    if And(spec, 0x2f) == 3 {
      spec := Or(spec, 32);
      long := true;
    }
    assert spec == WideSpec(h.rest[0]) && long == (h.long || WideFolds(h.rest[0]));
    if h.alloc && !h.suppressed && (spec == 's' as nat || spec == 'c' as nat || spec == '[' as nat) {
      var width := if spec == 'c' as nat && h.width == 0 then 1 else h.width;
      ok := PushWide(plan, h.dest, ordinal + 1, long, spec == 'c' as nat, width, granted);
      if !ok {
        return;
      }
    }
    if spec == '[' as nat {
      p := SkipSetWide(p);
    }
    if !h.suppressed && spec != 'n' as nat {
      ordinal' := ordinal' + 1;
    }
  }

  lemma WideConversionParses(p: Wide, sizeMax: nat, args: nat -> nat, used: nat, ordinal: nat)
    requires sizeMax >= 9 && p != [] && p[0] == '%' as nat && At(p[1..]) != '%' as nat
    ensures var h := ReadWideHead(p[1..], sizeMax, args, used);
            ParseWide(p, sizeMax, args, used, ordinal) ==
            if h.rest == [] then []
            else WideConversion(h, h.rest[0], ordinal)
                 + ParseWide(WideBehind(h.rest[0], h.rest[1..]), sizeMax, args, h.used, WideOrdinal(ordinal, h, h.rest[0]))
  {
    hide ReadWideHead, WideConversion, WideBehind;
  }

  lemma WideLiteralParses(p: Wide, sizeMax: nat, args: nat -> nat, used: nat, ordinal: nat)
    requires sizeMax >= 9 && p != [] && (p[0] != '%' as nat || At(p[1..]) == '%' as nat)
    ensures ParseWide(p, sizeMax, args, used, ordinal)
            == ParseWide(if p[0] != '%' as nat then p[1..] else p[2..], sizeMax, args, used, ordinal)
  {
  }

  lemma WideEnds(sizeMax: nat, args: nat -> nat, used: nat, ordinal: nat)
    requires sizeMax >= 9
    ensures ParseWide([], sizeMax, args, used, ordinal) == []
  {
  }

  /** `ao_parse_wscanf_format`: the plan, unless a buffer it needs is refused; then what was planned so far. */
  method ParseWideFormat(format: Wide, sizeMax: nat, args: nat -> nat, plan: Plan, granted: nat -> bool) returns (ok: bool)
    requires plan.Valid() && plan.Contents() == [] && sizeMax >= 9
    modifies plan, plan.records
    ensures plan.Valid()
    ensures ok <==> Grants(granted, |ParseWide(format, sizeMax, args, 0, 0)|)
    ensures ok ==> plan.Contents() == ParseWide(format, sizeMax, args, 0, 0)
    ensures plan.Contents() <= ParseWide(format, sizeMax, args, 0, 0)
  {
    hide ParseWide, ReadWideHead, WideConversion, WideBehind, WideOrdinal, HasRoom;
    ghost var whole := ParseWide(format, sizeMax, args, 0, 0);
    var p, used, ordinal := format, 0, 0;
    while p != []
      invariant plan.Valid() && (plan.records == old(plan.records) || fresh(plan.records))
      invariant plan.Contents() + ParseWide(p, sizeMax, args, used, ordinal) == whole
      invariant Grants(granted, plan.count)
      decreases |p|
    {
      if p[0] != '%' as nat || At(p[1..]) == '%' as nat {
        WideLiteralParses(p, sizeMax, args, used, ordinal);
        p := if p[0] != '%' as nat then p[1..] else p[2..];
        continue;
      }
      WideConversionParses(p, sizeMax, args, used, ordinal);
      var h := ReadHeadWide(p[1..], sizeMax, args, used);
      if h.rest == [] {
        p := [];
        break;
      }
      var p', ordinal';
      ghost var before := plan.Contents();
      CountedWide(h, h.rest[0], ordinal);
      ok, p', ordinal' := ConvertWide(plan, h, ordinal, granted);
      if !ok {
        Stopped(granted, before, whole, ParseWide(p, sizeMax, args, used, ordinal));
        return;
      }
      Regroup(before, WideConversion(h, h.rest[0], ordinal), ParseWide(p', sizeMax, args, h.used, ordinal'));
      p, used, ordinal := p', h.used, ordinal';
    }
    WideEnds(sizeMax, args, used, ordinal);
    ok := true;
  }
}
