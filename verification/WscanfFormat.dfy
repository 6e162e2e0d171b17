/** The wide scanf format grammar, as `ao_parse_wscanf_format` and its own helpers read it: the cursor is the code points
    from it on, and each loop is a recursion over what the loop updates. On text that both can read, the two parsers agree. */
module WscanfFormat {
  import opened Bits
  import opened ScanfFormat

  type Wide = seq<nat>

  /** `*p` at the cursor: zero at the end of the text. */
  function At(p: Wide): nat {
    if p == [] then 0 else p[0]
  }

  // --------------------------------------------------------- widths, positions

  /** `ao_is_digit_wchar`. */
  predicate IsWideDigit(c: nat) {
    '0' as nat <= c <= '9' as nat
  }

  /** The loop of `ao_parse_width_wchar`. */
  function WidthLoop(p: Wide, width: nat, sizeMax: nat): (r: (nat, Wide))
    requires sizeMax >= 9
    ensures |r.1| <= |p|
  {
    if !IsWideDigit(At(p)) then (width, p)
    else WidthLoop(p[1..], if width > (sizeMax - 9) / 10 then sizeMax else width * 10 + (p[0] - '0' as nat), sizeMax)
  }

  /** The loop of `ao_parse_position_wchar`. */
  function PositionLoop(p: Wide, value: nat): (r: (nat, Wide))
    ensures |r.1| <= |p|
  {
    if !IsWideDigit(At(p)) then (value, p)
    else PositionLoop(p[1..], (value * 10 + (p[0] - '0' as nat)) % UINT_RANGE)
  }

  /** `ao_parse_position_wchar`: its result, the position, and the cursor. */
  function WidePosition(p: Wide): (r: (bool, nat, Wide))
    ensures |r.2| <= |p| && (r.0 ==> r.1 > 0)
  {
    if !IsWideDigit(At(p)) then (false, 0, p)
    else
      var (value, q) := PositionLoop(p, 0);
      if At(q) != '$' as nat then (false, 0, p) else (value != 0, value, q[1..])
  }

  // -------------------------------------------------------------- the head

  /** The pointer a conversion stores through, how many arguments are used up then, and the cursor. */
  datatype WideDest = WideDest(suppressed: bool, dest: nat, used: nat, rest: Wide)

  function WideTarget(p: Wide, args: nat -> nat, used: nat): (r: WideDest)
    ensures |r.rest| <= |p|
  {
    if At(p) == '*' as nat then WideDest(true, 0, used, p[1..])
    else
      var (found, position, q) := WidePosition(p);
      if found then WideDest(false, args(used + position - 1), used, q) else WideDest(false, args(used), used + 1, q)
  }

  /** The length modifier: whether it is `AO_SIZE_L`, and the cursor. */
  function WideLength(p: Wide): (r: (bool, Wide))
    ensures |r.1| <= |p|
  {
    if At(p) == 'l' as nat then
      var q := p[1..];
      (At(q) != 'l' as nat, if At(q) == 'l' as nat then q[1..] else q)
    else if IsShort(At(p)) then
      var q := if At(p) == 'h' as nat && At(p[1..]) == 'h' as nat then p[1..] else p;
      (false, q[1..])
    else (false, p)
  }

  predicate IsShort(c: nat) {
    c == 'h' as nat || c == 'j' as nat || c == 'z' as nat || c == 't' as nat || c == 'L' as nat
  }

  datatype WideHead = WideHead(suppressed: bool, dest: nat, used: nat, width: nat, alloc: bool, long: bool, rest: Wide)

  function ReadWideHead(p: Wide, sizeMax: nat, args: nat -> nat, used: nat): (h: WideHead)
    requires sizeMax >= 9
    ensures |h.rest| <= |p|
  {
    var target := WideTarget(p, args, used);
    var (width, p2) := if IsWideDigit(At(target.rest)) then WidthLoop(target.rest, 0, sizeMax) else (0, target.rest);
    var alloc := At(p2) == 'm' as nat;
    var (long, p4) := WideLength(if alloc then p2[1..] else p2);
    WideHead(target.suppressed, target.dest, target.used, width, alloc, long, p4)
  }

  // --------------------------------------------------------- the conversion

  /** The loop of `ao_skip_scanset_wchar`. */
  function ToBracket(p: Wide): (r: Wide)
    ensures |r| <= |p|
  {
    if p == [] || p[0] == ']' as nat then p else ToBracket(p[1..])
  }

  /** `ao_skip_scanset_wchar`. */
  function SkipWideSet(p: Wide): (r: Wide)
    ensures |r| <= |p|
  {
    var a := if At(p) == '^' as nat then p[1..] else p;
    var b := if At(a) == ']' as nat then a[1..] else a;
    var c := ToBracket(b);
    if At(c) == ']' as nat then c[1..] else c
  }

  predicate WideFolds(c: nat) {
    And(c, 0x2f) == 3
  }

  /** The conversion character as the rest of the parser sees it. */
  function WideSpec(c: nat): nat {
    if WideFolds(c) then Or(c, 32) else c
  }

  /** `ao_record_wide_m_conversion`: nothing for a null destination. */
  function WideRecord(dest: nat, ordinal: nat, long: bool, count: bool, width: nat): seq<Record> {
    if dest == 0 then []
    else [Record(dest, ordinal,
                 if count then (if long then WideCount else UnsupportedWideCharCount) else (if long then WideString else CharString), width)]
  }

  /** The record of one conversion, if it needs one. */
  function WideConversion(h: WideHead, c: nat, ordinal: nat): seq<Record> {
    var spec := WideSpec(c);
    if h.alloc && !h.suppressed && (spec == 's' as nat || spec == 'c' as nat || spec == '[' as nat) then
      WideRecord(h.dest, ordinal + 1, h.long || WideFolds(c), spec == 'c' as nat,
                 if spec == 'c' as nat && h.width == 0 then 1 else h.width)
    else []
  }

  function WideBehind(c: nat, p: Wide): (r: Wide)
    ensures |r| <= |p|
  {
    if WideSpec(c) == '[' as nat then SkipWideSet(p) else p
  }

  function WideOrdinal(ordinal: nat, h: WideHead, c: nat): nat {
    if !h.suppressed && WideSpec(c) != 'n' as nat then ordinal + 1 else ordinal
  }

  /** The whole plan: `ao_parse_wscanf_format`. */
  function ParseWide(p: Wide, sizeMax: nat, args: nat -> nat, used: nat, ordinal: nat): seq<Record>
    requires sizeMax >= 9
    decreases |p|
  {
    if p == [] then []
    else if p[0] != '%' as nat then ParseWide(p[1..], sizeMax, args, used, ordinal)
    else if At(p[1..]) == '%' as nat then ParseWide(p[2..], sizeMax, args, used, ordinal)
    else
      var h := ReadWideHead(p[1..], sizeMax, args, used);
      if h.rest == [] then []
      else
        var c := h.rest[0];
        WideConversion(h, c, ordinal)
        + ParseWide(WideBehind(c, h.rest[1..]), sizeMax, args, h.used, WideOrdinal(ordinal, h, c))
  }

  // ------------------------------------------------------ ordinals increase

  lemma CountedWide(h: WideHead, c: nat, ordinal: nat)
    ensures var r := WideConversion(h, c, ordinal);
            |r| <= 1 && (r != [] ==> r[0].ordinal == ordinal + 1 == WideOrdinal(ordinal, h, c) && r[0].slot != 0)
    ensures ordinal <= WideOrdinal(ordinal, h, c)
  {
    hide WideSpec, WideFolds;
  }

  /** Every wide plan, also from a malformed format, lists its conversions in strictly increasing order. */
  lemma {:induction false} WidePlanIncreases(p: Wide, sizeMax: nat, args: nat -> nat, used: nat, ordinal: nat)
    requires sizeMax >= 9
    ensures Increasing(ParseWide(p, sizeMax, args, used, ordinal), ordinal)
    decreases |p|
  {
    hide ReadWideHead, WideConversion, WideBehind, WideOrdinal;
    if p == [] {
    } else if p[0] != '%' as nat {
      WidePlanIncreases(p[1..], sizeMax, args, used, ordinal);
    } else if At(p[1..]) == '%' as nat {
      WidePlanIncreases(p[2..], sizeMax, args, used, ordinal);
    } else {
      var h := ReadWideHead(p[1..], sizeMax, args, used);
      if h.rest != [] {
        var c := h.rest[0];
        var p', ordinal' := WideBehind(c, h.rest[1..]), WideOrdinal(ordinal, h, c);
        CountedWide(h, c, ordinal);
        WidePlanIncreases(p', sizeMax, args, h.used, ordinal');
        IncreasingCons(WideConversion(h, c, ordinal), ParseWide(p', sizeMax, args, h.used, ordinal'), ordinal, ordinal');
      }
    }
  }

  // ---------------------------------------------------------------- lockstep

  /** A text in wide characters. */
  function Widen(t: string): (p: Wide)
    ensures |p| == |t| && forall i :: 0 <= i < |t| ==> p[i] == t[i] as nat
  {
    seq(|t|, i requires 0 <= i < |t| => t[i] as nat)
  }

  lemma WidenTail(t: string, k: nat)
    requires k <= |t|
    ensures Widen(t)[k..] == Widen(t[k..])
    ensures At(Widen(t)) == Peek(t) as nat
  {
  }

  /** Both width loops: the wide one carries the width along, the narrow one is told by its digits. */
  lemma {:induction false} WidthLockstep(seen: string, t: string, sizeMax: nat)
    requires AllDigits(seen) && sizeMax >= 9
    ensures AllDigits(seen + t[..DigitRun(t)])
    ensures WidthLoop(Widen(t), WidthOf(seen, sizeMax), sizeMax)
            == (WidthOf(seen + t[..DigitRun(t)], sizeMax), Widen(t[DigitRun(t)..]))
    decreases |t|
  {
    WidenTail(t, 0);
    if t == "" || !IsDigit(t[0]) {
      assert seen + t[..0] == seen && t[0..] == t;
    } else {
      WidenTail(t, 1);
      var more := seen + [t[0]];
      assert more[..|more| - 1] == seen;
      assert more + t[1..][..DigitRun(t[1..])] == seen + t[..DigitRun(t)];
      WidthLockstep(more, t[1..], sizeMax);
    }
  }

  lemma {:induction false} PositionLockstep(seen: string, t: string)
    requires AllDigits(seen)
    ensures AllDigits(seen + t[..DigitRun(t)])
    ensures PositionLoop(Widen(t), PositionOf(seen)) == (PositionOf(seen + t[..DigitRun(t)]), Widen(t[DigitRun(t)..]))
    decreases |t|
  {
    hide PositionOf, PositionStep, PositionLoop, Widen;
    PositionLoopStep(t, PositionOf(seen));
    if t == "" || !IsDigit(t[0]) {
      assert seen + t[..0] == seen && t[0..] == t;
    } else {
      var more := seen + [t[0]];
      PositionSnoc(seen, t[0]);
      assert more + t[1..][..DigitRun(t[1..])] == seen + t[..DigitRun(t)];
      PositionLockstep(more, t[1..]);
    }
  }

  lemma PositionLoopStep(t: string, value: nat)
    ensures PositionLoop(Widen(t), value) ==
            if t == "" || !IsDigit(t[0]) then (value, Widen(t)) else PositionLoop(Widen(t[1..]), PositionStep(value, DigitOf(t[0])))
  {
    if t != "" { WidenTail(t, 1); }
  }

  lemma PositionSnoc(seen: string, c: char)
    requires AllDigits(seen) && IsDigit(c)
    ensures AllDigits(seen + [c]) && PositionOf(seen + [c]) == PositionStep(PositionOf(seen), DigitOf(c))
  {
    assert (seen + [c])[..|seen + [c]| - 1] == seen;
  }

  lemma WidePositionOf(t: string)
    ensures var n := DigitRun(t);
            WidePosition(Widen(t)) ==
            if n > 0 && Peek(t[n..]) == '$' then (PositionOf(t[..n]) != 0, PositionOf(t[..n]), Widen(t[n + 1..]))
            else (false, 0, Widen(t))
  {
    hide PositionLoop, Widen, At, PositionOf, DigitRun;
    TailLockstep(t);
    PositionLockstepAll(t);
    DigitStart(t);
    DollarLockstep(t, DigitRun(t));
  }

  lemma PositionLockstepAll(t: string)
    ensures PositionLoop(Widen(t), 0) == (PositionOf(t[..DigitRun(t)]), Widen(t[DigitRun(t)..]))
  {
    PositionLockstep("", t);
    assert "" + t[..DigitRun(t)] == t[..DigitRun(t)];
  }

  lemma DigitStart(t: string)
    ensures DigitRun(t) > 0 <==> IsDigit(Peek(t))
  {
  }

  lemma DollarLockstep(t: string, n: nat)
    requires n <= |t|
    ensures At(Widen(t[n..])) == Peek(t[n..]) as nat
    ensures n < |t| ==> Widen(t[n..])[1..] == Widen(t[n + 1..])
  {
    TailLockstep(t[n..]);
    if n < |t| { assert t[n..][1..] == t[n + 1..]; }
  }

  lemma TargetLockstep(t: string, args: nat -> nat, used: nat)
    ensures var (dest, rest) := ParseDest(t);
            WideTarget(Widen(t), args, used)
            == WideDest(dest.NoDest?, Argument(args, used, dest), UsedAfter(used, dest), Widen(rest))
  {
    hide PositionOf, WidePosition, Widen, At;
    TailLockstep(t);
    WidePositionOf(t);
  }

  lemma LengthLockstep(t: string)
    ensures WideLength(Widen(t)) == (ParseLength(t).0, Widen(ParseLength(t).1))
  {
    WidenTail(t, 0);
    if t != "" {
      WidenTail(t, 1);
      WidenTail(t[1..], 0);
      if |t| > 1 {
        WidenTail(t, 2);
        WidenTail(t[1..], 1);
        assert t[1..][1..] == t[2..];
      }
    }
  }

  lemma {:induction false} BracketLockstep(t: string)
    ensures ToBracket(Widen(t)) == Widen(t[BodyLen(t)..])
    decreases |t|
  {
    if t != "" && t[0] != ']' {
      WidenTail(t, 1);
      BracketLockstep(t[1..]);
      assert t[1..][BodyLen(t[1..])..] == t[BodyLen(t)..];
    } else {
      assert t[0..] == t;
    }
  }

  lemma TailLockstep(t: string)
    ensures At(Widen(t)) == Peek(t) as nat
    ensures t != "" ==> Widen(t)[1..] == Widen(t[1..])
  {
  }

  lemma ScansetLockstep(t: string)
    ensures SkipWideSet(Widen(t)) == Widen(SkipScanset(t))
  {
    hide Widen, ToBracket, BodyLen, At;
    var a := if Peek(t) == '^' then t[1..] else t;
    var b := if Peek(a) == ']' then a[1..] else a;
    var c := b[BodyLen(b)..];
    TailLockstep(t);
    TailLockstep(a);
    BracketLockstep(b);
    TailLockstep(c);
  }

  lemma SpecLockstep(c: char)
    ensures WideSpec(c as nat) == Folded(c) && (WideFolds(c as nat) <==> FoldsToLower(c))
  {
  }


  /** The wide head of a narrow one. */
  function HeadOf(h: Head, args: nat -> nat, used: nat): WideHead {
    WideHead(h.dest.NoDest?, Argument(args, used, h.dest), UsedAfter(used, h.dest), h.width, h.alloc, h.long, Widen(h.rest))
  }

  lemma WidthOfHead(t: string, sizeMax: nat)
    requires sizeMax >= 9
    ensures var (width, rest) := ParseWidth(t, sizeMax);
            (if IsWideDigit(At(Widen(t))) then WidthLoop(Widen(t), 0, sizeMax) else (0, Widen(t))) == (width, Widen(rest))
  {
    WidthLockstep("", t, sizeMax);
    assert "" + t[..DigitRun(t)] == t[..DigitRun(t)];
    TailLockstep(t);
  }

  lemma HeadLockstep(t: string, sizeMax: nat, args: nat -> nat, used: nat)
    requires sizeMax >= 9
    ensures ReadWideHead(Widen(t), sizeMax, args, used) == HeadOf(ParseHead(t, sizeMax), args, used)
  {
    hide Widen, At, WideTarget, WidthLoop, WideLength, ParseDest, ParseWidth, ParseLength, Argument;
    var t1 := ParseDest(t).1;
    var t2 := ParseWidth(t1, sizeMax).1;
    TargetLockstep(t, args, used);
    WidthOfHead(t1, sizeMax);
    TailLockstep(t2);
    LengthLockstep(ParseAlloc(t2).1);
  }

  /** The wide parser's record for the narrow parser's: only an unlengthed `%mc` differs. */
  function Widened(r: Record): Record {
    r.(mode := if r.mode == CharCount then UnsupportedWideCharCount else r.mode)
  }

  function WidenAll(rs: seq<Record>): seq<Record> {
    if rs == [] then [] else [Widened(rs[0])] + WidenAll(rs[1..])
  }

  lemma {:induction false} WidenAppend(a: seq<Record>, b: seq<Record>)
    ensures WidenAll(a + b) == WidenAll(a) + WidenAll(b)
  {
    if a == [] {
      assert a + b == b;
    } else {
      assert (a + b)[1..] == a[1..] + b;
      WidenAppend(a[1..], b);
    }
  }

  lemma ConversionLockstep(h: Head, c: char, ordinal: nat, args: nat -> nat, used: nat)
    ensures WideConversion(HeadOf(h, args, used), c as nat, ordinal) == WidenAll(Conversion(h, c, ordinal, args, used))
    ensures WideOrdinal(ordinal, HeadOf(h, args, used), c as nat) == OrdinalAfter(ordinal, h, c)
  {
    hide WideSpec, WideFolds, Folded, FoldsToLower, Argument, Widen;
    SpecLockstep(c);
    var r := Conversion(h, c, ordinal, args, used);
    if r != [] {
      assert r == [r[0]] && r[1..] == [];
    }
  }

  lemma BehindLockstep(c: char, t: string)
    ensures WideBehind(c as nat, Widen(t)) == Widen(Behind(c, t))
  {
    hide WideSpec, Folded, SkipWideSet, SkipScanset, Widen;
    SpecLockstep(c);
    ScansetLockstep(t);
  }

  lemma LiteralTail(t: string)
    requires t != ""
    ensures Widen(t) != [] && Widen(t)[0] == t[0] as nat && Widen(t)[1..] == Widen(t[1..])
    ensures At(Widen(t[1..])) == Peek(t[1..]) as nat
    ensures |t| > 1 ==> Widen(t)[2..] == Widen(t[2..])
  {
  }

  /** The two parsers in lockstep, on every text, well-formed or not, whose characters have the same codes in both, as those
      of 7 bits do: the same slots, ordinals and widths, and the same modes except that of an unlengthed `%mc`. */
  lemma {:induction false} ParsersAgree(t: string, sizeMax: nat, args: nat -> nat, used: nat, ordinal: nat)
    requires sizeMax >= 9
    ensures ParseWide(Widen(t), sizeMax, args, used, ordinal) == WidenAll(Parse(t, sizeMax, args, used, ordinal))
    decreases |t|
  {
    hide ReadWideHead, ParseHead, WideConversion, Conversion, WideBehind, Behind, WideOrdinal, OrdinalAfter, Widen, At, Argument;
    if t != "" {
      LiteralTail(t);
      if t[0] != '%' {
        ParsersAgree(t[1..], sizeMax, args, used, ordinal);
      } else if Peek(t[1..]) == '%' {
        ParsersAgree(t[2..], sizeMax, args, used, ordinal);
      } else {
        var h := ParseHead(t[1..], sizeMax);
        HeadLockstep(t[1..], sizeMax, args, used);
        if h.rest != "" {
          var c := h.rest[0];
          var t', used', ordinal' := Behind(c, h.rest[1..]), UsedAfter(used, h.dest), OrdinalAfter(ordinal, h, c);
          TailLockstep(h.rest);
          ConversionLockstep(h, c, ordinal, args, used);
          BehindLockstep(c, h.rest[1..]);
          ParsersAgree(t', sizeMax, args, used', ordinal');
          WidenAppend(Conversion(h, c, ordinal, args, used), Parse(t', sizeMax, args, used', ordinal'));
        }
      }
    } else {
      assert Widen("") == [];
    }
  }
}
