/** The scanf format grammar as the narrow `%m` planner reads it: a cursor over the remaining
    text, which each helper advances. */
module ScanfFormat {
  import opened Bits

  /** `*p` at the cursor: NUL at the end of the text. */
  function Peek(t: string): char {
    if t == "" then '\0' else t[0]
  }

  predicate IsDigit(c: char) {
    '0' <= c <= '9'
  }

  function DigitOf(c: char): nat
    requires IsDigit(c)
  {
    c as int - '0' as int
  }

  predicate AllDigits(ds: string) {
    forall i :: 0 <= i < |ds| ==> IsDigit(ds[i])
  }

  /** The length of the leading run of digits. */
  function DigitRun(t: string): (n: nat)
    ensures n <= |t| && AllDigits(t[..n]) && (n < |t| ==> !IsDigit(t[n]))
  {
    if t == "" || !IsDigit(t[0]) then 0 else 1 + DigitRun(t[1..])
  }

  lemma {:induction false} DigitRunOf(ds: string, t: string)
    requires AllDigits(ds) && !IsDigit(Peek(t))
    ensures DigitRun(ds + t) == |ds| && (ds + t)[..|ds|] == ds && (ds + t)[|ds|..] == t
  {
    if ds == "" {
      assert ds + t == t;
    } else {
      DigitRunOf(ds[1..], t);
      assert (ds + t)[1..] == ds[1..] + t;
    }
  }

  /** The number that digits denote. */
  function Value(ds: string): nat
    requires AllDigits(ds)
  {
    if ds == "" then 0 else 10 * Value(ds[..|ds| - 1]) + DigitOf(ds[|ds| - 1])
  }

  // --------------------------------------------------------- widths, positions

  /** One digit of a width: saturating at the largest size. */
  function WidthStep(width: nat, digit: nat, sizeMax: nat): nat
    requires sizeMax >= 9
  {
    if width > (sizeMax - 9) / 10 then sizeMax else width * 10 + digit
  }

  function WidthOf(ds: string, sizeMax: nat): nat
    requires AllDigits(ds) && sizeMax >= 9
  {
    if ds == "" then 0 else WidthStep(WidthOf(ds[..|ds| - 1], sizeMax), DigitOf(ds[|ds| - 1]), sizeMax)
  }

  /** Widths are exact up to a bound just below the largest size, and saturate above it. */
  lemma {:induction false} WidthSaturates(ds: string, sizeMax: nat)
    requires AllDigits(ds) && sizeMax >= 9
    ensures WidthOf(ds, sizeMax) == if Value(ds) <= 10 * ((sizeMax - 9) / 10) + 9 then Value(ds) else sizeMax
  {
    if ds != "" { WidthSaturates(ds[..|ds| - 1], sizeMax); }
  }

  const UINT_RANGE: nat := 0x1_0000_0000

  /** One digit of a position: unsigned arithmetic, which wraps. */
  function PositionStep(value: nat, digit: nat): nat {
    (value * 10 + digit) % UINT_RANGE
  }

  function PositionOf(ds: string): nat
    requires AllDigits(ds)
  {
    if ds == "" then 0 else PositionStep(PositionOf(ds[..|ds| - 1]), DigitOf(ds[|ds| - 1]))
  }

  /** A position is the number its digits denote, modulo 2^32. */
  lemma {:induction false} PositionWraps(ds: string)
    requires AllDigits(ds)
    ensures PositionOf(ds) == Value(ds) % 0x1_0000_0000
  {
    if ds != "" {
      PositionWraps(ds[..|ds| - 1]);
      StepWraps(Value(ds[..|ds| - 1]), DigitOf(ds[|ds| - 1]));
    }
  }

  lemma StepWraps(value: nat, digit: nat)
    ensures PositionStep(value % 0x1_0000_0000, digit) == (10 * value + digit) % 0x1_0000_0000
  {
    var q, r := value / 0x1_0000_0000, value % 0x1_0000_0000;
    assert 10 * value + digit == 10 * q * 0x1_0000_0000 + (r * 10 + digit);
  }

  /** Below 2^32 that is the number itself. */
  lemma PositionExact(ds: string)
    requires AllDigits(ds) && Value(ds) < 0x1_0000_0000
    ensures PositionOf(ds) == Value(ds)
  {
    PositionWraps(ds);
  }

  /** A number in decimal digits. */
  function Decimal(n: nat): string {
    (if n < 10 then "" else Decimal(n / 10)) + ["0123456789"[n % 10]]
  }

  /** The digits of a number denote it. */
  lemma {:induction false} DecimalRead(n: nat)
    ensures AllDigits(Decimal(n)) && Value(Decimal(n)) == n
  {
    if n >= 10 { DecimalRead(n / 10); }
    var front := if n < 10 then "" else Decimal(n / 10);
    assert Decimal(n)[..|Decimal(n)| - 1] == front;
    LastDigit(n % 10);
  }

  lemma LastDigit(d: nat)
    requires d < 10
    ensures IsDigit("0123456789"[d]) && DigitOf("0123456789"[d]) == d
  {
  }

  /** A position of zero, also one that wraps to zero, is read past, and the argument is the next one. */
  lemma ZeroPosition(ds: string, t: string)
    requires AllDigits(ds) && ds != "" && Value(ds) % 0x1_0000_0000 == 0
    ensures ParseDest(ds + ("$" + t)) == (Sequential, t)
  {
    hide PositionOf, Value, ParseDest;
    DigitRunOf(ds, "$" + t);
    PositionWraps(ds);
    assert IsDigit(ds[0]);
    DestCases(ds + ("$" + t), ds, "$" + t);
    assert ("$" + t)[1..] == t;
  }

  // -------------------------------------------------------------- the head

  /** Which argument a conversion stores through. */
  datatype Dest = NoDest | Positional(n: nat) | Sequential

  /** Suppression or a position. A position of zero is consumed as text, but the argument is the next one. */
  function ParseDest(t: string): (r: (Dest, string))
    ensures |r.1| <= |t|
  {
    if Peek(t) == '*' then (NoDest, t[1..])
    else
      var n := DigitRun(t);
      if n > 0 && Peek(t[n..]) == '$' then
        (if PositionOf(t[..n]) != 0 then Positional(PositionOf(t[..n])) else Sequential, t[n + 1..])
      else (Sequential, t)
  }

  /** The cases of a destination, once the leading digits are known. */
  lemma DestCases(cursor: string, seen: string, p: string)
    requires Peek(cursor) != '*' && AllDigits(seen) && cursor == seen + p
    requires DigitRun(cursor) == |seen|
    ensures ParseDest(cursor) ==
            if seen == "" || Peek(p) != '$' then (Sequential, cursor)
            else (if PositionOf(seen) != 0 then Positional(PositionOf(seen)) else Sequential, p[1..])
    ensures seen != "" <==> IsDigit(Peek(cursor))
  {
    hide PositionOf;
    assert cursor[..|seen|] == seen && cursor[|seen|..] == p;
    if p != "" { assert cursor[|seen| + 1..] == p[1..]; }
    if seen != "" { assert IsDigit(seen[0]); }
  }

  function ParseWidth(t: string, sizeMax: nat): (r: (nat, string))
    requires sizeMax >= 9
    ensures |r.1| <= |t|
  {
    (WidthOf(t[..DigitRun(t)], sizeMax), t[DigitRun(t)..])
  }

  function ParseAlloc(t: string): (r: (bool, string))
    ensures |r.1| <= |t|
  {
    if Peek(t) == 'm' then (true, t[1..]) else (false, t)
  }

  /** A length modifier; only a single `l` makes the conversion a wide one. */
  function ParseLength(t: string): (r: (bool, string))
    ensures |r.1| <= |t|
  {
    if Peek(t) == 'l' then
      if Peek(t[1..]) == 'l' then (false, t[2..]) else (true, t[1..])
    else if Peek(t) == 'h' && Peek(t[1..]) == 'h' then (false, t[2..])
    else if Peek(t) in {'h', 'j', 'z', 't', 'L'} then (false, t[1..])
    else (false, t)
  }

  /** The rest of a scanset behind its `[`. */
  function SkipScanset(t: string): (r: string)
    ensures |r| <= |t|
  {
    var a := if Peek(t) == '^' then t[1..] else t;
    var b := if Peek(a) == ']' then a[1..] else a;
    var c := b[BodyLen(b)..];
    if Peek(c) == ']' then c[1..] else c
  }

  function BodyLen(t: string): (n: nat)
    ensures n <= |t| && (n < |t| ==> t[n] == ']') && forall i :: 0 <= i < n ==> t[i] != ']'
  {
    if t == "" || t[0] == ']' then 0 else 1 + BodyLen(t[1..])
  }

  lemma {:induction false} BodyLenOf(body: string, t: string)
    requires ']' !in body && (t == "" || t[0] == ']')
    ensures BodyLen(body + t) == |body|
  {
    if body == "" {
      assert body + t == t;
    } else {
      assert body[0] in body;
      assert forall c :: c in body[1..] ==> c in body;
      BodyLenOf(body[1..], t);
      assert (body + t)[1..] == body[1..] + t;
    }
  }

  // --------------------------------------------------------- the conversion

  /** `(spec & 0x2f) == 3`: the test for `C` and `S`. */
  predicate FoldsToLower(c: char) {
    And(c as int, 0x2f) == 3
  }

  /** The conversion character after `spec |= 32` where the test holds. */
  function Folded(c: char): int {
    if FoldsToLower(c) then Or(c as int, 32) else c as int
  }

  predicate IsSpec(c: char, letter: char) {
    Folded(c) == letter as int
  }

  datatype Mode = CharString | WideString | CharCount | WideCount | UnsupportedWideCharCount

  datatype Record = Record(slot: nat, ordinal: nat, mode: Mode, width: nat)

  /** `ao_record_narrow_m_conversion`: nothing for a null destination. */
  function NarrowRecord(dest: nat, ordinal: nat, long: bool, count: bool, width: nat): seq<Record> {
    if dest == 0 then []
    else [Record(dest, ordinal, if count then (if long then WideCount else CharCount) else (if long then WideString else CharString), width)]
  }

  /** Everything before the conversion character. */
  datatype Head = Head(dest: Dest, width: nat, alloc: bool, long: bool, rest: string)

  function ParseHead(t: string, sizeMax: nat): (h: Head)
    requires sizeMax >= 9
    ensures |h.rest| <= |t|
  {
    var (dest, t1) := ParseDest(t);
    var (width, t2) := ParseWidth(t1, sizeMax);
    var (alloc, t3) := ParseAlloc(t2);
    var (long, t4) := ParseLength(t3);
    Head(dest, width, alloc, long, t4)
  }

  /** The pointer a destination denotes, when `used` arguments have been taken in sequence. */
  function Argument(args: nat -> nat, used: nat, dest: Dest): nat {
    match dest
    case NoDest => 0
    case Positional(n) => if n == 0 then 0 else args(used + n - 1)
    case Sequential => args(used)
  }

  function UsedAfter(used: nat, dest: Dest): nat {
    if dest.Sequential? then used + 1 else used
  }

  /** The record of one conversion, if it needs one. */
  function Conversion(h: Head, c: char, ordinal: nat, args: nat -> nat, used: nat): seq<Record> {
    if h.alloc && !h.dest.NoDest? && (IsSpec(c, 's') || IsSpec(c, 'c') || IsSpec(c, '[')) then
      var long := h.long || FoldsToLower(c);
      var count := IsSpec(c, 'c');
      var width := if count && h.width == 0 then 1 else h.width;
      NarrowRecord(Argument(args, used, h.dest), ordinal + 1, long, count, width)
    else []
  }

  function OrdinalAfter(ordinal: nat, h: Head, c: char): nat {
    if !h.dest.NoDest? && !IsSpec(c, 'n') then ordinal + 1 else ordinal
  }

  /** The text behind a conversion character. */
  function Behind(c: char, t: string): (r: string)
    ensures |r| <= |t|
  {
    if IsSpec(c, '[') then SkipScanset(t) else t
  }

  /** The whole plan: `ao_parse_scanf_format`. */
  function Parse(t: string, sizeMax: nat, args: nat -> nat, used: nat, ordinal: nat): seq<Record>
    requires sizeMax >= 9
    decreases |t|
  {
    if t == "" then []
    else if t[0] != '%' then Parse(t[1..], sizeMax, args, used, ordinal)
    else if Peek(t[1..]) == '%' then Parse(t[2..], sizeMax, args, used, ordinal)
    else
      var h := ParseHead(t[1..], sizeMax);
      if h.rest == "" then []
      else
        var c := h.rest[0];
        Conversion(h, c, ordinal, args, used)
        + Parse(Behind(c, h.rest[1..]), sizeMax, args, UsedAfter(used, h.dest), OrdinalAfter(ordinal, h, c))
  }

  // ------------------------------------------------------ ordinals increase

  /** Ordinals strictly increase along a plan, from above the conversions already counted. */
  ghost predicate Increasing(rs: seq<Record>, above: nat) {
    && (forall i :: 0 <= i < |rs| ==> above < rs[i].ordinal)
    && (forall i, j :: 0 <= i < j < |rs| ==> rs[i].ordinal < rs[j].ordinal)
  }

  lemma IncreasingCons(first: seq<Record>, rest: seq<Record>, ordinal: nat, ordinal': nat)
    requires |first| <= 1 && (first != [] ==> first[0].ordinal == ordinal + 1 == ordinal')
    requires ordinal <= ordinal' && Increasing(rest, ordinal')
    ensures Increasing(first + rest, ordinal)
  {
    var rs := first + rest;
    forall i | 0 <= i < |rs| ensures ordinal < rs[i].ordinal {
      assert i >= |first| ==> rs[i] == rest[i - |first|];
    }
    forall i, j | 0 <= i < j < |rs| ensures rs[i].ordinal < rs[j].ordinal {
      assert rs[j] == rest[j - |first|];
      assert i >= |first| ==> rs[i] == rest[i - |first|];
    }
  }

  lemma CountedConversion(h: Head, c: char, ordinal: nat, args: nat -> nat, used: nat)
    ensures var r := Conversion(h, c, ordinal, args, used);
            |r| <= 1 && (r != [] ==> r[0].ordinal == ordinal + 1 == OrdinalAfter(ordinal, h, c) && r[0].slot != 0)
  {
    hide FoldsToLower, Folded;
  }

  /** Every plan, also from a malformed format, lists its conversions in strictly increasing order. */
  lemma {:induction false} PlanIncreases(t: string, sizeMax: nat, args: nat -> nat, used: nat, ordinal: nat)
    requires sizeMax >= 9
    ensures Increasing(Parse(t, sizeMax, args, used, ordinal), ordinal)
    decreases |t|
  {
    hide ParseHead, Conversion, Behind, OrdinalAfter, UsedAfter, IsSpec;
    if t == "" {
    } else if t[0] != '%' {
      PlanIncreases(t[1..], sizeMax, args, used, ordinal);
    } else if Peek(t[1..]) == '%' {
      PlanIncreases(t[2..], sizeMax, args, used, ordinal);
    } else {
      var h := ParseHead(t[1..], sizeMax);
      if h.rest != "" {
        var c := h.rest[0];
        var t', used', ordinal' := Behind(c, h.rest[1..]), UsedAfter(used, h.dest), OrdinalAfter(ordinal, h, c);
        CountedConversion(h, c, ordinal, args, used);
        OrdinalGrows(ordinal, h, c);
        PlanIncreases(t', sizeMax, args, used', ordinal');
        IncreasingCons(Conversion(h, c, ordinal, args, used), Parse(t', sizeMax, args, used', ordinal'), ordinal, ordinal');
      }
    }
  }

  lemma OrdinalGrows(ordinal: nat, h: Head, c: char)
    ensures ordinal <= OrdinalAfter(ordinal, h, c)
  {
  }

  /** The fold test in terms of the bits it looks at: `C` and `S` among the letters. */
  lemma FoldMask(c: char)
    ensures FoldsToLower(c) <==> c as int % 16 == 3 && c as int / 16 / 2 % 2 == 0
    ensures FoldsToLower(c) ==> Folded(c) == c as int + 32
  {
    hide And, Or;
    AndBits0To3And5(c as int);
    if FoldsToLower(c) { OrBit5(c as int); }
  }
}
