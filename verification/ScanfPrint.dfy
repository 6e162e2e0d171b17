/** Well-formed scanf formats as lists of directives, what they mean for the `%m` planner,
    and the theorem that parsing a printed format gives exactly that. */
module ScanfPrint {
  import opened ScanfFormat
  import opened WscanfFormat

  datatype Length = NoLength | HH | H | L | LL | J | Z | T | BigL

  datatype Spec = Plain(c: char) | Scanset(negated: bool, bracket: bool, body: string)

  /** A literal character, `%%`, or a conversion; empty digits stand for no position and no width. */
  datatype Directive =
    | Literal(c: char)
    | Percent
    | Conv(suppressed: bool, position: string, width: string, alloc: bool, length: Length, spec: Spec)

  const CONVERSIONS := {'d', 'i', 'o', 'u', 'x', 'X', 'a', 'A', 'e', 'E', 'f', 'F', 'g', 'G', 'c', 's', 'p', 'n', 'C', 'S'}

  predicate WellFormedSpec(s: Spec) {
    match s
    case Plain(c) => c in CONVERSIONS
    case Scanset(negated, bracket, body) =>
      && ']' !in body && '\0' !in body && (bracket || body != "")
      && (!negated && !bracket ==> body[0] != '^')
  }

  predicate WellFormed(d: Directive) {
    match d
    case Literal(c) => c != '%' && c != '\0'
    case Percent => true
    case Conv(suppressed, position, width, _, _, spec) =>
      && AllDigits(position) && AllDigits(width) && WellFormedSpec(spec)
      && (position != "" ==> !suppressed && 0 < Value(position) < 0x1_0000_0000)
  }

  // --------------------------------------------------------------- printing

  function PrintLength(l: Length): string {
    match l
    case NoLength => "" case HH => "hh" case H => "h" case L => "l" case LL => "ll"
    case J => "j" case Z => "z" case T => "t" case BigL => "L"
  }

  function PrintSpec(s: Spec): string {
    match s
    case Plain(c) => [c]
    case Scanset(negated, bracket, body) =>
      "[" + ((if negated then "^" else "") + ((if bracket then "]" else "") + (body + "]")))
  }

  function PrintDest(suppressed: bool, position: string): string {
    if suppressed then "*" else if position != "" then position + "$" else ""
  }

  /** The printed directive in front of `tail`. */
  function PrintBefore(d: Directive, tail: string): string {
    match d
    case Literal(c) => [c] + tail
    case Percent => "%" + ("%" + tail)
    case Conv(suppressed, position, width, alloc, length, spec) =>
      "%" + (PrintDest(suppressed, position) + (width + ((if alloc then "m" else "") + (PrintLength(length) + (PrintSpec(spec) + tail)))))
  }

  function PrintAll(ds: seq<Directive>): string {
    if ds == [] then "" else PrintBefore(ds[0], PrintAll(ds[1..]))
  }

  // --------------------------------------------------------------- meaning

  predicate Assigns(d: Directive) {
    d.Conv? && !d.suppressed && d.spec != Plain('n')
  }

  predicate TakesNext(d: Directive) {
    d.Conv? && !d.suppressed && d.position == ""
  }

  function AssigningBefore(ds: seq<Directive>, j: nat): nat
    requires j <= |ds|
  {
    if j == 0 then 0 else AssigningBefore(ds, j - 1) + (if Assigns(ds[j - 1]) then 1 else 0)
  }

  function TakenBefore(ds: seq<Directive>, j: nat): nat
    requires j <= |ds|
  {
    if j == 0 then 0 else TakenBefore(ds, j - 1) + (if TakesNext(ds[j - 1]) then 1 else 0)
  }

  predicate IsCount(s: Spec) {
    s == Plain('c') || s == Plain('C')
  }

  predicate IsString(s: Spec) {
    s == Plain('s') || s == Plain('S') || s.Scanset?
  }

  predicate IsWide(d: Directive)
    requires d.Conv?
  {
    d.length == L || d.spec == Plain('C') || d.spec == Plain('S')
  }

  /** The documented width: saturating, and one for `%mc` without a width. */
  function EffectiveWidth(d: Directive, sizeMax: nat): nat
    requires d.Conv? && AllDigits(d.width) && sizeMax >= 9
  {
    var w := if Value(d.width) <= 10 * ((sizeMax - 9) / 10) + 9 then Value(d.width) else sizeMax;
    if IsCount(d.spec) && w == 0 then 1 else w
  }

  /** The argument a directive stores through. */
  function Target(ds: seq<Directive>, j: nat, args: nat -> nat): nat
    requires j < |ds| && ds[j].Conv? && AllDigits(ds[j].position)
  {
    var d := ds[j];
    if d.position == "" then args(TakenBefore(ds, j))
    else if Value(d.position) == 0 then 0
    else args(TakenBefore(ds, j) + Value(d.position) - 1)
  }

  /** One record per unsuppressed `m` conversion of a string or characters with a non-null destination. */
  function RecordOf(ds: seq<Directive>, j: nat, args: nat -> nat, sizeMax: nat): seq<Record>
    requires j < |ds| && WellFormed(ds[j]) && sizeMax >= 9
  {
    var d := ds[j];
    if d.Conv? && d.alloc && !d.suppressed && (IsCount(d.spec) || IsString(d.spec)) && Target(ds, j, args) != 0 then
      [Record(Target(ds, j, args), 1 + AssigningBefore(ds, j),
              if IsCount(d.spec) then (if IsWide(d) then WideCount else CharCount)
              else (if IsWide(d) then WideString else CharString),
              EffectiveWidth(d, sizeMax))]
    else []
  }

  /** The plan of the directives from `j` on. */
  function PlanFrom(ds: seq<Directive>, j: nat, args: nat -> nat, sizeMax: nat): seq<Record>
    requires j <= |ds| && (forall d :: d in ds ==> WellFormed(d)) && sizeMax >= 9
    decreases |ds| - j
  {
    if j == |ds| then [] else RecordOf(ds, j, args, sizeMax) + PlanFrom(ds, j + 1, args, sizeMax)
  }

  // ------------------------------------------------------ parsing the pieces

  /** The destination as printed: what follows must not look like one itself. */
  function DestOf(suppressed: bool, position: string): Dest
    requires AllDigits(position)
  {
    if suppressed then NoDest else if position != "" then Positional(Value(position)) else Sequential
  }

  lemma PositionParses(position: string, t: string)
    requires AllDigits(position) && position != "" && 0 < Value(position) < 0x1_0000_0000
    ensures ParseDest(position + ("$" + t)) == (Positional(Value(position)), t)
  {
    hide PositionOf, Value, ParseDest;
    DigitRunOf(position, "$" + t);
    PositionWraps(position);
    assert IsDigit(position[0]);
    DestCases(position + ("$" + t), position, "$" + t);
    assert ("$" + t)[1..] == t;
  }

  lemma NoPositionParses(t: string)
    requires Peek(t) != '*' && Peek(t[DigitRun(t)..]) != '$'
    ensures ParseDest(t) == (Sequential, t)
  {
    hide PositionOf;
  }

  lemma StarParses(t: string)
    ensures ParseDest("*" + t) == (NoDest, t)
  {
    assert ("*" + t)[1..] == t;
  }

  lemma DestParses(suppressed: bool, position: string, t: string)
    requires AllDigits(position) && (position != "" ==> !suppressed && 0 < Value(position) < 0x1_0000_0000)
    requires Peek(t) != '*' && Peek(t[DigitRun(t)..]) != '$'
    ensures ParseDest(PrintDest(suppressed, position) + t) == (DestOf(suppressed, position), t)
  {
    hide DigitRun, Value, PositionOf, ParseDest;
    if suppressed {
      StarParses(t);
    } else if position != "" {
      PositionParses(position, t);
      assert (position + "$") + t == position + ("$" + t);
    } else {
      NoPositionParses(t);
      assert "" + t == t;
    }
  }

  lemma WidthParses(width: string, t: string, sizeMax: nat)
    requires AllDigits(width) && !IsDigit(Peek(t)) && sizeMax >= 9
    ensures ParseWidth(width + t, sizeMax) == (WidthOf(width, sizeMax), t)
    ensures DigitRun(width + t) == |width| && (width + t)[DigitRun(width + t)..] == t
    ensures Peek(width + t) == if width == "" then Peek(t) else width[0]
  {
    DigitRunOf(width, t);
  }

  lemma AllocParses(alloc: bool, t: string)
    requires Peek(t) != 'm'
    ensures ParseAlloc((if alloc then "m" else "") + t) == (alloc, t)
    ensures Peek((if alloc then "m" else "") + t) == if alloc then 'm' else Peek(t)
  {
    if alloc { assert ("m" + t)[1..] == t; } else { assert "" + t == t; }
  }

  lemma LengthParses(l: Length, t: string)
    requires Peek(t) !in {'l', 'h', 'j', 'z', 't', 'L'}
    ensures ParseLength(PrintLength(l) + t) == (l == L, t)
    ensures Peek(PrintLength(l) + t) == if l == NoLength then Peek(t) else PrintLength(l)[0]
  {
    var u := PrintLength(l) + t;
    match l {
      case NoLength => assert u == t;
      case HH => assert u[1..] == "h" + t && u[2..] == t;
      case LL => assert u[1..] == "l" + t && u[2..] == t;
      case _ => assert u[1..] == t;
    }
  }

  // ------------------------------------------------------- whole directives

  lemma ScansetSkips(negated: bool, bracket: bool, body: string, t: string)
    requires WellFormedSpec(Scanset(negated, bracket, body))
    ensures SkipScanset((if negated then "^" else "") + ((if bracket then "]" else "") + (body + "]" + t))) == t
  {
    hide BodyLen;
    var b := body + "]" + t;
    var a := (if bracket then "]" else "") + b;
    BodyLenOf(body, "]" + t);
    assert body + ("]" + t) == b;
    assert b[|body|..] == "]" + t && ("]" + t)[1..] == t;
    assert body != "" ==> b[0] == body[0] && body[0] in body;
    if bracket { assert a[1..] == b; } else { assert a == b; }
    if negated { assert ("^" + a)[1..] == a; } else { assert "" + a == a; }
  }

  /** The first byte of a printed conversion character or scanset cannot be read as anything before it. */
  lemma SpecHead(s: Spec, t: string)
    requires WellFormedSpec(s)
    ensures PrintSpec(s) + t != ""
    ensures var c := Peek(PrintSpec(s) + t);
            c == (if s.Plain? then s.c else '[') && c !in {'l', 'h', 'j', 'z', 't', 'L', 'm', '*', '%', '$'} && !IsDigit(c)
  {
  }

  lemma SpecTail(s: Spec, t: string)
    requires WellFormedSpec(s)
    ensures var u := PrintSpec(s) + t;
            u != "" && Behind(u[0], u[1..]) == t
  {
    var u := PrintSpec(s) + t;
    match s
    case Plain(c) =>
      assert u[1..] == t;
      LetterFold(c);
    case Scanset(negated, bracket, body) =>
      LetterFold('[');
      ScansetSkips(negated, bracket, body, t);
      ScansetText(negated, bracket, body, t);
  }

  lemma ScansetText(negated: bool, bracket: bool, body: string, t: string)
    ensures (PrintSpec(Scanset(negated, bracket, body)) + t)[1..]
            == (if negated then "^" else "") + ((if bracket then "]" else "") + (body + "]" + t))
  {
    var n, b := if negated then "^" else "", if bracket then "]" else "";
    var inner := n + (b + (body + "]"));
    assert (("[" + inner) + t)[1..] == inner + t;
    assert inner + t == n + ((b + (body + "]")) + t);
    assert (b + (body + "]")) + t == b + (body + "]" + t);
  }

  /** What the fold makes of the conversion letters and of the bracket. */
  lemma LetterFold(c: char)
    requires c in CONVERSIONS || c == '['
    ensures IsSpec(c, 's') <==> c == 's' || c == 'S'
    ensures IsSpec(c, 'c') <==> c == 'c' || c == 'C'
    ensures IsSpec(c, '[') <==> c == '['
    ensures IsSpec(c, 'n') <==> c == 'n'
    ensures FoldsToLower(c) <==> c == 'S' || c == 'C'
  {
    hide FoldsToLower;
    FoldMask(c);
  }

  /** The parsed head of a printed conversion, and where it leaves the cursor. */
  lemma HeadParses(d: Directive, tail: string, sizeMax: nat)
    requires WellFormed(d) && d.Conv? && sizeMax >= 9
    ensures var t := PrintBefore(d, tail);
            t != "" && t[0] == '%' && Peek(t[1..]) != '%'
            && ParseHead(t[1..], sizeMax)
               == Head(DestOf(d.suppressed, d.position), WidthOf(d.width, sizeMax), d.alloc, d.length == L, PrintSpec(d.spec) + tail)
  {
    hide ParseDest, ParseWidth, ParseAlloc, ParseLength, DigitRun, PrintDest, PrintSpec, PrintLength, WidthOf, Value;
    var t4 := PrintSpec(d.spec) + tail;
    var t3 := PrintLength(d.length) + t4;
    var t2 := (if d.alloc then "m" else "") + t3;
    var t1 := d.width + t2;
    var t0 := PrintDest(d.suppressed, d.position) + t1;
    assert PrintBefore(d, tail) == "%" + t0 && ("%" + t0)[1..] == t0;
    SpecHead(d.spec, tail);
    LengthParses(d.length, t4);
    LengthHead(d.length, t4);
    AllocParses(d.alloc, t3);
    WidthParses(d.width, t2, sizeMax);
    WidthHead(d.width, t2);
    DestParses(d.suppressed, d.position, t1);
    DestHead(d.suppressed, d.position, t1);
  }

  lemma LengthHead(l: Length, t: string)
    requires Peek(t) !in {'m', '*', '%', '$'} && !IsDigit(Peek(t))
    ensures Peek(PrintLength(l) + t) !in {'m', '*', '%', '$'} && !IsDigit(Peek(PrintLength(l) + t))
  {
    if l == NoLength { assert PrintLength(l) + t == t; }
  }

  lemma WidthHead(width: string, t: string)
    requires AllDigits(width) && Peek(t) !in {'*', '%', '$'} && !IsDigit(Peek(t))
    ensures Peek(width + t) !in {'*', '%'} && Peek((width + t)[DigitRun(width + t)..]) != '$'
  {
    DigitRunOf(width, t);
    if width == "" { assert width + t == t; } else { assert IsDigit(width[0]); }
  }

  lemma DestHead(suppressed: bool, position: string, t: string)
    requires AllDigits(position) && Peek(t) != '%'
    ensures Peek(PrintDest(suppressed, position) + t) != '%'
  {
    if !suppressed && position == "" { assert "" + t == t; }
    if position != "" { assert IsDigit(position[0]); }
  }

  /** Parsing one printed directive in front of a text: its record, then the plan of the text. */
  lemma DirectiveParses(ds: seq<Directive>, j: nat, tail: string, sizeMax: nat, args: nat -> nat)
    requires j < |ds| && WellFormed(ds[j]) && sizeMax >= 9
    ensures Parse(PrintBefore(ds[j], tail), sizeMax, args, TakenBefore(ds, j), AssigningBefore(ds, j))
            == RecordOf(ds, j, args, sizeMax)
               + Parse(tail, sizeMax, args, TakenBefore(ds, j + 1), AssigningBefore(ds, j + 1))
  {
    var d := ds[j];
    match d
    case Literal(c) => assert ([c] + tail)[1..] == tail;
    case Percent =>
      var t := "%" + ("%" + tail);
      assert t[1..] == "%" + tail && t[2..] == tail;
    case Conv(_, _, _, _, _, _) => ConversionParses(ds, j, tail, sizeMax, args);
  }

  lemma ConversionParses(ds: seq<Directive>, j: nat, tail: string, sizeMax: nat, args: nat -> nat)
    requires j < |ds| && WellFormed(ds[j]) && ds[j].Conv? && sizeMax >= 9
    ensures Parse(PrintBefore(ds[j], tail), sizeMax, args, TakenBefore(ds, j), AssigningBefore(ds, j))
            == RecordOf(ds, j, args, sizeMax)
               + Parse(tail, sizeMax, args, TakenBefore(ds, j + 1), AssigningBefore(ds, j + 1))
  {
    hide PrintBefore, PrintSpec, ParseHead, Conversion, Behind, IsSpec, FoldsToLower, RecordOf;
    var d := ds[j];
    var h := Head(DestOf(d.suppressed, d.position), WidthOf(d.width, sizeMax), d.alloc, d.length == L, PrintSpec(d.spec) + tail);
    HeadParses(d, tail, sizeMax);
    SpecHead(d.spec, tail);
    SpecTail(d.spec, tail);
    RecordsAgree(ds, j, sizeMax, args, h);
    var c := if d.spec.Plain? then d.spec.c else '[';
    LetterFold(c);
    assert h.rest[0] == c && Behind(c, h.rest[1..]) == tail;
    assert UsedAfter(TakenBefore(ds, j), h.dest) == TakenBefore(ds, j + 1);
    assert OrdinalAfter(AssigningBefore(ds, j), h, c) == AssigningBefore(ds, j + 1);
  }

  /** The record made from the parsed head is the one the directive means. */
  lemma RecordsAgree(ds: seq<Directive>, j: nat, sizeMax: nat, args: nat -> nat, h: Head)
    requires j < |ds| && WellFormed(ds[j]) && ds[j].Conv? && sizeMax >= 9
    requires h.dest == DestOf(ds[j].suppressed, ds[j].position) && h.width == WidthOf(ds[j].width, sizeMax)
    requires h.alloc == ds[j].alloc && h.long == (ds[j].length == L)
    ensures var c := if ds[j].spec.Plain? then ds[j].spec.c else '[';
            Conversion(h, c, AssigningBefore(ds, j), args, TakenBefore(ds, j)) == RecordOf(ds, j, args, sizeMax)
  {
    hide IsSpec, FoldsToLower, Value, WidthOf, TakenBefore, AssigningBefore;
    LetterFold(if ds[j].spec.Plain? then ds[j].spec.c else '[');
    WidthSaturates(ds[j].width, sizeMax);
  }

  lemma {:induction false} SuffixParses(ds: seq<Directive>, j: nat, sizeMax: nat, args: nat -> nat)
    requires j <= |ds| && (forall d :: d in ds ==> WellFormed(d)) && sizeMax >= 9
    ensures Parse(PrintAll(ds[j..]), sizeMax, args, TakenBefore(ds, j), AssigningBefore(ds, j))
            == PlanFrom(ds, j, args, sizeMax)
    decreases |ds| - j
  {
    hide WellFormed, RecordOf, PrintBefore, Parse, TakenBefore, AssigningBefore;
    if j < |ds| {
      assert ds[j] in ds && ds[j..][0] == ds[j] && ds[j..][1..] == ds[j + 1..];
      SuffixParses(ds, j + 1, sizeMax, args);
      DirectiveParses(ds, j, PrintAll(ds[j + 1..]), sizeMax, args);
    } else {
      EmptyParses(sizeMax, args, TakenBefore(ds, j), AssigningBefore(ds, j));
    }
  }

  lemma EmptyParses(sizeMax: nat, args: nat -> nat, used: nat, ordinal: nat)
    requires sizeMax >= 9
    ensures Parse(PrintAll([]), sizeMax, args, used, ordinal) == []
  {
  }

  // --------------------------------------------------- malformed formats

  /** A printed list of directives in front of any text. */
  function PrintOnto(ds: seq<Directive>, tail: string): string {
    if ds == [] then tail else PrintBefore(ds[0], PrintOnto(ds[1..], tail))
  }

  /** What precedes a text is planned as if the text were not there, and the text as if it stood alone behind the arguments taken. */
  lemma {:induction false} TailParses(ds: seq<Directive>, j: nat, tail: string, sizeMax: nat, args: nat -> nat)
    requires j <= |ds| && (forall d :: d in ds ==> WellFormed(d)) && sizeMax >= 9
    ensures Parse(PrintOnto(ds[j..], tail), sizeMax, args, TakenBefore(ds, j), AssigningBefore(ds, j))
            == PlanFrom(ds, j, args, sizeMax) + Parse(tail, sizeMax, args, TakenBefore(ds, |ds|), AssigningBefore(ds, |ds|))
    decreases |ds| - j
  {
    hide WellFormed, RecordOf, PrintBefore, Parse, TakenBefore, AssigningBefore;
    if j < |ds| {
      assert ds[j] in ds && ds[j..][0] == ds[j] && ds[j..][1..] == ds[j + 1..];
      TailParses(ds, j + 1, tail, sizeMax, args);
      DirectiveParses(ds, j, PrintOnto(ds[j + 1..], tail), sizeMax, args);
    }
  }

  /** A conversion that the format ends before its conversion character. */
  function PrintTruncated(d: Directive): string
    requires d.Conv?
  {
    "%" + (PrintDest(d.suppressed, d.position) + (d.width + ((if d.alloc then "m" else "") + PrintLength(d.length))))
  }

  /** A format that ends inside a conversion plans the conversions before it, and nothing for it. */
  lemma TruncatedParses(ds: seq<Directive>, d: Directive, sizeMax: nat, args: nat -> nat)
    requires (forall e :: e in ds ==> WellFormed(e)) && WellFormed(d) && d.Conv? && sizeMax >= 9
    ensures Parse(PrintOnto(ds, PrintTruncated(d)), sizeMax, args, 0, 0) == PlanFrom(ds, 0, args, sizeMax)
  {
    hide WellFormed, Parse, PrintTruncated, PlanFrom;
    TailParses(ds, 0, PrintTruncated(d), sizeMax, args);
    assert ds[0..] == ds;
    TruncatedPlansNothing(d, sizeMax, args, TakenBefore(ds, |ds|), AssigningBefore(ds, |ds|));
  }

  lemma TruncatedPlansNothing(d: Directive, sizeMax: nat, args: nat -> nat, used: nat, ordinal: nat)
    requires WellFormed(d) && d.Conv? && sizeMax >= 9
    ensures Parse(PrintTruncated(d), sizeMax, args, used, ordinal) == []
  {
    hide ParseDest, ParseWidth, ParseAlloc, ParseLength, DigitRun, PrintDest, PrintLength, WidthOf, Value;
    var t3 := PrintLength(d.length);
    var t2 := (if d.alloc then "m" else "") + t3;
    var t1 := d.width + t2;
    var t0 := PrintDest(d.suppressed, d.position) + t1;
    assert PrintTruncated(d) == "%" + t0 && ("%" + t0)[1..] == t0 && t3 + "" == t3;
    LengthParses(d.length, "");
    LengthHead(d.length, "");
    AllocParses(d.alloc, t3);
    WidthParses(d.width, t2, sizeMax);
    WidthHead(d.width, t2);
    DestParses(d.suppressed, d.position, t1);
    DestHead(d.suppressed, d.position, t1);
  }

  /** A scanset that is not closed swallows the rest of the format. */
  lemma UnclosedScanset(negated: bool, bracket: bool, body: string)
    requires ']' !in body && (!bracket ==> body == "" || negated || body[0] != '^')
    ensures SkipScanset((if negated then "^" else "") + ((if bracket then "]" else "") + body)) == ""
  {
    hide BodyLen;
    var a := (if bracket then "]" else "") + body;
    BodyLenOf(body, "");
    assert body + "" == body && body[|body|..] == "";
    assert body != "" ==> body[0] in body;
    if bracket { assert a[1..] == body; } else { assert a == body; }
    if negated { assert ("^" + a)[1..] == a; } else { assert "" + a == a; }
  }

  /** Parsing inverts printing: the plan of a well-formed format is exactly the records its directives mean. */
  lemma ParseInvertsPrint(ds: seq<Directive>, sizeMax: nat, args: nat -> nat)
    requires (forall d :: d in ds ==> WellFormed(d)) && sizeMax >= 9
    ensures Parse(PrintAll(ds), sizeMax, args, 0, 0) == PlanFrom(ds, 0, args, sizeMax)
  {
    SuffixParses(ds, 0, sizeMax, args);
    assert ds[0..] == ds;
  }

  /** The same in wide characters: the records the directives mean, except that an unlengthed `%mc` is unsupported. */
  lemma WideParseInvertsPrint(ds: seq<Directive>, sizeMax: nat, args: nat -> nat)
    requires (forall d :: d in ds ==> WellFormed(d)) && sizeMax >= 9
    ensures ParseWide(Widen(PrintAll(ds)), sizeMax, args, 0, 0) == WidenAll(PlanFrom(ds, 0, args, sizeMax))
  {
    hide WellFormed, Parse, ParseWide, PrintAll, PlanFrom, WidenAll;
    ParseInvertsPrint(ds, sizeMax, args);
    ParsersAgree(PrintAll(ds), sizeMax, args, 0, 0);
  }
}
