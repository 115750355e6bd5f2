/** From the instruction table as it is written to the jump table: populate_table, the variants, the
    sort and the builder together (mushashi/m68kmake.c, mushashi/m68k_in.c). */
module Dispatch {
  import opened Words
  import opened Bits
  import opened JumpTable
  import opened Sorting
  import opened Generator

  /** A line of the instruction table. `conditional` lines are those of bcc, scc, dbcc and trapcc. */
  datatype Line = Line(pattern: string, size: nat, allowed: string, name: nat, conditional: bool)

  predicate AllDots(s: string) {
    forall i :: 0 <= i < |s| ==> s[i] == '.'
  }

  /** Sixteen characters; the addressing mode and the condition are left open where they are filled in. */
  predicate WellFormed(l: Line) {
    && |l.pattern| == 16 && |l.allowed| == 10
    && (l.allowed != NO_MODES ==> AllDots(l.pattern[10..]))
    && (l.conditional ==> AllDots(l.pattern[4..8]))
  }

  /** What the line declares: the opcode fits the pattern, its addressing mode is allowed, and its
      condition is not one of T and F. */
  predicate Declares(l: Line, op: u16)
    requires WellFormed(l)
  {
    && Fits(l.pattern, op)
    && (l.allowed != NO_MODES ==> Allows(l.allowed, ModeOf(op % 0x40)))
    && (l.conditional ==> Condition(op) >= 2)
  }

  // ---------------------------------------------------------------- from text to bits

  lemma {:induction false} ValueJoins(a: string, b: string, digit: char -> bool)
    ensures Value(a, digit) * Pow2(|b|) >= 0 && Value(a + b, digit) == Value(a, digit) * Pow2(|b|) + Value(b, digit)
    decreases |b|
  {
    hide Value;
    if b == [] {
      assert a + b == a;
      NoDigits(digit);
    } else {
      var n := |b| - 1;
      assert (a + b)[..|a + b| - 1] == a + b[..n] && (a + b)[|a + b| - 1] == b[n];
      ValueJoins(a, b[..n], digit);
      LastDigit(a + b, digit);
      LastDigit(b, digit);
      OneMoreDigit(Value(a, digit), Pow2(n), Value(b[..n], digit), if digit(b[n]) then 1 else 0);
    }
  }

  lemma OneMoreDigit(high: nat, p: nat, low: nat, c: nat)
    ensures high * (2 * p) >= 0 && high * (2 * p) + (2 * low + c) == 2 * (high * p + low) + c
  {
  }

  lemma NoDigits(digit: char -> bool)
    ensures Value([], digit) == 0
  {
  }

  lemma LastDigit(s: string, digit: char -> bool)
    requires s != []
    ensures Value(s, digit) == 2 * Value(s[..|s| - 1], digit) + (if digit(s[|s| - 1]) then 1 else 0)
  {
  }

  lemma {:induction false} DotsAreZero(s: string)
    requires AllDots(s)
    ensures Value(s, Fixed) == 0
  {
    if s != [] {
      DotsAreZero(s[..|s| - 1]);
    }
  }

  /** The row that populate_table makes of a line. */
  function Parsed(l: Line): Input
    requires WellFormed(l)
  {
    Powers();
    ValueBelow(l.pattern, Fixed);
    ValueBelow(l.pattern, One);
    Input(Value(l.pattern, Fixed), Value(l.pattern, One), l.size, l.allowed, l.name, 0)
  }

  lemma ParsedIsProper(l: Line)
    requires WellFormed(l)
    ensures Proper(Parsed(l))
    ensures forall op: u16 :: BaseMatches(Parsed(l), op) <==> Fits(l.pattern, op)
  {
    hide And, Value, Fits;
    PatternMatches(l.pattern, 0);
    forall op: u16 ensures BaseMatches(Parsed(l), op) <==> Fits(l.pattern, op) {
      PatternMatches(l.pattern, op);
    }
  }

  /** Six dots at the end leave the bits of the effective address out of the mask. */
  lemma OpenMode(l: Line)
    requires WellFormed(l) && l.allowed != NO_MODES
    ensures Parsed(l).mask % 0x40 == 0
  {
    hide Value;
    var p := l.pattern;
    Powers();
    assert p == p[..10] + p[10..];
    ValueJoins(p[..10], p[10..], Fixed);
    DotsAreZero(p[10..]);
  }

  /** Four dots in the middle leave the condition out of the mask. */
  lemma OpenCondition(l: Line)
    requires WellFormed(l) && l.conditional
    ensures Condition(Parsed(l).mask) == 0
  {
    hide Value;
    var p := l.pattern;
    Powers();
    assert p == p[..8] + p[8..] && p[..8] == p[..4] + p[4..8];
    ValueJoins(p[..8], p[8..], Fixed);
    ValueJoins(p[..4], p[4..8], Fixed);
    DotsAreZero(p[4..8]);
    ValueBelow(p[8..], Fixed);
    QuotientIs(Value(p, Fixed), 0x100, Value(p[..8], Fixed), Value(p[8..], Fixed));
    QuotientIs(Value(p[..8], Fixed), 0x10, Value(p[..4], Fixed), 0);
  }

  // ---------------------------------------------------------------- the rows of a line

  /** The rows that process_opcode_handlers adds for a line. */
  function RowsFor(l: Line): seq<Row>
    requires WellFormed(l)
  {
    if l.conditional then CcRows(Parsed(l), 2) else EaRows(Parsed(l))
  }

  /** The rows of a line cover exactly the opcodes that the line declares. */
  lemma LineCovers(l: Line, op: u16)
    requires WellFormed(l)
    ensures Covered(RowsFor(l), op) <==> Declares(l, op)
  {
    hide And, Covered, Fits, Allows, ModeOf, CcRows, EaRows, BaseMatches;
    var r := Parsed(l);
    ParsedIsProper(l);
    if l.allowed != NO_MODES {
      OpenMode(l);
      hide Parsed;
      EaCovers(r, op);
    } else {
      hide Parsed;
      PlainRow(r, op);
    }
    if l.conditional {
      OpenCondition(l);
      CcCovers(r, 2, op);
    }
  }

  // ---------------------------------------------------------------- which handler a row has

  /** The addressing mode that a handler of the line is made for. */
  predicate Serves(l: Line, m: Mode, op: u16) {
    var x := op % 0x40;
    if l.allowed == NO_MODES then m == NoMode
    else m == ModeOf(x) || (l.size == 8 && ((m == Pi7 && x == 0x1f) || (m == Pd7 && x == 0x27)))
  }

  /** The handler is one of the line, for the condition in the opcode and its addressing mode. */
  ghost predicate HandlerOf(l: Line, op: u16, handler: nat) {
    exists m :: Serves(l, m, op)
      && handler == 1 + (l.name * 0x10 + (if l.conditional then Condition(op) else 0)) * 13 + Index(m)
  }

  /** Handler numbers tell names, conditions and addressing modes apart. */
  lemma HandlersDiffer(a: Input, m: Mode, b: Input, n: Mode)
    requires a.condition < 0x10 && b.condition < 0x10
    ensures Handler(a, m) == Handler(b, n) <==> a.name == b.name && a.condition == b.condition && m == n
    ensures Handler(a, m) != ILLEGAL
  {
    IndexDiffers(m, n);
    IndexDiffers(n, m);
    hide Index;
    var x, y := a.name * 0x10 + a.condition, b.name * 0x10 + b.condition;
    QuotientIs(x * 13 + Index(m), 13, x, Index(m));
    QuotientIs(y * 13 + Index(n), 13, y, Index(n));
    QuotientIs(x, 0x10, a.name, a.condition);
    QuotientIs(y, 0x10, b.name, b.condition);
  }

  lemma IndexDiffers(m: Mode, n: Mode)
    ensures Index(m) < 13 && (Index(m) == Index(n) <==> m == n)
  {
  }

  lemma EaOrigin(r: Input, row: Row) returns (m: Mode)
    requires |r.allowed| == 10 && row in EaRows(r)
    ensures m in Modes(r) && row == SetOpcode(r, m)
  {
    hide SetOpcode, Modes;
    var k :| 0 <= k < |EaRows(r)| && EaRows(r)[k] == row;
    m := Modes(r)[k];
  }

  lemma {:induction false} CcOrigin(r: Input, i: nat, row: Row) returns (c: nat)
    requires |r.allowed| == 10 && i <= 0x10 && row in CcRows(r, i)
    ensures i <= c < 0x10 && row in EaRows(CcRow(r, c))
    decreases 0x10 - i
  {
    hide EaRows, CcRow;
    if row in EaRows(CcRow(r, i)) {
      c := i;
    } else {
      c := CcOrigin(r, i + 1, row);
    }
  }

  lemma ModeServes(l: Line, m: Mode, op: u16)
    requires WellFormed(l) && m in Modes(Parsed(l)) && SetOpcode(Parsed(l), m).Matches(op)
    ensures Serves(l, m, op)
  {
    hide And, SetOpcode, Row.Matches, Value, MaskAdd, MatchAdd;
    var r := Parsed(l);
    ParsedIsProper(l);
    if l.allowed != NO_MODES {
      OpenMode(l);
      hide Modes;
      ModesAre(r, m);
      VariantMatches(r, m, op);
      ModeBits(m, op % 0x40);
    }
  }

  /** A row of a line that matches an opcode has a handler for that opcode. */
  lemma RowHandles(l: Line, row: Row, op: u16)
    requires WellFormed(l) && row in RowsFor(l) && row.Matches(op)
    ensures HandlerOf(l, op, row.handler)
  {
    hide And, Or, Row.Matches, Value, Modes, EaRows, CcRows, ModeOf, Condition;
    var r := Parsed(l);
    if l.conditional {
      var c := CcOrigin(r, 2, row);
      var m := EaOrigin(CcRow(r, c), row);
      ParsedIsProper(l);
      OpenCondition(l);
      CcVariant(r, c, m, op);
      SameModes(r, c);
      ModeServes(l, m, op);
    } else {
      var m := EaOrigin(r, row);
      ModeServes(l, m, op);
    }
  }

  // ---------------------------------------------------------------- all lines

  ghost predicate AllWellFormed(lines: seq<Line>) {
    forall k :: 0 <= k < |lines| ==> WellFormed(lines[k])
  }

  /** The output table before it is sorted. */
  function AllRows(lines: seq<Line>): seq<Row>
    requires AllWellFormed(lines)
  {
    if lines == [] then [] else AllRows(lines[..|lines| - 1]) + RowsFor(lines[|lines| - 1])
  }

  lemma {:induction false} RowOrigin(lines: seq<Line>, row: Row) returns (k: nat)
    requires AllWellFormed(lines) && row in AllRows(lines)
    ensures k < |lines| && row in RowsFor(lines[k])
  {
    hide RowsFor, WellFormed;
    k := |lines| - 1;
    if row !in RowsFor(lines[k]) {
      k := RowOrigin(lines[..k], row);
    }
  }

  lemma {:induction false} RowIsThere(lines: seq<Line>, k: nat, row: Row)
    requires AllWellFormed(lines) && k < |lines| && row in RowsFor(lines[k])
    ensures row in AllRows(lines)
  {
    hide RowsFor, WellFormed;
    if k < |lines| - 1 {
      RowIsThere(lines[..|lines| - 1], k, row);
    }
  }

  lemma RowsSound(l: Line)
    requires WellFormed(l)
    ensures AllSound(RowsFor(l))
  {
    hide And, Value, Row.Sound, EaRows, CcRows, Condition;
    var r := Parsed(l);
    ParsedIsProper(l);
    if l.allowed != NO_MODES {
      OpenMode(l);
    }
    if l.conditional {
      OpenCondition(l);
      hide Parsed;
      CcSound(r, 2);
    } else {
      hide Parsed;
      EaSound(r);
    }
  }

  lemma EaSound(r: Input)
    requires Proper(r) && (r.allowed != NO_MODES ==> r.mask % 0x40 == 0)
    ensures AllSound(EaRows(r))
  {
    hide And, EaRows, Row.Sound;
    if r.allowed == NO_MODES {
      PlainRow(r, 0);
    } else {
      EaCovers(r, 0);
    }
  }

  lemma {:induction false} CcSound(r: Input, i: nat)
    requires Proper(r) && (r.allowed != NO_MODES ==> r.mask % 0x40 == 0) && Condition(r.mask) == 0 && i <= 0x10
    ensures AllSound(CcRows(r, i))
    decreases 0x10 - i
  {
    hide And, EaRows, Row.Sound, CcRow, Condition;
    if i < 0x10 {
      CcProper(r, i);
      EaSound(CcRow(r, i));
      CcSound(r, i + 1);
    }
  }

  // ---------------------------------------------------------------- the whole way

  /** What the jump table should hold for an opcode: a handler of a line that declares it, or, if no
      line does, the illegal one. */
  ghost predicate Dispatched(lines: seq<Line>, op: u16, handler: nat)
    requires AllWellFormed(lines)
  {
    if exists k :: 0 <= k < |lines| && Declares(lines[k], op)
    then exists k :: 0 <= k < |lines| && Declares(lines[k], op) && HandlerOf(lines[k], op, handler)
    else handler == ILLEGAL
  }

  lemma WinnerIsDispatched(lines: seq<Line>, rows: seq<Row>, op: u16)
    requires AllWellFormed(lines) && Sorted(rows) && multiset(rows) == multiset(AllRows(lines))
    ensures Dispatched(lines, op, Winner(rows, op))
  {
    hide Declares, WellFormed, RowsFor, AllRows, Winner, Sorted, Row.Matches, HandlerOf, Precedes;
    if exists k :: 0 <= k < |lines| && Declares(lines[k], op) {
      var k :| 0 <= k < |lines| && Declares(lines[k], op);
      var row := DeclaredRow(lines[k], op);
      RowIsThere(lines, k, row);
      assert row in multiset(rows);
      var i :| 0 <= i < |rows| && rows[i] == row;
      assert rows[i].Matches(op);
    }
    var w := MostSpecificWins(rows, op);
    if exists i :: 0 <= i < |rows| && rows[i].Matches(op) {
      assert rows[w] in multiset(rows);
      var k := RowOrigin(lines, rows[w]);
      RowDeclares(lines[k], rows[w], op);
      RowHandles(lines[k], rows[w], op);
    }
  }

  lemma RowDeclares(l: Line, row: Row, op: u16)
    requires WellFormed(l) && row in RowsFor(l) && row.Matches(op)
    ensures Declares(l, op)
  {
    hide WellFormed, Declares, RowsFor, Row.Matches;
    LineCovers(l, op);
  }

  lemma DeclaredRow(l: Line, op: u16) returns (row: Row)
    requires WellFormed(l) && Declares(l, op)
    ensures row in RowsFor(l) && row.Matches(op)
  {
    hide WellFormed, Declares, RowsFor, Row.Matches;
    LineCovers(l, op);
    var k :| 0 <= k < |RowsFor(l)| && RowsFor(l)[k].Matches(op);
    row := RowsFor(l)[k];
  }

  lemma {:induction false} AllRowsSound(lines: seq<Line>)
    requires AllWellFormed(lines)
    ensures AllSound(AllRows(lines))
  {
    hide RowsFor, WellFormed, Row.Sound;
    if lines != [] {
      AllRowsSound(lines[..|lines| - 1]);
      RowsSound(lines[|lines| - 1]);
    }
  }

  /** populate_table and process_opcode_handlers: parse each line and add its variants. */
  method Generate(lines: seq<Line>) returns (rows: seq<Row>)
    requires AllWellFormed(lines)
    ensures rows == AllRows(lines)
  {
    var out := new OutputTable();
    for i := 0 to |lines|
      invariant out.rows == AllRows(lines[..i])
    {
      hide EaRows, CcRows, Value, Fits;
      var l := lines[i];
      var mask, match' := ParsePattern(l.pattern);
      var op := Input(mask, match', l.size, l.allowed, l.name, 0);
      if l.conditional {
        out.CcVariants(op);
      } else {
        out.EaVariants(op);
      }
      assert lines[..i + 1][..i] == lines[..i];
    }
    assert lines[..|lines|] == lines;
    rows := out.rows;
  }

  /** The builder on the sorted output table: every opcode gets a handler of a line that declares it,
      for its condition and addressing mode, and opcodes that no line declares are illegal. */
  method Install(lines: seq<Line>, rows: seq<Row>, table: array<nat>)
    requires AllWellFormed(lines) && table.Length == OPCODES
    requires Sorted(rows) && multiset(rows) == multiset(AllRows(lines))
    requires (exists i :: 0 <= i < |rows| && rows[i].mask == 0xff00) && Expected(rows, First(rows))
    modifies table
    ensures forall op :: 0 <= op < OPCODES ==> Dispatched(lines, op, table[op])
  {
    hide WellFormed, RowsFor, AllRows, Dispatched, Row.Sound, Sorted, Special, First, Processed;
    AllRowsSound(lines);
    forall i | 0 <= i < |rows| ensures rows[i].Sound() {
      assert rows[i] in multiset(rows);
    }
    SortedIsProcessed(rows);
    Build(rows, table);
    assert rows[..|rows|] == rows;
    forall op | 0 <= op < OPCODES ensures Dispatched(lines, op, table[op]) {
      WinnerIsDispatched(lines, rows, op);
      assert table[..][op] == table[op];
    }
  }
}
