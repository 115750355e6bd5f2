/** The opcode jump table: m68ki_build_opcode_table of mushashi/m68k_in.c, over the rows that
    mushashi/m68kmake.c generates and sorts. */
module JumpTable {
  import opened Words
  import opened Bits

  const ILLEGAL: nat := 0
  const OPCODES: nat := 0x1_0000

  /** A row of m68k_opcode_handler_table; `pattern` is the C field `match`. */
  datatype Row = Row(mask: u16, pattern: u16, handler: nat)
  {
    predicate Matches(op: u16) {
      And(op, mask) == pattern
    }

    /** The pattern has no bit outside the mask. */
    predicate Sound() {
      And(pattern, mask) == pattern
    }
  }

  /** What the table should hold: the handler of the last row that matches, or the illegal one. */
  function Winner(rows: seq<Row>, op: u16): nat {
    if rows == [] then ILLEGAL
    else if rows[|rows| - 1].Matches(op) then rows[|rows| - 1].handler
    else Winner(rows[..|rows| - 1], op)
  }

  // ---------------------------------------------------------------- the masks of the loops

  lemma Powers()
    ensures Pow2(3) == 8 && Pow2(4) == 0x10 && Pow2(6) == 0x40 && Pow2(8) == 0x100 && Pow2(9) == 0x200
    ensures Pow2(12) == 0x1000 && Pow2(13) == 0x2000 && Pow2(16) == 0x1_0000
  {
    assert Pow2(4) == 0x10;
    assert Pow2(8) == 0x100;
    assert Pow2(12) == 0x1000;
  }

  /** A mask of `n` ones above `k` free bits. */
  lemma HighMask(q: nat, r: nat, k: nat, n: nat)
    requires q < Pow2(n) && r < Pow2(k)
    ensures And(q * Pow2(k) + r, (Pow2(n) - 1) * Pow2(k) + 0) == q * Pow2(k)
  {
    AndJoins(q, r, Pow2(n) - 1, 0, k);
    AndOnes(q, n);
    AndZero(r);
  }

  /** 0xff00, 0xfff0 and 0xfff8 leave the low bits free, 0xffff none. */
  lemma LowMasks(op: u16)
    ensures And(op, 0xff00) == op / 0x100 * 0x100
    ensures And(op, 0xfff0) == op / 0x10 * 0x10
    ensures And(op, 0xfff8) == op / 8 * 8
    ensures And(op, 0xffff) == op
  {
    hide And;
    Powers();
    HighMask(op / 0x100, op % 0x100, 8, 8);
    HighMask(op / 0x10, op % 0x10, 4, 12);
    HighMask(op / 8, op % 8, 3, 13);
    AndOnes(op, 16);
  }

  /** 0xf1ff leaves bits 9 to 11 free. */
  lemma MaskF1ff(h: nat, i: nat, l: nat)
    requires h < 0x10 && i < 8 && l < 0x200
    ensures And(h * 0x1000 + i * 0x200 + l, 0xf1ff) == h * 0x1000 + l
  {
    hide And;
    Powers();
    AndJoins(h * 8 + i, l, 0x78, 0x1ff, 9);
    HighMask(h, i, 3, 4);
    AndOnes(l, 9);
  }

  /** 0xf1f8 leaves bits 9 to 11 and 0 to 2 free. */
  lemma MaskF1f8(h: nat, i: nat, m: nat, j: nat)
    requires h < 0x10 && i < 8 && m < 0x40 && j < 8
    ensures And(h * 0x1000 + i * 0x200 + m * 8 + j, 0xf1f8) == h * 0x1000 + m * 8
  {
    hide And;
    Powers();
    AndJoins(h * 8 + i, m * 8 + j, 0x78, 0x1f8, 9);
    HighMask(h, i, 3, 4);
    HighMask(m, j, 3, 6);
  }

  // ---------------------------------------------------------------- filling in one row

  /** The opcodes of a row with one free field at the bottom: `count` of them from the pattern on. */
  predicate LowField(mask: u16, count: nat) {
    (mask == 0xff00 && count == 0x100) || (mask == 0xfff0 && count == 0x10) || (mask == 0xfff8 && count == 8) || (mask == 0xffff && count == 1)
  }

  /** The numbers that agree with a multiple of `c` above its low part. */
  lemma SameAbove(p: nat, op: nat, c: nat)
    requires c > 0 && p == p / c * c
    ensures op / c * c == p <==> p <= op < p + c
  {
    QuotientBetween(op, c, p / c);
    var k, q := p / c, op / c;
    assert (k + 1) * c == k * c + c;
    if q * c == k * c && q != k {
      Scaled(if q > k then q - k else k - q, c);
    }
  }

  lemma LowOpcodes(row: Row, count: nat, op: u16)
    requires row.Sound() && LowField(row.mask, count)
    ensures row.Matches(op) <==> row.pattern <= op < row.pattern + count
  {
    hide And;
    LowMasks(op);
    LowMasks(row.pattern);
    SameAbove(row.pattern, op, count);
  }

  lemma LowOr(row: Row, count: nat, i: nat)
    requires row.Sound() && LowField(row.mask, count) && i < count
    ensures Or(row.pattern, i) == row.pattern + i
  {
    LowMasks(row.pattern);
    Powers();
    hide And;
    var p := row.pattern;
    if count == 0x100 {
      AndJoins(p / 0x100, 0, 0, i, 8);
    } else if count == 0x10 {
      AndJoins(p / 0x10, 0, 0, i, 4);
    } else if count == 8 {
      AndJoins(p / 8, 0, 0, i, 3);
    }
    AndNone(p / 0x100, i);
    AndNone(p / 0x10, i);
    AndNone(p / 8, i);
    AndNone(p, 0);
  }

  /** The masks with a free register field in the middle. */
  predicate MiddleField(mask: u16) {
    mask == 0xf1ff || mask == 0xf1f8
  }

  // The four fields of an opcode: bits 12 to 15, 9 to 11, 3 to 8 and 0 to 2.
  function High(op: nat): nat { op / 8 / 0x40 / 8 }
  function Register(op: nat): nat { op / 8 / 0x40 % 8 }
  function Middle(op: nat): nat { op / 8 % 0x40 }
  function Low(op: nat): nat { op % 8 }

  lemma Fields(op: u16)
    ensures op == High(op) * 0x1000 + Register(op) * 0x200 + Middle(op) * 8 + Low(op)
    ensures High(op) < 0x10 && Register(op) < 8 && Middle(op) < 0x40 && Low(op) < 8
  {
  }

  lemma FieldsOf(h: nat, i: nat, m: nat, j: nat)
    requires h < 0x10 && i < 8 && m < 0x40 && j < 8
    ensures var op := h * 0x1000 + i * 0x200 + m * 8 + j;
      High(op) == h && Register(op) == i && Middle(op) == m && Low(op) == j
  {
    QuotientIs(h * 0x1000 + i * 0x200 + m * 8 + j, 8, h * 0x200 + i * 0x40 + m, j);
    QuotientIs(h * 0x200 + i * 0x40 + m, 0x40, h * 8 + i, m);
    QuotientIs(h * 8 + i, 8, h, i);
  }

  lemma MiddleAnd(op: u16)
    ensures And(op, 0xf1ff) == High(op) * 0x1000 + Middle(op) * 8 + Low(op)
    ensures And(op, 0xf1f8) == High(op) * 0x1000 + Middle(op) * 8
  {
    hide And, High, Register, Middle, Low;
    Fields(op);
    MaskF1ff(High(op), Register(op), Middle(op) * 8 + Low(op));
    MaskF1f8(High(op), Register(op), Middle(op), Low(op));
  }

  /** Such a row matches the opcodes that differ from its pattern only in the free fields. */
  lemma MiddleOpcodes(row: Row, op: u16)
    requires row.Sound() && MiddleField(row.mask)
    ensures Register(row.pattern) == 0 && (row.mask == 0xf1f8 ==> Low(row.pattern) == 0)
    ensures row.Matches(op) <==> High(op) == High(row.pattern) && Middle(op) == Middle(row.pattern)
                                 && (row.mask == 0xf1ff ==> Low(op) == Low(row.pattern))
  {
    hide And, High, Register, Middle, Low;
    Fields(op);
    Fields(row.pattern);
    MiddleAnd(op);
    MiddleAnd(row.pattern);
  }

  lemma MiddleOr(row: Row, i: nat, j: nat)
    requires row.Sound() && MiddleField(row.mask) && i < 8 && j < 8 && (row.mask == 0xf1ff ==> j == 0)
    ensures Or(row.pattern, i * 0x200) == row.pattern + i * 0x200 < OPCODES
    ensures Or(row.pattern + i * 0x200, j) == row.pattern + i * 0x200 + j < OPCODES
  {
    hide And, High, Register, Middle, Low;
    var p := row.pattern;
    Fields(p);
    MiddleOpcodes(row, p);
    OrMiddle(High(p), Middle(p) * 8 + Low(p), i);
    if row.mask == 0xf1f8 {
      OrLow(High(p) * 0x200 + i * 0x40 + Middle(p), j);
    } else {
      AndNone(p + i * 0x200, 0);
    }
  }

  /** The opcode that the loops make from a row and its free fields. */
  lemma MiddleFields(row: Row, i: nat, j: nat)
    requires row.Sound() && MiddleField(row.mask) && i < 8 && j < 8 && (row.mask == 0xf1ff ==> j == 0)
    ensures var op := row.pattern + i * 0x200 + j;
      && High(op) == High(row.pattern) && Register(op) == i && Middle(op) == Middle(row.pattern)
      && Low(op) == if row.mask == 0xf1ff then Low(row.pattern) else j
  {
    hide And, High, Register, Middle, Low;
    var p := row.pattern;
    Fields(p);
    MiddleOpcodes(row, p);
    FieldsOf(High(p), i, Middle(p), if row.mask == 0xf1ff then Low(p) else j);
  }

  lemma OrMiddle(h: nat, l: nat, i: nat)
    requires l < 0x200 && i < 8
    ensures And(h * 0x1000 + l, i * 0x200) == 0
  {
    hide And;
    Powers();
    AndJoins(h * 8, l, i, 0, 9);
    AndJoins(h, 0, 0, i, 3);
    AndNone(h, i);
    AndNone(l, 0);
  }

  lemma OrLow(q: nat, j: nat)
    requires j < 8
    ensures And(q * 8, j) == 0
  {
    hide And;
    Powers();
    AndJoins(q, 0, 0, j, 3);
    AndNone(q, j);
  }

  /** What filling in a row makes of one entry. */
  function Filled(row: Row, op: u16, before: nat): nat {
    if row.Matches(op) then row.handler else before
  }

  /** The loop for masks of fewer than 8 bits: it looks at every opcode. */
  method FillGeneral(table: array<nat>, row: Row)
    requires table.Length == OPCODES
    modifies table
    ensures forall op :: 0 <= op < OPCODES ==> table[op] == Filled(row, op, old(table[op]))
  {
    hide And;
    for i := 0 to OPCODES
      invariant forall op :: 0 <= op < i ==> table[op] == Filled(row, op, old(table[op]))
      invariant forall op :: i <= op < OPCODES ==> table[op] == old(table[op])
    {
      if And(i, row.mask) == row.pattern {
        table[i] := row.handler;
      }
    }
  }

  /** The loops for 0xff00, 0xfff0 and 0xfff8, and the assignment for 0xffff. */
  method FillLow(table: array<nat>, row: Row, count: nat)
    requires table.Length == OPCODES && row.Sound() && LowField(row.mask, count)
    modifies table
    ensures forall op :: 0 <= op < OPCODES ==> table[op] == Filled(row, op, old(table[op]))
  {
    hide And, Or;
    LowRange(row, count);
    for i := 0 to count
      invariant forall op :: 0 <= op < OPCODES ==>
        table[op] == if row.pattern <= op < row.pattern + i then row.handler else old(table[op])
    {
      LowOr(row, count, i);
      table[Or(row.pattern, i)] := row.handler;
    }
    forall op | 0 <= op < OPCODES ensures table[op] == Filled(row, op, old(table[op])) {
      LowOpcodes(row, count, op);
    }
  }

  lemma LowRange(row: Row, count: nat)
    requires row.Sound() && LowField(row.mask, count)
    ensures row.pattern + count <= OPCODES
  {
    LowMasks(row.pattern);
  }

  /** The loop for 0xf1ff. */
  method FillMiddle(table: array<nat>, row: Row)
    requires table.Length == OPCODES && row.Sound() && row.mask == 0xf1ff
    modifies table
    ensures forall op :: 0 <= op < OPCODES ==> table[op] == Filled(row, op, old(table[op]))
  {
    hide And, Or, High, Register, Middle, Low;
    for i := 0 to 8
      invariant forall op :: 0 <= op < OPCODES ==>
        table[op] == if row.Matches(op) && Register(op) < i then row.handler else old(table[op])
    {
      MiddleOr(row, i, 0);
      var at := Or(row.pattern, i * 0x200);
      table[at] := row.handler;
      forall op | 0 <= op < OPCODES
        ensures op == at <==> row.Matches(op) && Register(op) == i
      {
        MiddleOnly(row, op, i, 0);
      }
    }
    forall op | 0 <= op < OPCODES ensures Register(op) < 8 {
      Fields(op);
    }
  }

  /** Only one matching opcode has given register fields. */
  lemma MiddleOnly(row: Row, op: u16, i: nat, j: nat)
    requires row.Sound() && MiddleField(row.mask) && i < 8 && j < 8 && (row.mask == 0xf1ff ==> j == 0)
    ensures op == row.pattern + i * 0x200 + j
      <==> row.Matches(op) && Register(op) == i && (row.mask == 0xf1f8 ==> Low(op) == j)
  {
    hide And, High, Register, Middle, Low;
    var p := row.pattern;
    Fields(op);
    Fields(p);
    MiddleOpcodes(row, op);
    MiddleFields(row, i, j);
  }

  /** The nested loops for 0xf1f8. */
  method FillGrid(table: array<nat>, row: Row)
    requires table.Length == OPCODES && row.Sound() && row.mask == 0xf1f8
    modifies table
    ensures forall op :: 0 <= op < OPCODES ==> table[op] == Filled(row, op, old(table[op]))
  {
    hide And, Or, High, Register, Middle, Low;
    for i := 0 to 8
      invariant forall op :: 0 <= op < OPCODES ==>
        table[op] == if row.Matches(op) && Register(op) < i then row.handler else old(table[op])
    {
      for j := 0 to 8
        invariant forall op :: 0 <= op < OPCODES ==>
          table[op] == if row.Matches(op) && (Register(op) < i || (Register(op) == i && Low(op) < j)) then row.handler else old(table[op])
      {
        MiddleOr(row, i, j);
        var at := Or(Or(row.pattern, i * 0x200), j);
        table[at] := row.handler;
        forall op | 0 <= op < OPCODES
          ensures op == at <==> row.Matches(op) && Register(op) == i && Low(op) == j
        {
          MiddleOnly(row, op, i, j);
        }
      }
      forall op | 0 <= op < OPCODES ensures Low(op) < 8 {
        Fields(op);
      }
    }
    forall op | 0 <= op < OPCODES ensures Register(op) < 8 {
      Fields(op);
    }
  }

  // ---------------------------------------------------------------- the builder

  /** The mask of the row at `k`; the table ends with a row of zeros. */
  function MaskAt(rows: seq<Row>, k: nat): u16
    requires k <= |rows|
  {
    if k < |rows| then rows[k].mask else 0
  }

  /** The first row from `k` on whose mask is another one. */
  function RunEnd(rows: seq<Row>, k: nat, mask: u16): (r: nat)
    requires k <= |rows| && mask != 0
    ensures k <= r <= |rows| && MaskAt(rows, r) != mask && forall i :: k <= i < r ==> rows[i].mask == mask
    decreases |rows| - k
  {
    if MaskAt(rows, k) != mask then k else RunEnd(rows, k + 1, mask)
  }

  /** The first row with mask 0xff00; without one the builder would run past the end of the table. */
  function First(rows: seq<Row>): (r: nat)
    requires exists i :: 0 <= i < |rows| && rows[i].mask == 0xff00
    ensures r < |rows| && rows[r].mask == 0xff00 && forall i :: 0 <= i < r ==> rows[i].mask != 0xff00
  {
    if rows[0].mask == 0xff00 then 0 else 1 + First(rows[1..])
  }

  /** How many rows the builder takes in. */
  function Processed(rows: seq<Row>): (r: nat)
    requires exists i :: 0 <= i < |rows| && rows[i].mask == 0xff00
    ensures r <= |rows|
  {
    var a := RunEnd(rows, First(rows), 0xff00);
    var b := RunEnd(rows, a, 0xf1f8);
    var c := RunEnd(rows, b, 0xfff0);
    var d := RunEnd(rows, c, 0xf1ff);
    RunEnd(rows, RunEnd(rows, d, 0xfff8), 0xffff)
  }

  ghost predicate Holds(table: seq<nat>, rows: seq<Row>) {
    |table| == OPCODES && forall op :: 0 <= op < OPCODES ==> table[op] == Winner(rows, op)
  }

  predicate AllSound(rows: seq<Row>) {
    forall i :: 0 <= i < |rows| ==> rows[i].Sound()
  }

  lemma OneMoreRow(before: seq<nat>, after: seq<nat>, rows: seq<Row>, k: nat)
    requires k < |rows| && Holds(before, rows[..k]) && |after| == OPCODES
    requires forall op :: 0 <= op < OPCODES ==> after[op] == Filled(rows[k], op, before[op])
    ensures Holds(after, rows[..k + 1])
  {
    hide And;
    assert rows[..k + 1][..k] == rows[..k];
    forall op | 0 <= op < OPCODES ensures after[op] == Winner(rows[..k + 1], op) {
      assert Winner(rows[..k + 1], op) == Filled(rows[k], op, Winner(rows[..k], op));
    }
  }

  predicate Special(mask: u16) {
    LowField(mask, 0x100) || LowField(mask, 0x10) || LowField(mask, 8) || LowField(mask, 1) || MiddleField(mask)
  }

  method FillSpecial(table: array<nat>, row: Row)
    requires table.Length == OPCODES && row.Sound() && Special(row.mask)
    modifies table
    ensures forall op :: 0 <= op < OPCODES ==> table[op] == Filled(row, op, old(table[op]))
  {
    if row.mask == 0xff00 {
      FillLow(table, row, 0x100);
    } else if row.mask == 0xf1f8 {
      FillGrid(table, row);
    } else if row.mask == 0xfff0 {
      FillLow(table, row, 0x10);
    } else if row.mask == 0xf1ff {
      FillMiddle(table, row);
    } else if row.mask == 0xfff8 {
      FillLow(table, row, 8);
    } else {
      FillLow(table, row, 1);
    }
  }

  /** One of the loops over the rows with one mask. */
  method FillRun(table: array<nat>, rows: seq<Row>, start: nat, mask: u16) returns (k: nat)
    requires table.Length == OPCODES && AllSound(rows) && start <= |rows| && Special(mask)
    requires Holds(table[..], rows[..start])
    modifies table
    ensures k == RunEnd(rows, start, mask) && Holds(table[..], rows[..k])
  {
    hide And, Filled, Holds, Row.Sound;
    k := start;
    while MaskAt(rows, k) == mask
      invariant start <= k <= |rows| && Holds(table[..], rows[..k])
      invariant RunEnd(rows, start, mask) == RunEnd(rows, k, mask)
      decreases |rows| - k
    {
      ghost var before := table[..];
      FillSpecial(table, rows[k]);
      OneMoreRow(before, table[..], rows, k);
      k := k + 1;
    }
  }

  /** m68ki_build_opcode_table. Afterwards every opcode has the handler of the last processed row that
      matches it, or the illegal handler. */
  method Build(rows: seq<Row>, table: array<nat>)
    requires table.Length == OPCODES && AllSound(rows)
    requires exists i :: 0 <= i < |rows| && rows[i].mask == 0xff00
    modifies table
    ensures Holds(table[..], rows[..Processed(rows)])
  {
    hide And, Filled, Holds, Row.Sound;
    Clear(table);
    var k := 0;
    assert rows[..k] == [];
    while MaskAt(rows, k) != 0xff00
      invariant k <= First(rows) && Holds(table[..], rows[..k])
      decreases First(rows) - k
    {
      ghost var before := table[..];
      FillGeneral(table, rows[k]);
      OneMoreRow(before, table[..], rows, k);
      k := k + 1;
    }
    k := FillRun(table, rows, k, 0xff00);
    k := FillRun(table, rows, k, 0xf1f8);
    k := FillRun(table, rows, k, 0xfff0);
    k := FillRun(table, rows, k, 0xf1ff);
    k := FillRun(table, rows, k, 0xfff8);
    k := FillRun(table, rows, k, 0xffff);
  }

  method Clear(table: array<nat>)
    requires table.Length == OPCODES
    modifies table
    ensures Holds(table[..], [])
  {
    for i := 0 to OPCODES
      invariant forall op :: 0 <= op < i ==> table[op] == ILLEGAL
    {
      table[i] := ILLEGAL;
    }
  }
}
