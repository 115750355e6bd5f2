/** The opcode generator of mushashi/m68kmake.c: mask and pattern of a row, and its variants by
    addressing mode and by condition code. */
module Generator {
  import opened Words
  import opened Bits
  import opened JumpTable
  import opened Sorting

  /** A row of the input table. `allowed` is the list of addressing modes, as written there; the number
      `name` and the condition put into it stand for the name. */
  datatype Input = Input(mask: u16, pattern: u16, size: nat, allowed: string, name: nat, condition: nat)

  // ---------------------------------------------------------------- bit patterns

  function Value(pattern: string, digit: char -> bool): nat {
    if pattern == [] then 0
    else 2 * Value(pattern[..|pattern| - 1], digit) + (if digit(pattern[|pattern| - 1]) then 1 else 0)
  }

  /** The mask has a one for every character but '.', the match value for every '1'. */
  function Fixed(c: char): bool { c != '.' }
  function One(c: char): bool { c == '1' }

  /** An opcode fits a pattern when it has a one where the pattern has '1' and a zero where it has
      another character but '.'. */
  predicate Fits(pattern: string, op: nat)
    decreases |pattern|
  {
    pattern == [] ||
    (var n := |pattern| - 1;
     (pattern[n] == '.' || (pattern[n] == '1') == (op % 2 == 1)) && Fits(pattern[..n], op / 2))
  }

  /** Masking and comparing is the same as fitting the pattern. */
  lemma {:induction false} PatternMatches(pattern: string, op: nat)
    ensures And(op, Value(pattern, Fixed)) == Value(pattern, One) <==> Fits(pattern, op)
    ensures And(Value(pattern, One), Value(pattern, Fixed)) == Value(pattern, One)
    decreases |pattern|
  {
    hide And;
    if pattern == [] {
      AndNone(op, 0);
    } else {
      var n := |pattern| - 1;
      PatternMatches(pattern[..n], op / 2);
      AndOfHalves(op, Value(pattern, Fixed));
      AndOfHalves(Value(pattern, One), Value(pattern, Fixed));
    }
  }

  lemma {:induction false} ValueBelow(pattern: string, digit: char -> bool)
    ensures Value(pattern, digit) < Pow2(|pattern|)
    decreases |pattern|
  {
    if pattern != [] {
      ValueBelow(pattern[..|pattern| - 1], digit);
    }
  }

  /** `x |= b << k` where the low `k + 1` bits of `x` are zero. */
  lemma SetBit(m: nat, b: nat, k: nat)
    requires b < 2
    ensures m * Pow2(k + 1) >= 0 && Or(m * Pow2(k + 1), b * Pow2(k)) == (2 * m + b) * Pow2(k)
  {
    hide And;
    TwiceTimes(m, b, Pow2(k));
    AndJoins(2 * m, 0, b, 0, k);
    AndOfHalves(2 * m, b);
    AndNone(m, 0);
    AndNone(0, 0);
  }

  lemma TwiceTimes(m: nat, b: nat, p: nat)
    ensures m * (2 * p) == 2 * m * p >= 0 && (2 * m + b) * p == 2 * m * p + b * p
  {
  }

  /** The loop of populate_table over the sixteen characters; both results are 16-bit numbers. */
  method ParsePattern(pattern: string) returns (mask: u16, match': u16)
    requires |pattern| == 16
    ensures mask == Value(pattern, Fixed) && match' == Value(pattern, One)
  {
    hide And, Or, Pow2;
    var ones: nat, bits: nat := 0, 0;
    assert pattern[..0] == [];
    for i := 0 to 16
      invariant ones == Value(pattern[..i], Fixed) * Pow2(16 - i) && bits == Value(pattern[..i], One) * Pow2(16 - i)
    {
      NextDigit(pattern, i, Fixed);
      NextDigit(pattern, i, One);
      ones := Or(ones, (if pattern[i] != '.' then 1 else 0) * Pow2(15 - i));
      bits := Or(bits, (if pattern[i] == '1' then 1 else 0) * Pow2(15 - i));
    }
    assert pattern[..16] == pattern;
    NoPower();
    Powers();
    ValueBelow(pattern, Fixed);
    ValueBelow(pattern, One);
    mask, match' := ones, bits;
  }

  lemma NoPower()
    ensures Pow2(0) == 1
  {
  }

  lemma NextDigit(pattern: string, i: nat, digit: char -> bool)
    requires i < 16 == |pattern|
    ensures var v, b := Value(pattern[..i], digit), if digit(pattern[i]) then 1 else 0;
      v * Pow2(16 - i) >= 0 && Value(pattern[..i + 1], digit) * Pow2(15 - i) == Or(v * Pow2(16 - i), b * Pow2(15 - i))
  {
    assert pattern[..i + 1][..i] == pattern[..i];
    SetBit(Value(pattern[..i], digit), if digit(pattern[i]) then 1 else 0, 15 - i);
  }

  // ---------------------------------------------------------------- addressing modes

  datatype Mode = NoMode | Ai | Pi | Pi7 | Pd | Pd7 | Di | Ix | Aw | Al | Pcdi | Pcix | Imm

  /** g_ea_info_table. */
  function MaskAdd(m: Mode): (r: nat)
    ensures r < 0x40
  {
    match m
    case NoMode => 0
    case Ai | Pi | Pd | Di | Ix => 0x38
    case _ => 0x3f
  }

  function MatchAdd(m: Mode): (r: nat)
    ensures r < 0x40
  {
    match m
    case NoMode => 0
    case Ai => 0x10
    case Pi => 0x18
    case Pi7 => 0x1f
    case Pd => 0x20
    case Pd7 => 0x27
    case Di => 0x28
    case Ix => 0x30
    case Aw => 0x38
    case Al => 0x39
    case Pcdi => 0x3a
    case Pcix => 0x3b
    case Imm => 0x3c
  }

  function Index(m: Mode): nat {
    match m
    case NoMode => 0 case Ai => 1 case Pi => 2 case Pi7 => 3 case Pd => 4 case Pd7 => 5 case Di => 6
    case Ix => 7 case Aw => 8 case Al => 9 case Pcdi => 10 case Pcix => 11 case Imm => 12
  }

  /** A row whose list of modes is complete and whose pattern has no bit outside the mask. */
  predicate Proper(r: Input) {
    |r.allowed| == 10 && And(r.pattern, r.mask) == r.pattern
  }

  /** The handler number stands for the function name: name, condition and addressing mode. */
  function Handler(r: Input, m: Mode): nat {
    1 + (r.name * 0x10 + r.condition) * 13 + Index(m)
  }

  /** set_opcode_struct: the row for one addressing mode. */
  function SetOpcode(r: Input, m: Mode): Row {
    Powers();
    OrBelow(r.mask, MaskAdd(m), 16);
    OrBelow(r.pattern, MatchAdd(m), 16);
    Row(Or(r.mask, MaskAdd(m)), Or(r.pattern, MatchAdd(m)), Handler(r, m))
  }

  const NO_MODES := ".........."

  function When(c: bool, modes: seq<Mode>): seq<Mode> {
    if c then modes else []
  }

  /** The mode for A7 beside the general one. */
  function A7Mode(m: Mode): Mode
    requires m == Pi || m == Pd
  {
    if m == Pi then Pi7 else Pd7
  }

  /** For bytes the mode for A7 comes after the general one. */
  function WithA7(r: Input, m: Mode): seq<Mode>
    requires m == Pi || m == Pd
  {
    if r.size == 8 then [m, A7Mode(m)] else [m]
  }

  function IndirectModes(r: Input): seq<Mode>
    requires |r.allowed| == 10
  {
    When(r.allowed[0] == 'A', [Ai]) +
    When(r.allowed[1] == '+', WithA7(r, Pi)) +
    When(r.allowed[2] == '-', WithA7(r, Pd))
  }

  function OffsetModes(r: Input): seq<Mode>
    requires |r.allowed| == 10
  {
    When(r.allowed[3] == 'D', [Di]) + When(r.allowed[4] == 'X', [Ix]) + When(r.allowed[5] == 'W', [Aw])
  }

  function LastModes(r: Input): seq<Mode>
    requires |r.allowed| == 10
  {
    When(r.allowed[6] == 'L', [Al]) + When(r.allowed[7] == 'd', [Pcdi]) + When(r.allowed[8] == 'x', [Pcix])
    + When(r.allowed[9] == 'I', [Imm])
  }

  /** The modes generate_opcode_ea_variants goes through, in its order. */
  function Modes(r: Input): seq<Mode>
    requires |r.allowed| == 10
  {
    if r.allowed == NO_MODES then [NoMode] else IndirectModes(r) + OffsetModes(r) + LastModes(r)
  }

  function EaRows(r: Input): seq<Row>
    requires |r.allowed| == 10
  {
    RowsOf(r, Modes(r))
  }

  function RowsOf(r: Input, modes: seq<Mode>): (rows: seq<Row>)
    ensures |rows| == |modes| && forall i :: 0 <= i < |rows| ==> rows[i] == SetOpcode(r, modes[i])
  {
    if modes == [] then [] else RowsOf(r, modes[..|modes| - 1]) + [SetOpcode(r, modes[|modes| - 1])]
  }

  // What the six bits of an effective address mean, and which of them a row allows.

  /** The addressing mode of the low six bits of an opcode: mode 2 to 6, or mode 7 with registers 0 to 4. */
  function ModeOf(x: nat): Mode
    requires x < 0x40
  {
    var mode, register := x / 8, x % 8;
    if mode == 2 then Ai else if mode == 3 then Pi else if mode == 4 then Pd else if mode == 5 then Di
    else if mode == 6 then Ix
    else if mode == 7 && register < 5 then [Aw, Al, Pcdi, Pcix, Imm][register]
    else NoMode
  }

  predicate Allows(allowed: string, m: Mode)
    requires |allowed| == 10
  {
    match m
    case Ai => allowed[0] == 'A' case Pi => allowed[1] == '+' case Pd => allowed[2] == '-'
    case Di => allowed[3] == 'D' case Ix => allowed[4] == 'X' case Aw => allowed[5] == 'W'
    case Al => allowed[6] == 'L' case Pcdi => allowed[7] == 'd' case Pcix => allowed[8] == 'x'
    case Imm => allowed[9] == 'I'
    case _ => false
  }

  /** The row's own bits match. */
  predicate BaseMatches(r: Input, op: u16) {
    And(op, r.mask) == r.pattern
  }

  lemma SixBits(x: nat)
    requires x < 0x40
    ensures And(x, 0x38) == x / 8 * 8 && And(x, 0x3f) == x
  {
    hide And;
    Powers();
    HighMask(x / 8, x % 8, 3, 3);
    AndOnes(x, 6);
  }

  /** The bits a mode adds select exactly the effective addresses of that mode. */
  lemma ModeBits(m: Mode, x: nat)
    requires x < 0x40
    ensures m != NoMode && m != Pi7 && m != Pd7 ==> (And(x, MaskAdd(m)) == MatchAdd(m) <==> ModeOf(x) == m)
    ensures m == Pi7 ==> (And(x, MaskAdd(m)) == MatchAdd(m) <==> x == 0x1f)
    ensures m == Pd7 ==> (And(x, MaskAdd(m)) == MatchAdd(m) <==> x == 0x27)
  {
    hide And;
    SixBits(x);
  }

  /** The bits of a mode are added to a row below its own. */
  lemma VariantIs(r: Input, m: Mode)
    requires Proper(r) && r.mask % 0x40 == 0
    ensures r.pattern % 0x40 == 0
    ensures SetOpcode(r, m).mask == r.mask + MaskAdd(m) && SetOpcode(r, m).pattern == r.pattern + MatchAdd(m)
  {
    hide And, Or, MaskAdd, MatchAdd;
    Powers();
    var a, p := r.mask / 0x40, r.pattern / 0x40;
    AndJoins(p, r.pattern % 0x40, a, 0, 6);
    AndNone(r.pattern % 0x40, 0);
    OrJoins(a, 0, 0, MaskAdd(m), 6);
    OrJoins(p, 0, 0, MatchAdd(m), 6);
    OrZero(a);
    OrZero(p);
    OrZero(MaskAdd(m));
    OrZero(MatchAdd(m));
  }

  lemma SixBitsApart(x: nat, a: nat, b: nat)
    requires b < 0x40
    ensures And(x, a * 0x40 + b) == And(x / 0x40, a) * 0x40 + And(x % 0x40, b) && And(x % 0x40, b) <= b
  {
    hide And;
    Powers();
    AndJoins(x / 0x40, x % 0x40, a, b, 6);
  }

  lemma VariantMatches(r: Input, m: Mode, op: u16)
    requires Proper(r) && r.mask % 0x40 == 0
    ensures SetOpcode(r, m).Matches(op) <==> BaseMatches(r, op) && And(op % 0x40, MaskAdd(m)) == MatchAdd(m)
  {
    hide And, Or, MaskAdd, MatchAdd, SetOpcode;
    VariantIs(r, m);
    SixBitsApart(op, r.mask / 0x40, MaskAdd(m));
    SixBitsApart(op, r.mask / 0x40, 0);
  }

  lemma VariantSound(r: Input, m: Mode)
    requires Proper(r) && r.mask % 0x40 == 0
    ensures SetOpcode(r, m).Sound()
  {
    hide And, Or, MaskAdd, MatchAdd, SetOpcode;
    var row := SetOpcode(r, m);
    VariantIs(r, m);
    SixBitsApart(row.pattern, r.mask / 0x40, MaskAdd(m));
    SixBitsApart(r.pattern, r.mask / 0x40, 0);
    MatchInMask(m);
  }

  lemma OrZero(x: nat)
    ensures Or(x, 0) == x && Or(0, x) == x
  {
    AndNone(x, x);
  }

  lemma MatchInMask(m: Mode)
    ensures And(MatchAdd(m), MaskAdd(m)) == MatchAdd(m)
  {
    hide And;
    SixBits(MatchAdd(m));
    AndNone(0, 0);
  }

  /** The modes of a row: those it allows and, for bytes, the two of A7. */
  predicate Included(r: Input, m: Mode)
    requires |r.allowed| == 10
  {
    Allows(r.allowed, m) || (r.size == 8 && ((m == Pi7 && Allows(r.allowed, Pi)) || (m == Pd7 && Allows(r.allowed, Pd))))
  }

  lemma IndirectAre(r: Input, m: Mode)
    requires |r.allowed| == 10
    ensures m in IndirectModes(r) <==> Included(r, m) && m in {Ai, Pi, Pi7, Pd, Pd7}
  {
  }

  lemma OffsetAre(r: Input, m: Mode)
    requires |r.allowed| == 10
    ensures m in OffsetModes(r) <==> Included(r, m) && m in {Di, Ix, Aw}
  {
  }

  lemma LastAre(r: Input, m: Mode)
    requires |r.allowed| == 10
    ensures m in LastModes(r) <==> Included(r, m) && m in {Al, Pcdi, Pcix, Imm}
  {
  }

  lemma ModesAre(r: Input, m: Mode)
    requires |r.allowed| == 10 && r.allowed != NO_MODES
    ensures m in Modes(r) <==> Included(r, m)
  {
    hide IndirectModes, OffsetModes, LastModes;
    IndirectAre(r, m);
    OffsetAre(r, m);
    LastAre(r, m);
  }

  ghost predicate Covered(rows: seq<Row>, op: u16) {
    exists k :: 0 <= k < |rows| && rows[k].Matches(op)
  }

  /** The variants of a row cover exactly the opcodes that match it and have an allowed effective
      address, and none of their patterns has a bit outside its mask. */
  lemma EaCovers(r: Input, op: u16)
    requires Proper(r) && r.mask % 0x40 == 0 && r.allowed != NO_MODES
    ensures Covered(EaRows(r), op) <==> BaseMatches(r, op) && Allows(r.allowed, ModeOf(op % 0x40))
    ensures AllSound(EaRows(r))
  {
    hide And, Modes, Allows, ModeOf, SetOpcode, MaskAdd, MatchAdd, Row.Sound, Row.Matches, BaseMatches;
    var modes, rows := Modes(r), EaRows(r);
    forall k | 0 <= k < |rows|
      ensures rows[k].Sound() && (rows[k].Matches(op) ==> BaseMatches(r, op) && Allows(r.allowed, ModeOf(op % 0x40)))
    {
      VariantSound(r, modes[k]);
      if rows[k].Matches(op) {
        VariantAllowed(r, modes[k], op);
      }
    }
    var m := ModeOf(op % 0x40);
    if BaseMatches(r, op) && Allows(r.allowed, m) {
      AllowedVariant(r, op);
      var k :| 0 <= k < |modes| && modes[k] == m;
      assert rows[k].Matches(op);
    }
  }

  lemma VariantAllowed(r: Input, m: Mode, op: u16)
    requires Proper(r) && r.mask % 0x40 == 0 && r.allowed != NO_MODES && m in Modes(r)
    requires SetOpcode(r, m).Matches(op)
    ensures BaseMatches(r, op) && Allows(r.allowed, ModeOf(op % 0x40))
  {
    hide And, Modes, SetOpcode, MaskAdd, MatchAdd, Row.Matches, BaseMatches;
    ModesAre(r, m);
    VariantMatches(r, m, op);
    ModeBits(m, op % 0x40);
  }

  lemma AllowedVariant(r: Input, op: u16)
    requires Proper(r) && r.mask % 0x40 == 0 && r.allowed != NO_MODES
    requires BaseMatches(r, op) && Allows(r.allowed, ModeOf(op % 0x40))
    ensures ModeOf(op % 0x40) in Modes(r) && SetOpcode(r, ModeOf(op % 0x40)).Matches(op)
  {
    hide And, Modes, SetOpcode, MaskAdd, MatchAdd, Row.Matches, BaseMatches, ModeOf;
    var m := ModeOf(op % 0x40);
    ModesAre(r, m);
    VariantMatches(r, m, op);
    ModeBits(m, op % 0x40);
  }

  /** A row without addressing modes stays as it is. */
  lemma PlainRow(r: Input, op: u16)
    requires Proper(r) && r.allowed == NO_MODES
    ensures Covered(EaRows(r), op) <==> BaseMatches(r, op)
    ensures AllSound(EaRows(r))
  {
    hide And, Or;
    OrZero(r.mask);
    OrZero(r.pattern);
    var row := SetOpcode(r, NoMode);
    assert EaRows(r) == [row];
    assert row.Matches(op) <==> BaseMatches(r, op);
    if BaseMatches(r, op) {
      assert EaRows(r)[0].Matches(op);
    }
  }

  // ---------------------------------------------------------------- A7

  lemma A7HasMoreBits(r: Input, m: Mode)
    requires Proper(r) && r.mask % 0x40 == 0 && (m == Pi || m == Pd)
    ensures Ones(SetOpcode(r, A7Mode(m)).mask) == Ones(SetOpcode(r, m).mask) + 3
  {
    hide Or, SetOpcode;
    Powers();
    VariantIs(r, m);
    VariantIs(r, A7Mode(m));
    OnesJoin(r.mask / 0x40, 0x38, 6);
    OnesJoin(r.mask / 0x40, 0x3f, 6);
    OnesJoin(7, 0, 3);
    OnesJoin(7, 7, 3);
    assert Ones(7) == 3;
  }

  /** In a sorted table the byte variant for (A7)+ or -(A7) comes after the general one, and the general
      one never handles an opcode that the A7 variant matches. */
  lemma A7Overrides(rows: seq<Row>, r: Input, m: Mode, i: nat, j: nat, op: u16) returns (w: nat)
    requires Proper(r) && r.mask % 0x40 == 0 && (m == Pi || m == Pd) && Sorted(rows)
    requires i < |rows| && rows[i] == SetOpcode(r, m)
    requires j < |rows| && rows[j] == SetOpcode(r, A7Mode(m)) && rows[j].Matches(op)
    ensures i < j <= w < |rows| && rows[w].Matches(op) && Winner(rows, op) == rows[w].handler
    ensures Ones(rows[w].mask) >= Ones(rows[i].mask) + 3
  {
    hide And, Or, SetOpcode, Row.Matches, Ones, Winner;
    A7HasMoreBits(r, m);
    w := MostSpecificWins(rows, op);
  }

  // ---------------------------------------------------------------- condition codes

  /** The row for one condition code, whose name has the condition in it. */
  function CcRow(r: Input, i: nat): (v: Input)
    requires i < 0x10
    ensures v.allowed == r.allowed && v.size == r.size
  {
    CcBelow(r, i);
    r.(mask := Or(r.mask, 0xf00), pattern := Or(And(r.pattern, 0xf0ff), i * 0x100), condition := i)
  }

  lemma CcBelow(r: Input, i: nat)
    requires i < 0x10
    ensures Or(r.mask, 0xf00) < 0x1_0000 && Or(And(r.pattern, 0xf0ff), i * 0x100) < 0x1_0000
  {
    hide And, Or;
    Powers();
    OrBelow(r.mask, 0xf00, 16);
    OrBelow(And(r.pattern, 0xf0ff), i * 0x100, 16);
  }

  /** The rows of all conditions from `i` on; T and F, 0 and 1, are left out. */
  function CcRows(r: Input, i: nat): seq<Row>
    requires |r.allowed| == 10 && i <= 0x10
    decreases 0x10 - i
  {
    if i == 0x10 then [] else EaRows(CcRow(r, i)) + CcRows(r, i + 1)
  }

  /** The four bits of the condition. */
  function Condition(op: nat): nat {
    op / 0x100 % 0x10
  }

  // An opcode as its high four bits, its condition and its low byte.
  function Join(h: nat, c: nat, l: nat): nat {
    h * 0x1000 + c * 0x100 + l
  }

  predicate Parts(h: nat, c: nat, l: nat) {
    h < 0x10 && c < 0x10 && l < 0x100
  }

  lemma AndParts(h: nat, c: nat, l: nat, h': nat, c': nat, l': nat)
    requires Parts(h, c, l) && Parts(h', c', l')
    ensures And(Join(h, c, l), Join(h', c', l')) == Join(And(h, h'), And(c, c'), And(l, l'))
  {
    hide And;
    Powers();
    var high: nat, high': nat := h * 0x10 + c, h' * 0x10 + c';
    assert Join(h, c, l) == high * 0x100 + l && Join(h', c', l') == high' * 0x100 + l';
    AndJoins(high, l, high', l', 8);
    AndJoins(h, c, h', c', 4);
  }

  lemma OrParts(h: nat, c: nat, l: nat, h': nat, c': nat, l': nat)
    requires Parts(h, c, l) && Parts(h', c', l')
    ensures Or(Join(h, c, l), Join(h', c', l')) == Join(Or(h, h'), Or(c, c'), Or(l, l'))
  {
    hide And, Or;
    Powers();
    var high: nat, high': nat := h * 0x10 + c, h' * 0x10 + c';
    assert Join(h, c, l) == high * 0x100 + l && Join(h', c', l') == high' * 0x100 + l';
    OrJoins(high, l, high', l', 8);
    OrJoins(h, c, h', c', 4);
  }

  lemma PartsOf(x: u16) returns (h: nat, c: nat, l: nat)
    ensures Parts(h, c, l) && x == Join(h, c, l) && c == Condition(x)
  {
    h, c, l := x / 0x1000, x / 0x100 % 0x10, x % 0x100;
    QuotientIs(x / 0x100, 0x10, h, c);
  }

  lemma SameParts(h: nat, c: nat, l: nat, h': nat, c': nat, l': nat)
    requires Parts(h, c, l) && Parts(h', c', l')
    ensures Join(h, c, l) == Join(h', c', l') <==> h == h' && c == c' && l == l'
  {
    QuotientIs(Join(h, c, l), 0x1000, h, c * 0x100 + l);
    QuotientIs(Join(h', c', l'), 0x1000, h', c' * 0x100 + l');
    QuotientIs(c * 0x100 + l, 0x100, c, l);
    QuotientIs(c' * 0x100 + l', 0x100, c', l');
  }

  lemma FourOnes(c: nat)
    requires c < 0x10
    ensures And(c, 0xf) == c && Or(c, 0xf) == 0xf
  {
    Powers();
    AndOnes(c, 4);
  }

  lemma ByteOnes(l: nat)
    requires l < 0x100
    ensures And(l, 0xff) == l
  {
    Powers();
    AndOnes(l, 8);
  }

  /** Mask and pattern of a variant, in parts. */
  lemma SetParts(r: Input, m: Mode, mh: nat, mc: nat, ml: nat, ph: nat, pc: nat, pl: nat)
    requires Parts(mh, mc, ml) && Parts(ph, pc, pl) && r.mask == Join(mh, mc, ml) && r.pattern == Join(ph, pc, pl)
    ensures SetOpcode(r, m).mask == Join(mh, mc, Or(ml, MaskAdd(m)))
    ensures SetOpcode(r, m).pattern == Join(ph, pc, Or(pl, MatchAdd(m)))
  {
    hide And, Or, MaskAdd, MatchAdd;
    OrParts(mh, mc, ml, 0, 0, MaskAdd(m));
    OrParts(ph, pc, pl, 0, 0, MatchAdd(m));
    OrZero(mh);
    OrZero(mc);
    OrZero(ph);
    OrZero(pc);
  }

  lemma CcParts(r: Input, i: nat, mh: nat, ml: nat, ph: nat, pl: nat)
    requires i < 0x10 && Parts(mh, 0, ml) && Parts(ph, 0, pl) && r.mask == Join(mh, 0, ml) && r.pattern == Join(ph, 0, pl)
    ensures CcRow(r, i).mask == Join(mh, 0xf, ml) && CcRow(r, i).pattern == Join(ph, i, pl)
  {
    hide And, Or;
    OrParts(mh, 0, ml, 0, 0xf, 0);
    AndParts(ph, 0, pl, 0xf, 0, 0xff);
    FourOnes(ph);
    ByteOnes(pl);
    AndNone(0, 0);
    OrParts(ph, 0, pl, 0, i, 0);
    OrZero(mh);
    OrZero(ml);
    OrZero(ph);
    OrZero(pl);
    OrZero(i);
    OrZero(0xf);
  }

  /** A variant for condition `i` matches the opcodes of that condition that the plain variant matches. */
  lemma CcVariant(r: Input, i: nat, m: Mode, op: u16)
    requires Proper(r) && Condition(r.mask) == 0 && i < 0x10
    ensures SetOpcode(CcRow(r, i), m).Matches(op) <==> Condition(op) == i && SetOpcode(r, m).Matches(op)
  {
    hide And, Or, MaskAdd, MatchAdd, SetOpcode, CcRow, Join, Condition;
    var mh, mc, ml := PartsOf(r.mask);
    var ph, pc, pl := PartsOf(r.pattern);
    var oh, oc, ol := PartsOf(op);
    AndParts(ph, pc, pl, mh, 0, ml);
    AndNone(pc, 0);
    SameParts(ph, pc, pl, And(ph, mh), 0, And(pl, ml));
    CcParts(r, i, mh, ml, ph, pl);
    SetParts(r, m, mh, 0, ml, ph, 0, pl);
    SetParts(CcRow(r, i), m, mh, 0xf, ml, ph, i, pl);
    var a, b := Or(ml, MaskAdd(m)), Or(pl, MatchAdd(m));
    Powers();
    OrBelow(ml, MaskAdd(m), 8);
    OrBelow(pl, MatchAdd(m), 8);
    AndParts(oh, oc, ol, mh, 0xf, a);
    AndParts(oh, oc, ol, mh, 0, a);
    FourOnes(oc);
    AndNone(oc, 0);
    SameParts(And(oh, mh), oc, And(ol, a), ph, i, b);
    SameParts(And(oh, mh), 0, And(ol, a), ph, 0, b);
  }

  /** The row for a condition has no pattern bit outside its mask either, and the same low bits. */
  lemma CcProper(r: Input, i: nat)
    requires Proper(r) && Condition(r.mask) == 0 && i < 0x10
    ensures Proper(CcRow(r, i)) && CcRow(r, i).mask % 0x40 == r.mask % 0x40
  {
    hide And, Or, CcRow, Condition;
    var mh, mc, ml := PartsOf(r.mask);
    var ph, pc, pl := PartsOf(r.pattern);
    AndParts(ph, pc, pl, mh, 0, ml);
    AndNone(pc, 0);
    SameParts(ph, pc, pl, And(ph, mh), 0, And(pl, ml));
    CcParts(r, i, mh, ml, ph, pl);
    AndParts(ph, i, pl, mh, 0xf, ml);
    FourOnes(i);
    LowBitsOf(mh, 0xf, ml);
    LowBitsOf(mh, 0, ml);
  }

  lemma LowBitsOf(h: nat, c: nat, l: nat)
    ensures Join(h, c, l) % 0x40 == l % 0x40
  {
    QuotientIs(Join(h, c, l), 0x40, h * 0x40 + c * 4 + l / 0x40, l % 0x40);
  }

  /** The condition variants of a row from `i` on cover exactly the opcodes its plain variants cover that
      have such a condition. */
  lemma {:induction false} CcCovers(r: Input, i: nat, op: u16)
    requires Proper(r) && Condition(r.mask) == 0 && i <= 0x10
    ensures Covered(CcRows(r, i), op) <==> Condition(op) >= i && Covered(EaRows(r), op)
    decreases 0x10 - i
  {
    hide And, Or, SetOpcode, CcRow, Condition, Row.Matches, Modes;
    ConditionBelow(op);
    if i < 0x10 {
      CcCovers(r, i + 1, op);
      CcOne(r, i, op);
      Either(EaRows(CcRow(r, i)), CcRows(r, i + 1), op);
    }
  }

  lemma ConditionBelow(op: nat)
    ensures Condition(op) < 0x10
  {
  }

  lemma Either(a: seq<Row>, b: seq<Row>, op: u16)
    ensures Covered(a + b, op) <==> Covered(a, op) || Covered(b, op)
  {
    hide Row.Matches;
    if Covered(a, op) {
      var k :| 0 <= k < |a| && a[k].Matches(op);
      assert (a + b)[k].Matches(op);
    }
    if Covered(b, op) {
      var k :| 0 <= k < |b| && b[k].Matches(op);
      assert (a + b)[|a| + k].Matches(op);
    }
  }

  lemma CcOne(r: Input, i: nat, op: u16)
    requires Proper(r) && Condition(r.mask) == 0 && i < 0x10
    ensures Covered(EaRows(CcRow(r, i)), op) <==> Condition(op) == i && Covered(EaRows(r), op)
  {
    hide And, Or, SetOpcode, Condition, Row.Matches, Modes;
    var modes := Modes(r);
    SameModes(r, i);
    hide CcRow;
    forall k | 0 <= k < |modes|
      ensures EaRows(CcRow(r, i))[k].Matches(op) <==> Condition(op) == i && EaRows(r)[k].Matches(op)
    {
      CcVariant(r, i, modes[k], op);
    }
  }

  lemma SameModes(r: Input, i: nat)
    requires |r.allowed| == 10 && i < 0x10
    ensures Modes(CcRow(r, i)) == Modes(r)
  {
    hide And, Or;
  }

  // ---------------------------------------------------------------- the output table

  lemma {:induction false} RowsJoin(r: Input, a: seq<Mode>, b: seq<Mode>)
    ensures RowsOf(r, a + b) == RowsOf(r, a) + RowsOf(r, b)
  {
  }

  lemma SamePattern(r: Input, i: nat)
    requires i < 0x10
    ensures And(CcRow(r, i).pattern, 0xf0ff) == And(r.pattern, 0xf0ff)
  {
    hide And, Or, Condition;
    var ph, pc, pl := PartsOf(r.pattern);
    assert 0xf0ff == Join(0xf, 0, 0xff) && i * 0x100 == Join(0, i, 0);
    AndParts(ph, pc, pl, 0xf, 0, 0xff);
    FourOnes(ph);
    ByteOnes(pl);
    AndNone(pc, 0);
    OrParts(ph, 0, pl, 0, i, 0);
    OrZero(ph);
    OrZero(i);
    OrZero(pl);
    AndParts(ph, i, pl, 0xf, 0, 0xff);
    AndNone(i, 0);
  }

  lemma CcNext(r: Input, i: nat, op: Input)
    requires |r.allowed| == 10 && i < 0x10 && Or(r.mask, 0xf00) < 0x1_0000
    requires op == r.(mask := Or(r.mask, 0xf00), pattern := op.pattern, condition := i)
    requires op.pattern == Or(And(r.pattern, 0xf0ff), i * 0x100)
    ensures op == CcRow(r, i) && CcRows(r, i) == EaRows(op) + CcRows(r, i + 1)
    ensures And(op.pattern, 0xf0ff) == And(r.pattern, 0xf0ff)
  {
    hide And, Or, EaRows;
    SamePattern(r, i);
  }

  lemma Regrouped(a: seq<Row>, b: seq<Row>, c: seq<Row>)
    ensures a + b + c == a + (b + c) && c + [] == c
  {
  }

  class OutputTable {
    var rows: seq<Row>

    constructor ()
      ensures rows == []
    {
      rows := [];
    }

    /** generate_opcode_handler, as far as the table is concerned. */
    method AddHandler(r: Input, m: Mode)
      modifies this
      ensures rows == old(rows) + [SetOpcode(r, m)]
    {
      rows := rows + [SetOpcode(r, m)];
    }

    /** A handler for a mode that the row may allow; `done` are the modes before it. */
    method HandlerIf(c: bool, r: Input, m: Mode, ghost before: seq<Row>, ghost done: seq<Mode>)
      requires rows == before + RowsOf(r, done)
      modifies this
      ensures rows == before + RowsOf(r, done + When(c, [m]))
    {
      RowsJoin(r, done, When(c, [m]));
      if c {
        AddHandler(r, m);
        assert RowsOf(r, [m]) == [SetOpcode(r, m)];
      }
    }

    /** generate_opcode_ea_variants. */
    method EaVariants(r: Input)
      requires |r.allowed| == 10
      modifies this
      ensures rows == old(rows) + EaRows(r)
    {
      hide SetOpcode, IndirectModes, OffsetModes, LastModes;
      if r.allowed == NO_MODES {
        AddHandler(r, NoMode);
        return;
      }
      assert RowsOf(r, []) == [];
      hide RowsOf;
      ghost var before := rows;
      IndirectVariants(r, before, []);
      assert [] + IndirectModes(r) == IndirectModes(r);
      OffsetVariants(r, before, IndirectModes(r));
      LastVariants(r, before, IndirectModes(r) + OffsetModes(r));
    }

    method PairIf(c: bool, r: Input, m: Mode, ghost before: seq<Row>, ghost done: seq<Mode>)
      requires (m == Pi || m == Pd) && rows == before + RowsOf(r, done)
      modifies this
      ensures rows == before + RowsOf(r, done + When(c, WithA7(r, m)))
    {
      hide SetOpcode, RowsOf;
      assert done + [] == done;
      if c {
        HandlerIf(true, r, m, before, done);
        HandlerIf(r.size == 8, r, A7Mode(m), before, done + [m]);
        assert done + [m] + When(r.size == 8, [A7Mode(m)]) == done + WithA7(r, m);
      }
    }

    method IndirectVariants(r: Input, ghost before: seq<Row>, ghost done: seq<Mode>)
      requires |r.allowed| == 10 && rows == before + RowsOf(r, done)
      modifies this
      ensures rows == before + RowsOf(r, done + IndirectModes(r))
    {
      hide SetOpcode, RowsOf, When, WithA7;
      ghost var a, b := When(r.allowed[0] == 'A', [Ai]), When(r.allowed[1] == '+', WithA7(r, Pi));
      HandlerIf(r.allowed[0] == 'A', r, Ai, before, done);
      PairIf(r.allowed[1] == '+', r, Pi, before, done + a);
      PairIf(r.allowed[2] == '-', r, Pd, before, done + a + b);
      assert done + a + b + When(r.allowed[2] == '-', WithA7(r, Pd)) == done + IndirectModes(r);
    }

    method OffsetVariants(r: Input, ghost before: seq<Row>, ghost done: seq<Mode>)
      requires |r.allowed| == 10 && rows == before + RowsOf(r, done)
      modifies this
      ensures rows == before + RowsOf(r, done + OffsetModes(r))
    {
      hide SetOpcode, RowsOf, When;
      ghost var a, b, c := When(r.allowed[3] == 'D', [Di]), When(r.allowed[4] == 'X', [Ix]), When(r.allowed[5] == 'W', [Aw]);
      HandlerIf(r.allowed[3] == 'D', r, Di, before, done);
      HandlerIf(r.allowed[4] == 'X', r, Ix, before, done + a);
      HandlerIf(r.allowed[5] == 'W', r, Aw, before, done + a + b);
      assert done + a + b + c == done + OffsetModes(r);
    }

    method LastVariants(r: Input, ghost before: seq<Row>, ghost done: seq<Mode>)
      requires |r.allowed| == 10 && rows == before + RowsOf(r, done)
      modifies this
      ensures rows == before + RowsOf(r, done + LastModes(r))
    {
      hide SetOpcode, RowsOf, When;
      ghost var a, b, c := When(r.allowed[6] == 'L', [Al]), When(r.allowed[7] == 'd', [Pcdi]), When(r.allowed[8] == 'x', [Pcix]);
      HandlerIf(r.allowed[6] == 'L', r, Al, before, done);
      HandlerIf(r.allowed[7] == 'd', r, Pcdi, before, done + a);
      HandlerIf(r.allowed[8] == 'x', r, Pcix, before, done + a + b);
      HandlerIf(r.allowed[9] == 'I', r, Imm, before, done + a + b + c);
      assert done + a + b + c + When(r.allowed[9] == 'I', [Imm]) == done + LastModes(r);
    }

    /** generate_opcode_cc_variants: the match value of one condition is made from that of the last. */
    method CcVariants(r: Input)
      requires |r.allowed| == 10
      modifies this
      ensures rows == old(rows) + CcRows(r, 2)
    {
      assert CcRows(r, 0x10) == [];
      hide SetOpcode, And, Or, EaRows, CcRow, CcRows;
      CcBelow(r, 0);
      var op := r.(mask := Or(r.mask, 0xf00));
      for i := 2 to 0x10
        invariant op == r.(mask := Or(r.mask, 0xf00), pattern := op.pattern, condition := op.condition)
        invariant And(op.pattern, 0xf0ff) == And(r.pattern, 0xf0ff)
        invariant rows + CcRows(r, i) == old(rows) + CcRows(r, 2)
      {
        CcBelow(r, i);
        op := op.(condition := i, pattern := Or(And(op.pattern, 0xf0ff), i * 0x100));
        CcNext(r, i, op);
        Regrouped(rows, EaRows(op), CcRows(r, i + 1));
        EaVariants(op);
      }
    }
  }
}
