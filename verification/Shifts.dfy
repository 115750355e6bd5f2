/** Shifts and rotates by a register count (mushashi/m68k_in.c): ASL, ASR, LSL, LSR, ROXL and ROXR of
    8, 16 and 32 bits against as many shifts by a single bit. */
module Shifts {
  import opened Words
  import opened Bits
  import Processor

  datatype Op = Asl | Asr | Lsl | Lsr | Roxl | Roxr

  /** The operand, X and C as 0 or 1, and V. `w` below is the number of bits of the operand. */
  datatype Cell = Cell(r: nat, x: nat, c: nat, v: bool)

  predicate Ok(s: Cell, w: nat) {
    s.r < Pow2(w) && s.x < 2 && s.c < 2 && w > 0
  }

  /** The sign bit. */
  function Sign(r: nat, w: nat): nat
    requires w > 0
  {
    if r >= Pow2(w - 1) then 1 else 0
  }

  // ---------------------------------------------------------------- one bit at a time

  function One(op: Op, s: Cell, w: nat): Cell
    requires Ok(s, w)
  {
    var top := Sign(s.r, w);
    var low := s.r % 2;
    var doubled := 2 * s.r % Pow2(w);
    match op
    case Asl => Cell(doubled, top, top, s.v || Sign(doubled, w) != top)
    case Lsl => Cell(doubled, top, top, false)
    case Asr => Cell(s.r / 2 + (if top == 1 then Pow2(w - 1) else 0), low, low, false)
    case Lsr => Cell(s.r / 2, low, low, false)
    case Roxl => Cell(doubled + s.x, top, top, false)
    case Roxr => Cell(s.r / 2 + (if s.x == 1 then Pow2(w - 1) else 0), low, low, false)
  }

  /** A count of 0 leaves X alone; it clears C, or makes it X when X is rotated. */
  function Start(op: Op, r: nat, x: nat): Cell {
    Cell(r, x, if op.Roxl? || op.Roxr? then x else 0, false)
  }

  lemma OneOk(op: Op, s: Cell, w: nat)
    requires Ok(s, w)
    ensures Ok(One(op, s, w), w)
  {
    var h := Pow2(w - 1);
    assert Pow2(w) == 2 * h;
    Doubled(s.r, h);
  }

  /** Doubling in a word of `2 * h` values. */
  lemma Doubled(r: nat, h: nat)
    requires r < 2 * h
    ensures 2 * r % (2 * h) == if r >= h then 2 * r - 2 * h else 2 * r
  {
    if r >= h {
      QuotientIs(2 * r, 2 * h, 1, 2 * r - 2 * h);
    } else {
      QuotientIs(2 * r, 2 * h, 0, 2 * r);
    }
  }

  function Many(op: Op, s: Cell, w: nat, k: nat): (t: Cell)
    requires Ok(s, w)
    ensures Ok(t, w)
  {
    if k == 0 then s
    else
      OneOk(op, Many(op, s, w, k - 1), w);
      One(op, Many(op, s, w, k - 1), w)
  }

  // ---------------------------------------------------------------- the handlers

  /** m68ki_shift_8_table and its like: `k` ones at the top. */
  function Table(w: nat, k: nat): nat {
    if k <= w then TableFits(w, k); Pow2(w) - Pow2(w - k) else Pow2(w) - 1
  }

  lemma TableFits(w: nat, k: nat)
    requires k <= w
    ensures Pow2(w - k) <= Pow2(w)
  {
    Grows(w - k, w);
  }

  function ShiftLeft(x: nat, k: nat): nat {
    assert x * Pow2(k) >= 0;
    x * Pow2(k)
  }

  function AslBy(r: nat, x: nat, w: nat, k: nat): Cell {
    if k == 0 then Cell(r, x, 0, false)
    else if k < w then
      var c := BitAt(r, w - k);
      var top := And(r, Table(w, k + 1));
      Cell(ShiftLeft(r, k) % Pow2(w), c, c, !(top == 0 || top == Table(w, k + 1)))
    else
      var c := if k == w then r % 2 else 0;
      Cell(0, c, c, r != 0)
  }

  function LslBy(r: nat, x: nat, w: nat, k: nat): Cell {
    if k == 0 then Cell(r, x, 0, false)
    else if k < w then Cell(ShiftLeft(r, k) % Pow2(w), BitAt(r, w - k), BitAt(r, w - k), false)
    else
      var c := if k == w then r % 2 else 0;
      Cell(0, c, c, false)
  }

  function AsrBy(r: nat, x: nat, w: nat, k: nat): Cell
    requires w > 0
  {
    if k == 0 then Cell(r, x, 0, false)
    else if k < w then
      var res := if Sign(r, w) == 1 then Or(ShiftRight(r, k), Table(w, k)) else ShiftRight(r, k);
      Cell(res, BitAt(r, k - 1), BitAt(r, k - 1), false)
    else if Sign(r, w) == 1 then Cell(Pow2(w) - 1, 1, 1, false)
    else Cell(0, 0, 0, false)
  }

  function LsrBy(r: nat, x: nat, w: nat, k: nat): Cell {
    if k == 0 then Cell(r, x, 0, false)
    else if k <= w then Cell(ShiftRight(r, k), BitAt(r, k - 1), BitAt(r, k - 1), false)
    else Cell(0, 0, 0, false)
  }

  /** ROL_9, ROL_17 and ROL_33_64: a rotation of `n` bits, with garbage above them. */
  function RolBits(y: nat, n: nat, k: nat): nat
    requires k <= n
  {
    Or(ShiftLeft(y, k), ShiftRight(y, n - k))
  }

  function RorBits(y: nat, n: nat, k: nat): nat
    requires k <= n
  {
    Or(ShiftRight(y, k), ShiftLeft(y, n - k))
  }

  function RoxBy(left: bool, r: nat, x: nat, w: nat, k: nat): Cell {
    if k == 0 then Cell(r, x, x, false)
    else
      var shift := k % (w + 1);
      var y := Or(r, ShiftLeft(x, w));
      var res := if left then RolBits(y, w + 1, shift) else RorBits(y, w + 1, shift);
      Cell(res % Pow2(w), BitAt(res, w), BitAt(res, w), false)
  }

  /** The handlers: result, X, C and V. N and Z are set from the result. */
  function By(op: Op, r: nat, x: nat, w: nat, k: nat): Cell
    requires w > 0
  {
    match op
    case Asl => AslBy(r, x, w, k)
    case Asr => AsrBy(r, x, w, k)
    case Lsl => LslBy(r, x, w, k)
    case Lsr => LsrBy(r, x, w, k)
    case Roxl => RoxBy(true, r, x, w, k)
    case Roxr => RoxBy(false, r, x, w, k)
  }

  // ---------------------------------------------------------------- powers

  /** The quotients of a number below Pow2(w). */
  lemma QuotientFits(q: nat, s: nat, i: nat, w: nat)
    requires i <= w && q * Pow2(i) + s < Pow2(w)
    ensures q < Pow2(w - i)
  {
    PowAdds(w - i, i);
    if q >= Pow2(w - i) {
      Scaled(q - Pow2(w - i), Pow2(i));
      assert (q - Pow2(w - i)) * Pow2(i) == q * Pow2(i) - Pow2(w - i) * Pow2(i);
    }
  }

  // ---------------------------------------------------------------- right shifts

  lemma NextRight(r: nat, k: nat)
    ensures ShiftRight(r, k + 1) == ShiftRight(r, k) / 2 && BitAt(r, k) == ShiftRight(r, k) % 2
  {
    BitTaken(r, Pow2(k));
  }

  lemma AllGone(r: nat, w: nat, k: nat)
    requires r < Pow2(w) && k >= w
    ensures ShiftRight(r, k) == 0 && (k > w ==> BitAt(r, k - 1) == 0)
  {
    Grows(w, k);
    QuotientIs(r, Pow2(k), 0, r);
    if k > w {
      Grows(w, k - 1);
      QuotientIs(r, Pow2(k - 1), 0, r);
    }
  }

  lemma {:induction false} LsrIs(r: nat, x: nat, w: nat, k: nat)
    requires r < Pow2(w) && x < 2 && w > 0
    ensures LsrBy(r, x, w, k) == Many(Lsr, Cell(r, x, 0, false), w, k)
  {
    hide ShiftRight, BitAt;
    if k > 0 {
      LsrIs(r, x, w, k - 1);
      NextRight(r, k - 1);
      ShiftByZero(r);
      if k > w {
        AllGone(r, w, k);
        AllGone(r, w, k - 1);
      }
    }
  }

  lemma ShiftByZero(r: nat)
    ensures ShiftRight(r, 0) == r && ShiftLeft(r, 0) == r
  {
  }

  /** The result of an arithmetic shift as a sum. */
  function AsrSum(r: nat, w: nat, k: nat): int
    requires 0 < w
  {
    ShiftRight(r, k) + if Sign(r, w) == 1 then Table(w, k) else 0
  }

  lemma RightFits(r: nat, w: nat, k: nat)
    requires r < Pow2(w) && k <= w
    ensures ShiftRight(r, k) < Pow2(w - k)
  {
    hide ShiftRight;
    var q, s := Cut(r, k);
    QuotientFits(q, s, k, w);
  }

  /** The table entries are the sign bits of a shifted negative number, apart from the number itself. */
  lemma OrSum(q: nat, w: nat, k: nat)
    requires k <= w && q < Pow2(w - k)
    ensures Or(q, Table(w, k)) == q + Table(w, k)
  {
    hide And, Or, Table;
    TableIs(w, k);
    AndJoins(0, q, Pow2(k) - 1, 0, w - k);
    AndNone(q, Pow2(k) - 1);
    OrIs(q, Table(w, k));
  }

  lemma OrIs(x: nat, y: nat)
    requires And(x, y) == 0
    ensures Or(x, y) == x + y
  {
  }

  lemma AsrStep(r: nat, w: nat, k: nat)
    requires r < Pow2(w) && k < w
    ensures var a := AsrSum(r, w, k);
      && 0 <= a < Pow2(w) && Sign(a, w) == Sign(r, w)
      && a % 2 == BitAt(r, k) && a / 2 + (if Sign(r, w) == 1 then Pow2(w - 1) else 0) == AsrSum(r, w, k + 1)
  {
    hide ShiftRight, BitAt;
    NextRight(r, k);
    RightFits(r, w, k);
    var h := Pow2(w - k - 1);
    assert Pow2(w - k) == 2 * h && Pow2(w) == 2 * Pow2(w - 1);
    Grows(w - k, w);
    if k > 0 {
      Grows(w - k, w - 1);
    } else {
      ShiftByZero(r);
    }
  }

  /** The result when only sign bits are left. */
  function AllSigns(r: nat, w: nat): nat
    requires w > 0
  {
    if Sign(r, w) == 1 then Pow2(w) - 1 else 0
  }

  lemma AsrEnd(r: nat, w: nat)
    requires r < Pow2(w) && w > 0
    ensures AsrSum(r, w, w) == AllSigns(r, w) && BitAt(r, w - 1) == Sign(r, w)
    ensures var a := AllSigns(r, w);
      && Sign(a, w) == Sign(r, w) && a % 2 == Sign(r, w)
      && a / 2 + (if Sign(r, w) == 1 then Pow2(w - 1) else 0) == a
  {
    AllGone(r, w, w);
    var h := Pow2(w - 1);
    assert Pow2(w) == 2 * h;
    if r >= h {
      QuotientIs(r, h, 1, r - h);
    } else {
      QuotientIs(r, h, 0, r);
    }
  }

  lemma {:induction false} AsrIs(r: nat, x: nat, w: nat, k: nat)
    requires r < Pow2(w) && x < 2 && w > 0
    ensures AsrBy(r, x, w, k) == Many(Asr, Cell(r, x, 0, false), w, k)
    ensures k <= w ==> AsrBy(r, x, w, k).r == AsrSum(r, w, k)
  {
    hide ShiftRight, BitAt, Or, Pow2;
    ShiftByZero(r);
    AsrEnd(r, w);
    if k == 0 {
      TableZero(w);
    } else {
      AsrIs(r, x, w, k - 1);
      if k <= w {
        AsrStep(r, w, k - 1);
        RightFits(r, w, k);
        OrSum(ShiftRight(r, k), w, k);
      }
    }
  }

  lemma TableZero(w: nat)
    ensures Table(w, 0) == 0
  {
  }

  // ---------------------------------------------------------------- left shifts

  /** What is left of a number after `k` shifts to the left. */
  function Left(r: nat, w: nat, k: nat): nat {
    ShiftLeft(r, k) % Pow2(w)
  }

  lemma DoubleModulo(y: nat, m: nat)
    requires m > 0
    ensures 2 * y % m == 2 * (y % m) % m
  {
    var q, t := y / m, y % m;
    assert y == q * m + t;
    if 2 * t < m {
      assert 2 * y == (2 * q) * m + 2 * t;
      QuotientIs(2 * y, m, 2 * q, 2 * t);
      QuotientIs(2 * t, m, 0, 2 * t);
    } else {
      assert (2 * q + 1) * m == (2 * q) * m + m;
      QuotientIs(2 * y, m, 2 * q + 1, 2 * t - m);
      QuotientIs(2 * t, m, 1, 2 * t - m);
    }
  }

  lemma NextLeft(r: nat, w: nat, k: nat)
    ensures Left(r, w, k + 1) == 2 * Left(r, w, k) % Pow2(w)
    ensures Left(r, w, k) < Pow2(w)
  {
    var y := ShiftLeft(r, k);
    assert ShiftLeft(r, k + 1) == 2 * y by {
      assert r * (2 * Pow2(k)) == 2 * (r * Pow2(k));
    }
    DoubleModulo(y, Pow2(w));
  }

  /** The sign after `k` shifts is bit `w - 1 - k` of the number. */
  lemma SignOfLeft(r: nat, w: nat, k: nat)
    requires r < Pow2(w) && k < w
    ensures Sign(Left(r, w, k), w) == BitAt(r, w - 1 - k)
  {
    var i := w - 1 - k;
    PowAdds(i, k);
    var n, p, h := Pow2(i), Pow2(k), Pow2(w - 1);
    assert h == n * p && Pow2(w) == 2 * h;
    var q, s := Cut(r, i);
    hide Pow2;
    LessTimes(s, n, p);
    ShiftedCut(q, s, n, p, h);
    SignOfSum(q / 2, q % 2, s * p, h);
  }

  /** A cut number after a shift to the left. */
  lemma ShiftedCut(q: nat, s: nat, n: nat, p: nat, h: nat)
    requires h == n * p
    ensures (q * n + s) * p == q / 2 * (2 * h) + q % 2 * h + s * p
  {
    var b, t := q % 2, q / 2;
    assert (q * n + s) * p == q * (n * p) + s * p;
    assert (2 * t + b) * h == t * (2 * h) + b * h;
  }

  lemma LessTimes(s: nat, n: nat, p: nat)
    requires s < n && p > 0
    ensures 0 <= s * p < n * p
  {
    Scaled(s, p);
    Scaled(n - s, p);
    assert (n - s) * p == n * p - s * p;
  }

  lemma SignOfSum(q: nat, b: nat, rest: nat, h: nat)
    requires b < 2 && rest < h
    ensures q * (2 * h) + b * h + rest >= 0
    ensures (q * (2 * h) + b * h + rest) % (2 * h) == b * h + rest
    ensures b * h + rest >= h <==> b == 1
  {
    assert q * (2 * h) >= 0;
    if b == 0 {
      assert b * h == 0;
    } else {
      assert b == 1 && b * h == h;
    }
    QuotientIs(q * (2 * h) + b * h + rest, 2 * h, q, b * h + rest);
  }

  /** Nothing is left after `w` shifts. */
  lemma LeftIsGone(r: nat, w: nat, k: nat)
    requires k >= w
    ensures Left(r, w, k) == 0
  {
    PowAdds(k - w, w);
    var y := r * Pow2(k - w);
    assert r * (Pow2(k - w) * Pow2(w)) == y * Pow2(w);
    QuotientIs(y * Pow2(w), Pow2(w), y, 0);
  }

  lemma LeftStart(r: nat, w: nat)
    requires r < Pow2(w)
    ensures Left(r, w, 0) == r
  {
    QuotientIs(r, Pow2(w), 0, r);
  }

  lemma LowestBit(r: nat)
    ensures BitAt(r, 0) == r % 2
  {
  }

  /** Result, X and C of both left shifts. */
  lemma {:induction false} LeftIs(op: Op, r: nat, x: nat, w: nat, k: nat)
    requires r < Pow2(w) && x < 2 && w > 0 && (op == Asl || op == Lsl)
    ensures var t := Many(op, Cell(r, x, 0, false), w, k);
      && t.r == Left(r, w, k)
      && (k == 0 ==> t.x == x && t.c == 0)
      && (k > 0 ==> t.x == t.c == if k <= w then BitAt(r, w - k) else 0)
  {
    hide Left, BitAt, Pow2;
    if k == 0 {
      LeftStart(r, w);
    } else {
      LeftIs(op, r, x, w, k - 1);
      NextLeft(r, w, k - 1);
      if k <= w {
        SignOfLeft(r, w, k - 1);
      } else {
        LeftIsGone(r, w, k - 1);
        NoSign(w);
      }
    }
  }

  lemma NoSign(w: nat)
    requires w > 0
    ensures Sign(0, w) == 0
  {
  }

  lemma LslIs(r: nat, x: nat, w: nat, k: nat)
    requires r < Pow2(w) && x < 2 && w > 0
    ensures LslBy(r, x, w, k) == Many(Lsl, Cell(r, x, 0, false), w, k)
  {
    hide BitAt, Pow2, ShiftLeft;
    LeftIs(Lsl, r, x, w, k);
    NeverV(r, x, w, k);
    LowestBit(r);
    if k >= w {
      LeftIsGone(r, w, k);
    }
  }

  lemma NeverV(r: nat, x: nat, w: nat, k: nat)
    requires r < Pow2(w) && x < 2 && w > 0
    ensures !Many(Lsl, Cell(r, x, 0, false), w, k).v
  {
  }

  // ---------------------------------------------------------------- V of ASL

  /** The top `k + 1` bits are all the same. */
  predicate Uniform(r: nat, w: nat, k: nat)
    requires k < w
  {
    var t := ShiftRight(r, w - 1 - k);
    t == 0 || t == Pow2(k + 1) - 1
  }

  /** The test of the handler, which masks the top bits with a table entry. */
  lemma TestIsUniform(r: nat, w: nat, k: nat)
    requires r < Pow2(w) && k < w
    ensures var top := And(r, Table(w, k + 1));
      top == 0 || top == Table(w, k + 1) <==> Uniform(r, w, k)
  {
    hide And, ShiftRight, Table;
    var i, j := w - 1 - k, k + 1;
    var q, s := Cut(r, i);
    QuotientFits(q, s, i, w);
    TableIs(w, j);
    AndTable(q, s, i, j);
    SameTimes(q, Pow2(j) - 1, Pow2(i));
  }

  lemma TableIs(w: nat, j: nat)
    requires j <= w
    ensures Table(w, j) == (Pow2(j) - 1) * Pow2(w - j)
  {
    PowAdds(j, w - j);
    var p: int, c: int := Pow2(w - j), Pow2(j);
    assert (c - 1) * p == c * p - p;
  }

  lemma AndTable(q: nat, s: nat, i: nat, j: nat)
    requires s < Pow2(i) && q < Pow2(j)
    ensures And(q * Pow2(i) + s, (Pow2(j) - 1) * Pow2(i) + 0) == q * Pow2(i)
  {
    hide And;
    AndJoins(q, s, Pow2(j) - 1, 0, i);
    AndOnes(q, j);
    AndNone(s, 0);
  }

  lemma SameTimes(a: nat, b: nat, p: nat)
    requires p > 0
    ensures a * p == b * p <==> a == b
    ensures a * p == 0 <==> a == 0
  {
    Scaled(a, p);
    Scaled(a - b, p);
    Scaled(b - a, p);
    assert (a - b) * p == a * p - b * p;
  }

  /** One more bit of the top. */
  lemma NextUniform(r: nat, w: nat, k: nat)
    requires r < Pow2(w) && 0 < k < w
    ensures Uniform(r, w, k) <==> Uniform(r, w, k - 1) && BitAt(r, w - 1 - k) == BitAt(r, w - k)
  {
    hide ShiftRight, BitAt;
    NextRight(r, w - 1 - k);
    NextRight(r, w - k);
    assert Pow2(k + 1) == 2 * Pow2(k) && Pow2(k) == 2 * Pow2(k - 1);
    hide Pow2;
    SameBits(ShiftRight(r, w - 1 - k), Pow2(k - 1));
  }

  lemma SameBits(y: nat, h: nat)
    requires h > 0
    ensures y == 0 || y == 4 * h - 1 <==> (y / 2 == 0 || y / 2 == 2 * h - 1) && y % 2 == y / 2 % 2
  {
    assert y == 2 * (y / 2) + y % 2;
    if y / 2 == 2 * h - 1 {
      QuotientIs(2 * h - 1, 2, h - 1, 1);
    }
    if y == 4 * h - 1 {
      QuotientIs(4 * h - 1, 2, 2 * h - 1, 1);
    }
  }

  lemma FirstUniform(r: nat, w: nat)
    requires r < Pow2(w) && w > 0
    ensures Uniform(r, w, 0)
  {
    hide ShiftRight;
    RightFits(r, w, w - 1);
  }

  /** All bits are the same when the number is zero or has only ones. */
  lemma LastUniform(r: nat, w: nat)
    requires r < Pow2(w) && w > 0
    ensures Uniform(r, w, w - 1) <==> r == 0 || r == Pow2(w) - 1
    ensures r == Pow2(w) - 1 ==> BitAt(r, 0) == 1
  {
    ShiftByZero(r);
  }

  lemma {:induction false} AslV(r: nat, x: nat, w: nat, k: nat)
    requires r < Pow2(w) && x < 2 && w > 0
    ensures Many(Asl, Cell(r, x, 0, false), w, k).v <==> if k < w then !Uniform(r, w, k) else r != 0
  {
    hide Left, BitAt, Pow2, Uniform;
    LeftIs(Asl, r, x, w, k);
    if k == 0 {
      FirstUniform(r, w);
    } else {
      AslV(r, x, w, k - 1);
      LeftIs(Asl, r, x, w, k - 1);
      NoSign(w);
      if k < w {
        SignOfLeft(r, w, k - 1);
        SignOfLeft(r, w, k);
        NextUniform(r, w, k);
      } else {
        LeftIsGone(r, w, k);
        if k == w {
          SignOfLeft(r, w, w - 1);
          LastUniform(r, w);
          ZeroBits(w);
        } else {
          LeftIsGone(r, w, k - 1);
        }
      }
    }
  }

  lemma ZeroBits(i: nat)
    ensures BitAt(0, 0) == 0
  {
  }

  lemma AslIs(r: nat, x: nat, w: nat, k: nat)
    requires r < Pow2(w) && x < 2 && w > 0
    ensures AslBy(r, x, w, k) == Many(Asl, Cell(r, x, 0, false), w, k)
  {
    hide BitAt, Pow2, ShiftLeft, Uniform, And, Table;
    LeftIs(Asl, r, x, w, k);
    AslV(r, x, w, k);
    LowestBit(r);
    if k >= w {
      LeftIsGone(r, w, k);
    } else if k > 0 {
      TestIsUniform(r, w, k);
    } else {
      FirstUniform(r, w);
    }
  }

  // ---------------------------------------------------------------- rotation through X

  /** The operand with X above it. */
  function Ring(r: nat, x: nat, w: nat): nat {
    r + if x == 1 then Pow2(w) else 0
  }

  /** A rotation of `n` bits to the left. */
  function Rotated(y: nat, n: nat, k: nat): nat
    requires k <= n
  {
    Left(y, n, k) + ShiftRight(y, n - k)
  }

  /** A number of `n` bits cut at bit `n - k`, rotated. */
  lemma RotatedParts(hi: nat, lo: nat, n: nat, k: nat)
    requires k <= n && lo < Pow2(n - k) && hi < Pow2(k)
    ensures hi * Pow2(n - k) >= 0 && Rotated(hi * Pow2(n - k) + lo, n, k) == lo * Pow2(k) + hi
    ensures lo * Pow2(k) + hi < Pow2(n)
  {
    PowAdds(n - k, k);
    assert hi * Pow2(n - k) >= 0;
    TurnedParts(hi, lo, Pow2(n - k), Pow2(k), Pow2(n));
  }

  lemma TurnedParts(hi: nat, lo: nat, a: nat, b: nat, c: nat)
    requires lo < a && hi < b && c == a * b
    ensures c > 0 && (hi * a + lo) * b % c == lo * b && (hi * a + lo) / a == hi && lo * b + hi < c
  {
    LessTimes(lo, a, b);
    JoinBelow(lo, hi, a, b);
    assert (hi * a + lo) * b == hi * (a * b) + lo * b;
    QuotientIs((hi * a + lo) * b, c, hi, lo * b);
    QuotientIs(hi * a + lo, a, hi, lo);
  }

  /** One left rotation of a ring of `2 * m` values. */
  function RolOne(y: nat, m: nat): nat
    requires m > 0 && y < 2 * m
  {
    if y >= m then 2 * y - 2 * m + 1 else 2 * y
  }

  function RorOne(y: nat, m: nat): nat
    requires m > 0 && y < 2 * m
  {
    y / 2 + if y % 2 == 1 then m else 0
  }

  lemma RorUndoesRol(y: nat, m: nat)
    requires m > 0 && y < 2 * m
    ensures RolOne(y, m) < 2 * m && RorOne(RolOne(y, m), m) == y
    ensures RorOne(y, m) < 2 * m && RolOne(RorOne(y, m), m) == y
  {
  }

  /** ROXL and ROXR by one bit rotate the ring. */
  lemma RoxlOne(s: Cell, w: nat)
    requires Ok(s, w)
    ensures Ring(s.r, s.x, w) < 2 * Pow2(w)
    ensures var t := One(Roxl, s, w); Ring(t.r, t.x, w) == RolOne(Ring(s.r, s.x, w), Pow2(w))
  {
    Doubled(s.r, Pow2(w - 1));
  }

  lemma RoxrOne(s: Cell, w: nat)
    requires Ok(s, w)
    ensures Ring(s.r, s.x, w) < 2 * Pow2(w)
    ensures var t := One(Roxr, s, w); Ring(t.r, t.x, w) == RorOne(Ring(s.r, s.x, w), Pow2(w))
  {
    assert Pow2(w) == 2 * Pow2(w - 1);
    HalfRing(s.r, s.x, Pow2(w - 1));
    hide Pow2;
  }

  lemma HalfRing(r: nat, x: nat, h: nat)
    requires x < 2
    ensures (r + x * (2 * h)) / 2 == r / 2 + x * h && (r + x * (2 * h)) % 2 == r % 2
  {
    QuotientIs(r + x * (2 * h), 2, r / 2 + x * h, r % 2);
  }

  /** Rotating by `k + 1` is rotating by `k` and by one more. */
  lemma NextRotated(y: nat, w: nat, k: nat)
    requires y < Pow2(w + 1) && k <= w
    ensures Rotated(y, w + 1, k) < Pow2(w + 1)
    ensures Rotated(y, w + 1, k + 1) == RolOne(Rotated(y, w + 1, k), Pow2(w))
  {
    hide Rotated, ShiftRight;
    var n, i := w + 1, w - k;
    var q, lo := Cut(y, i);
    QuotientFits(q, lo, i, n);
    PowAdds(i, k);
    var hi, b, a, c := q / 2, q % 2, Pow2(i), Pow2(k);
    assert Pow2(w) == a * c && Pow2(i + 1) == 2 * a && Pow2(k + 1) == 2 * c;
    hide Pow2;
    OneMoreUp(q, a, lo);
    RotatedParts(hi, b * a + lo, n, k);
    RotatedParts(q, lo, n, k + 1);
    RotateStep(hi, b, lo, a, c);
  }

  lemma OneMoreUp(q: nat, a: nat, lo: nat)
    requires lo < a
    ensures q * a + lo == q / 2 * (2 * a) + (q % 2 * a + lo) && 0 <= q % 2 * a + lo < 2 * a
  {
    var hi, b := q / 2, q % 2;
    assert (2 * hi + b) * a == hi * (2 * a) + b * a;
    if b == 0 {
      assert b * a == 0;
    } else {
      assert b == 1 && b * a == a;
    }
  }

  lemma RotateStep(hi: nat, b: nat, lo: nat, a: nat, c: nat)
    requires b < 2 && lo < a && hi < c
    ensures var z := (b * a + lo) * c + hi;
      0 <= z < 2 * (a * c) && RolOne(z, a * c) == lo * (2 * c) + (2 * hi + b)
  {
    LessTimes(lo, a, c);
    JoinBelow(lo, hi, a, c);
    assert lo * (2 * c) == 2 * (lo * c);
    if b == 0 {
      assert b * a + lo == lo;
    } else {
      assert b * a + lo == a + lo;
      assert (a + lo) * c == a * c + lo * c;
    }
  }

  lemma FullTurn(y: nat, n: nat)
    requires y < Pow2(n)
    ensures Rotated(y, n, 0) == y && Rotated(y, n, n) == y
  {
    LeftStart(y, n);
    AllGone(y, n, n);
    LeftIsGone(y, n, n);
    ShiftByZero(y);
  }

  /** Where `k` single rotations lead. */
  function Turned(y: nat, n: nat, left: bool, k: nat): nat
    requires n > 0
  {
    Rotated(y, n, if left then k % n else n - k % n)
  }

  lemma NextTurn(y: nat, w: nat, left: bool, k: nat)
    requires y < Pow2(w + 1)
    ensures Turned(y, w + 1, left, k) < Pow2(w + 1)
    ensures Turned(y, w + 1, left, k + 1)
      == if left then RolOne(Turned(y, w + 1, left, k), Pow2(w)) else RorOne(Turned(y, w + 1, left, k), Pow2(w))
  {
    hide Rotated, RolOne, RorOne;
    var n := w + 1;
    FullTurn(y, n);
    NextModulo(k, n);
    if left {
      NextRotated(y, w, k % n);
    } else {
      NextRotated(y, w, n - k % n - 1);
      RorUndoesRol(Rotated(y, n, n - k % n - 1), Pow2(w));
    }
  }

  lemma NextModulo(k: nat, n: nat)
    requires n > 0
    ensures (k + 1) % n == if k % n + 1 == n then 0 else k % n + 1
  {
    var q, r := k / n, k % n;
    if r + 1 == n {
      assert k + 1 == (q + 1) * n;
      QuotientIs(k + 1, n, q + 1, 0);
    } else {
      QuotientIs(k + 1, n, q, r + 1);
    }
  }

  lemma {:induction false} RoxTurns(left: bool, r: nat, x: nat, w: nat, k: nat)
    requires r < Pow2(w) && x < 2 && w > 0
    ensures var t := Many(if left then Roxl else Roxr, Cell(r, x, x, false), w, k);
      Ring(t.r, t.x, w) == Turned(Ring(r, x, w), w + 1, left, k) && t.c == t.x && !t.v
  {
    hide Pow2, Rotated, Ring;
    RingFits(r, x, w);
    if k == 0 {
      FullTurn(Ring(r, x, w), w + 1);
    } else {
      RoxTurns(left, r, x, w, k - 1);
      NextTurn(Ring(r, x, w), w, left, k - 1);
      var s := Many(if left then Roxl else Roxr, Cell(r, x, x, false), w, k - 1);
      if left {
        RoxlOne(s, w);
      } else {
        RoxrOne(s, w);
      }
    }
  }

  lemma RingFits(r: nat, x: nat, w: nat)
    requires r < Pow2(w) && x < 2
    ensures Ring(r, x, w) < Pow2(w + 1)
  {
  }

  /** The bits that the handler sees of a rotation with garbage above it. */
  lemma LowPart(a: nat, t: nat, w: nat)
    requires t < Pow2(w + 1)
    ensures a * Pow2(w + 1) >= 0
    ensures (a * Pow2(w + 1) + t) % Pow2(w) == t % Pow2(w) && BitAt(a * Pow2(w + 1) + t, w) == t / Pow2(w)
  {
    var m := Pow2(w);
    assert Pow2(w + 1) == 2 * m;
    var b, l := t / m, t % m;
    assert t == b * m + l;
    assert b == 0 || b == 1 by {
      QuotientBetween(t, m, if t < m then 0 else 1);
    }
    assert a * (2 * m) >= 0;
    assert (2 * a + b) * m == a * (2 * m) + b * m;
    QuotientIs(a * (2 * m) + t, m, 2 * a + b, l);
  }

  lemma OrLow(y: nat, hi: nat, k: nat)
    requires hi < Pow2(k)
    ensures Or(ShiftLeft(y, k), hi) == ShiftLeft(y, k) + hi == Or(hi, ShiftLeft(y, k))
  {
    hide And;
    AndJoins(y, 0, 0, hi, k);
    AndJoins(0, hi, y, 0, k);
    AndNone(y, hi);
    AndNone(hi, y);
    AndNone(0, 0);
  }

  /** Both rotation macros are rotations up to the bits above the ring. */
  lemma RolBitsIs(y: nat, n: nat, k: nat) returns (a: nat)
    requires y < Pow2(n) && k <= n
    ensures Rotated(y, n, k) < Pow2(n) && a * Pow2(n) >= 0
    ensures RolBits(y, n, k) == a * Pow2(n) + Rotated(y, n, k)
    ensures RorBits(y, n, n - k) == a * Pow2(n) + Rotated(y, n, k)
  {
    hide Or, Rotated, ShiftLeft, ShiftRight;
    var hi, lo := Cut(y, n - k);
    QuotientFits(hi, lo, n - k, n);
    RotatedParts(hi, lo, n, k);
    OrLow(y, hi, k);
    LeftParts(hi, lo, n, k);
    a := hi;
  }

  lemma LeftParts(hi: nat, lo: nat, n: nat, k: nat)
    requires k <= n
    ensures hi * Pow2(n - k) + lo >= 0 && hi * Pow2(n) >= 0
    ensures ShiftLeft(hi * Pow2(n - k) + lo, k) == hi * Pow2(n) + lo * Pow2(k)
  {
    PowAdds(n - k, k);
    TimesParts(hi, lo, Pow2(n - k), Pow2(k));
  }

  lemma TimesParts(hi: nat, lo: nat, a: nat, b: nat)
    ensures hi * a >= 0 && hi * (a * b) >= 0 && (hi * a + lo) * b == hi * (a * b) + lo * b
  {
  }

  /** The ring the handlers build with OR. */
  lemma RingIs(r: nat, x: nat, w: nat)
    requires r < Pow2(w) && x < 2
    ensures Or(r, ShiftLeft(x, w)) == Ring(r, x, w)
  {
    hide Or;
    OrLow(x, r, w);
  }

  lemma RingParts(r: nat, x: nat, w: nat)
    requires r < Pow2(w) && x < 2
    ensures Ring(r, x, w) % Pow2(w) == r && Ring(r, x, w) / Pow2(w) == x
  {
    QuotientIs(Ring(r, x, w), Pow2(w), x, r);
  }

  lemma RoxIs(left: bool, r: nat, x: nat, w: nat, k: nat)
    requires r < Pow2(w) && x < 2 && w > 0
    ensures RoxBy(left, r, x, w, k) == Many(if left then Roxl else Roxr, Cell(r, x, x, false), w, k)
  {
    hide Or, Ring, RolBits, RorBits, BitAt, Rotated, Pow2, ShiftLeft;
    if k > 0 {
      var y, n := Ring(r, x, w), w + 1;
      var t := Many(if left then Roxl else Roxr, Cell(r, x, x, false), w, k);
      var j := if left then k % n else n - k % n;
      RingFits(r, x, w);
      RingIs(r, x, w);
      RoxTurns(left, r, x, w, k);
      var a := RolBitsIs(y, n, j);
      LowPart(a, Rotated(y, n, j), w);
      RingParts(t.r, t.x, w);
    }
  }

  // ---------------------------------------------------------------- main results

  /** Every handler with a count of `k` does what `k` single shifts do to the operand, X, C and V. */
  lemma ByIsMany(op: Op, r: nat, x: nat, w: nat, k: nat)
    requires r < Pow2(w) && x < 2 && w > 0
    ensures By(op, r, x, w, k) == Many(op, Start(op, r, x), w, k)
  {
    hide AslBy, AsrBy, LslBy, LsrBy, RoxBy, Many;
    match op
    case Asl => AslIs(r, x, w, k);
    case Asr => AsrIs(r, x, w, k);
    case Lsl => LslIs(r, x, w, k);
    case Lsr => LsrIs(r, x, w, k);
    case Roxl => RoxIs(true, r, x, w, k);
    case Roxr => RoxIs(false, r, x, w, k);
  }

  lemma RotatedBack(y: nat, n: nat, k: nat)
    requires y < Pow2(n) && k <= n
    ensures Rotated(y, n, k) < Pow2(n) && Rotated(Rotated(y, n, k), n, n - k) == y
  {
    hide Rotated, Pow2;
    var hi, lo := Cut(y, n - k);
    QuotientFits(hi, lo, n - k, n);
    RotatedParts(hi, lo, n, k);
    RotatedParts(lo, hi, n, n - k);
  }

  /** ROXL by a count and ROXR by the same count, in either order, restore the operand and X. */
  lemma RotatingBack(left: bool, r: nat, x: nat, w: nat, k: nat)
    requires r < Pow2(w) && x < 2 && w > 0
    ensures var t := By(if left then Roxl else Roxr, r, x, w, k);
      && t.r < Pow2(w) && t.x < 2
      && var u := By(if left then Roxr else Roxl, t.r, t.x, w, k);
        u.r == r && u.x == x
  {
    hide RoxBy, Rotated, Ring, Many, Pow2;
    var y, n := Ring(r, x, w), w + 1;
    RingFits(r, x, w);
    RoxIs(left, r, x, w, k);
    RoxTurns(left, r, x, w, k);
    var t := By(if left then Roxl else Roxr, r, x, w, k);
    RoxIs(!left, t.r, t.x, w, k);
    RoxTurns(!left, t.r, t.x, w, k);
    var u := By(if left then Roxr else Roxl, t.r, t.x, w, k);
    RotatedBack(y, n, if left then k % n else n - k % n);
    RingParts(r, x, w);
    RingParts(u.r, u.x, w);
  }

  // ---------------------------------------------------------------- on the processor object

  predicate Size(w: nat) {
    w == 8 || w == 16 || w == 32
  }

  lemma SizePowers()
    ensures Pow2(8) == 0x100 && Pow2(16) == 0x1_0000 && Pow2(32) == TWO_32
  {
    assert Pow2(8) == 0x100;
    assert Pow2(16) == 0x100 * Pow2(8);
    assert Pow2(24) == 0x100 * Pow2(16);
    assert Pow2(32) == 0x100 * Pow2(24);
  }

  /** The register with its low `w` bits replaced. */
  function Replaced(register: u32, w: nat, low: nat): u32
    requires Size(w) && low < Pow2(w)
  {
    SizePowers();
    register - register % Pow2(w) + low
  }

  /** The new register has the given low bits and the old high bits. */
  lemma ReplacedIs(register: u32, w: nat, low: nat)
    requires Size(w) && low < Pow2(w)
    ensures var r := Replaced(register, w, low);
      r % Pow2(w) == low && r / Pow2(w) == register / Pow2(w)
  {
    hide Pow2;
    SizePowers();
    QuotientIs(register - register % Pow2(w) + low, Pow2(w), register / Pow2(w), low);
  }

  lemma ByFits(op: Op, r: nat, x: nat, w: nat, k: nat)
    requires r < Pow2(w) && x < 2 && w > 0
    ensures Ok(By(op, r, x, w, k), w)
  {
    hide By, Many;
    ByIsMany(op, r, x, w, k);
  }

  /** A shift of Dy by Dx: the result replaces the low bits of Dy, and all flags are set. */
  method ShiftRegister(cpu: Processor.Cpu, op: Op, w: nat, dx: nat, dy: nat)
    requires cpu.Shape() && Size(w) && dx < 8 && dy < 8
    modifies cpu, cpu.dar
    ensures old(cpu.dar[dy]) % Pow2(w) < Pow2(w)
    ensures var t := Many(op, Start(op, old(cpu.dar[dy]) % Pow2(w), old(Bit(cpu.x, 0x100))), w, old(cpu.dar[dx]) % 0x40);
      && cpu.dar[..] == old(cpu.dar[..])[dy := cpu.dar[dy]]
      && cpu.dar[dy] % Pow2(w) == t.r && cpu.dar[dy] / Pow2(w) == old(cpu.dar[dy]) / Pow2(w)
      && cpu.x == (if old(cpu.dar[dx]) % 0x40 == 0 then old(cpu.x) else t.x * 0x100)
      && cpu.c == t.c * 0x100 && (cpu.v == if t.v then 0x80 else 0)
      && cpu.n == Sign(t.r, w) * 0x80 && (cpu.notZ == 0 <==> t.r == 0)
    ensures cpu.View() == old(cpu.View()).(x := cpu.x, n := cpu.n, nz := cpu.notZ, v := cpu.v, c := cpu.c)
  {
    hide By, Many, Pow2;
    SizePowers();
    var k, src, x := cpu.dar[dx] % 0x40, cpu.dar[dy] % Pow2(w), Bit(cpu.x, 0x100);
    var t := By(op, src, x, w, k);
    ByIsMany(op, src, x, w, k);
    ByFits(op, src, x, w, k);
    ReplacedIs(cpu.dar[dy], w, t.r);
    cpu.dar[dy] := Replaced(cpu.dar[dy], w, t.r);
    if k != 0 {
      cpu.x := t.x * 0x100;
    }
    cpu.c := t.c * 0x100;
    cpu.v := if t.v then 0x80 else 0;
    cpu.n := Sign(t.r, w) * 0x80;
    cpu.notZ := if t.r == 0 then 0 else 1;
  }
}
