/** Chains of ADDX, SUBX, ABCD and SBCD add and subtract numbers of any length. */
module ChainSums {
  import opened Words
  import opened AddressSpace
  import opened Chains

  /** `n` instructions `op -(Ay),-(Ax)` in a row. */
  function Chain(s: Machine, op: Op, ax: nat, ay: nat, n: nat): (t: Machine)
    requires |s.r| == 16 && AddressRegister(ax) && AddressRegister(ay)
    ensures |t.r| == 16
    decreases n
  {
    if n == 0 then s else Chain(Step(s, op, ax, ay), op, ax, ay, n - 1)
  }

  function LimbValue(op: Op, x: int): int {
    if op.Decimal() then Decimal(x) else x
  }

  /** The number of `n` limbs that ends at address `a`, most significant limb first. */
  function Value(op: Op, m: Space, a: int, n: nat): int
    requires Width(op.Size()) * n <= a < TWO_32
    decreases n
  {
    if n == 0 then 0
    else
      var b := a - Width(op.Size());
      LimbValue(op, Load(op.Size(), m, b)) + op.Base() * Value(op, m, b, n - 1)
  }

  /** Decimal operands consist of digits. */
  predicate Proper(op: Op, m: Space, a: int, n: nat)
    requires Width(op.Size()) * n <= a < TWO_32
  {
    op.Decimal() ==> forall i :: a - n <= i < a ==> Digits(m[i])
  }

  function Power(b: int, n: nat): int {
    if n == 0 then 1 else b * Power(b, n - 1)
  }

  /** Two different registers point behind operands that do not overlap. */
  predicate Operands(s: Machine, op: Op, ax: nat, ay: nat, n: nat) {
    && |s.r| == 16 && AddressRegister(ax) && AddressRegister(ay) && ax != ay
    && (op.Size() == Byte ==> ax != 15 && ay != 15)
    && var w := Width(op.Size()) * n;
      w <= s.r[ax] && w <= s.r[ay] && (s.r[ax] <= s.r[ay] - w || s.r[ay] <= s.r[ax] - w)
  }

  function X(s: Machine): (r: u32)
    ensures r < 2
  {
    Bit(s.x, 0x100)
  }

  // ---------------------------------------------------------------- one instruction

  lemma Stored(size: Size, m: Space, a: u32, v: u32)
    requires a + Width(size) <= TWO_32 && v < Modulus(size)
    ensures var n := Store(size, m, a, v);
      && Load(size, n, a) == v
      && forall i :: 0 <= i < TWO_32 && !(a <= i < a + Width(size)) ==> n[i] == m[i]
  {
    match size
    case Byte =>
    case Word => Stored16(m, a, v);
    case Long => Stored32(m, a, v);
  }

  lemma SameLoad(size: Size, m: Space, n: Space, a: u32)
    requires a + Width(size) <= TWO_32 && forall i :: a <= i < a + Width(size) ==> m[i] == n[i]
    ensures Load(size, m, a) == Load(size, n, a)
  {
    match size
    case Byte =>
    case Word => SameLoad16(m, n, a);
    case Long => SameLoad32(m, n, a);
  }

  /** The result and the carry of one instruction are the sum or difference of its operands. */
  lemma LimbIs(op: Op, src: u32, dst: u32, x: u32)
    requires src < Modulus(op.Size()) && dst < Modulus(op.Size()) && x < 2
    requires op.Decimal() ==> Digits(src) && Digits(dst)
    ensures var l := LimbOf(op, src, dst, x);
      && (op.Decimal() ==> Digits(l.res))
      && LimbValue(op, l.res) + op.Sign() * (op.Base() * Int(l.carry))
           == LimbValue(op, dst) + op.Sign() * (LimbValue(op, src) + x)
      && (LimbValue(op, l.res) == 0 <==> l.res == 0) && LimbValue(op, l.res) >= 0
  {
    hide AddLimb, SubLimb, AbcdLimb, SbcdLimb;
    match op
    case Addx(size) => AddLimbIs(size, src, dst, x);
    case Subx(size) => SubLimbIs(size, src, dst, x);
    case Abcd => AbcdLimbIs(src, dst, x);
    case Sbcd => SbcdLimbIs(src, dst, x);
  }

  /** The operands and the limb of the next instruction. */
  function Source(s: Machine, op: Op, ay: nat): (r: u32)
    requires |s.r| == 16 && AddressRegister(ay) && Width(op.Size()) <= s.r[ay]
    ensures r < Modulus(op.Size())
  {
    Load(op.Size(), s.mem, s.r[ay] - Width(op.Size()))
  }

  function Next(s: Machine, op: Op, ax: nat, ay: nat): Limb
    requires Operands(s, op, ax, ay, 1)
  {
    LimbOf(op, Source(s, op, ay), Source(s, op, ax), X(s))
  }

  lemma StepIs(s: Machine, op: Op, ax: nat, ay: nat)
    requires Operands(s, op, ax, ay, 1)
    ensures var t, l, w := Step(s, op, ax, ay), Next(s, op, ax, ay), Width(op.Size());
      && t.r == s.r[ay := s.r[ay] - w][ax := s.r[ax] - w]
      && t.mem == Store(op.Size(), s.mem, s.r[ax] - w, l.res)
      && X(t) == Int(l.carry) && t.c == t.x && (t.nz == 0 <==> s.nz == 0 && l.res == 0)
      && (t.v == if l.overflow then 0x80 else 0) && (t.n == if l.negative then 0x80 else 0)
  {
    hide LimbOf, Load, Store;
    BitIs(0, 1, 0, 0x100);
    BitIs(0, 0, 0, 0x100);
  }

  // ---------------------------------------------------------------- chains

  lemma {:induction false} ValueSame(op: Op, m: Space, m': Space, a: int, n: nat)
    requires Width(op.Size()) * n <= a < TWO_32
    requires forall i :: a - Width(op.Size()) * n <= i < a ==> m[i] == m'[i]
    ensures Value(op, m, a, n) == Value(op, m', a, n)
    decreases n
  {
    if n > 0 {
      var w := Width(op.Size());
      assert w * n == w * (n - 1) + w;
      SameLoad(op.Size(), m, m', a - w);
      ValueSame(op, m, m', a - w, n - 1);
    }
  }

  /** The operands of the rest of a chain, after its first instruction. */
  lemma RestOperands(s: Machine, op: Op, ax: nat, ay: nat, n: nat)
    requires n > 0 && Operands(s, op, ax, ay, n)
    ensures Operands(s, op, ax, ay, 1)
    ensures var w := Width(op.Size());
      w * n == w * (n - 1) + w && w * (n - 1) >= 0
      && Operands(s.(r := s.r[ay := s.r[ay] as int - w][ax := s.r[ax] as int - w]), op, ax, ay, n - 1)
  {
    var w := Width(op.Size());
    assert w * n == w * (n - 1) + w;
    assert w * (n - 1) >= 0;
  }

  /** The first instruction of a chain: registers, memory and what is left to do. */
  lemma FirstStep(s: Machine, op: Op, ax: nat, ay: nat, n: nat)
    requires n > 0 && Operands(s, op, ax, ay, n)
    requires Proper(op, s.mem, s.r[ax], n) && Proper(op, s.mem, s.r[ay], n)
    ensures Operands(s, op, ax, ay, 1)
    ensures var t, l, w := Step(s, op, ax, ay), Next(s, op, ax, ay), Width(op.Size());
      && Operands(t, op, ax, ay, n - 1)
      && t.r[ax] == s.r[ax] - w && t.r[ay] == s.r[ay] - w
      && (forall i :: 0 <= i < 16 && i != ax && i != ay ==> t.r[i] == s.r[i])
      && (forall i :: 0 <= i < TWO_32 && !(s.r[ax] - w <= i < s.r[ax]) ==> t.mem[i] == s.mem[i])
      && Load(op.Size(), t.mem, s.r[ax] - w) == l.res
      && X(t) == Int(l.carry) && (t.nz == 0 <==> s.nz == 0 && l.res == 0)
      && t.v == (if l.overflow then 0x80 else 0) && t.n == (if l.negative then 0x80 else 0)
  {
    hide LimbOf, Load, Store, Step;
    RestOperands(s, op, ax, ay, n);
    NextIs(s, op, ax, ay);
    StepIs(s, op, ax, ay);
    Stored(op.Size(), s.mem, s.r[ax] - Width(op.Size()), Next(s, op, ax, ay).res);
  }

  lemma NextIs(s: Machine, op: Op, ax: nat, ay: nat)
    requires Operands(s, op, ax, ay, 1)
    requires op.Decimal() ==> Digits(s.mem[s.r[ax] - 1]) && Digits(s.mem[s.r[ay] - 1])
    ensures var l := Next(s, op, ax, ay);
      && (op.Decimal() ==> Digits(l.res))
      && LimbValue(op, l.res) + op.Sign() * (op.Base() * Int(l.carry))
           == LimbValue(op, Source(s, op, ax)) + op.Sign() * (LimbValue(op, Source(s, op, ay)) + X(s))
      && (LimbValue(op, l.res) == 0 <==> l.res == 0) && LimbValue(op, l.res) >= 0
  {
    hide LimbOf, Digits, LimbValue;
    LimbIs(op, Source(s, op, ay), Source(s, op, ax), X(s));
  }

  /** A chain moves its two registers over the operands and writes only the destination. */
  lemma {:induction false} ChainFrame(s: Machine, op: Op, ax: nat, ay: nat, n: nat)
    requires Operands(s, op, ax, ay, n)
    requires Proper(op, s.mem, s.r[ax], n) && Proper(op, s.mem, s.r[ay], n)
    ensures var t, w := Chain(s, op, ax, ay, n), Width(op.Size()) * n;
      && t.r[ax] == s.r[ax] - w && t.r[ay] == s.r[ay] - w
      && (forall i :: 0 <= i < 16 && i != ax && i != ay ==> t.r[i] == s.r[i])
      && (forall i :: 0 <= i < TWO_32 && !(s.r[ax] - w <= i < s.r[ax]) ==> t.mem[i] == s.mem[i])
    decreases n
  {
    hide Load, Step;
    if n > 0 {
      var t := Step(s, op, ax, ay);
      RestOperands(s, op, ax, ay, n);
      FirstStep(s, op, ax, ay, n);
      RestProper(s, t, op, ax, ay, n);
      ChainFrame(t, op, ax, ay, n - 1);
    }
  }

  lemma RestProper(s: Machine, t: Machine, op: Op, ax: nat, ay: nat, n: nat)
    requires n > 0 && Operands(s, op, ax, ay, n) && Operands(t, op, ax, ay, n - 1)
    requires Proper(op, s.mem, s.r[ax], n) && Proper(op, s.mem, s.r[ay], n)
    requires var w := Width(op.Size());
      && t.r[ax] == s.r[ax] - w && t.r[ay] == s.r[ay] - w
      && (forall i :: 0 <= i < TWO_32 && !(s.r[ax] - w <= i < s.r[ax]) ==> t.mem[i] == s.mem[i])
    ensures Proper(op, t.mem, t.r[ax], n - 1) && Proper(op, t.mem, t.r[ay], n - 1)
    ensures Value(op, t.mem, t.r[ax], n - 1) == Value(op, s.mem, t.r[ax], n - 1)
    ensures Value(op, t.mem, t.r[ay], n - 1) == Value(op, s.mem, t.r[ay], n - 1)
  {
    hide Value, Digits;
    RestOperands(s, op, ax, ay, n);
    ValueSame(op, t.mem, s.mem, t.r[ax], n - 1);
    ValueSame(op, t.mem, s.mem, t.r[ay], n - 1);
  }

  /** Adding a low limb to the sum of the rest. */
  lemma Carried(base: int, sign: int, power: int, r: int, carry: int, d: int, s: int, x: int, r': int, c': int, d': int, s': int)
    requires sign == 1 || sign == -1
    requires r + sign * (base * carry) == d + sign * (s + x)
    requires r' + sign * (power * c') == d' + sign * (s' + carry)
    ensures r + base * r' + sign * ((base * power) * c') == d + base * d' + sign * (s + base * s' + x)
  {
    if sign == 1 {
      assert base * (r' + power * c') == base * (d' + s' + carry);
      assert base * (r' + power * c') == base * r' + (base * power) * c';
      assert base * (d' + s' + carry) == base * d' + base * s' + base * carry;
    } else {
      assert base * (r' - power * c') == base * (d' - s' - carry);
      assert base * (r' - power * c') == base * r' - (base * power) * c';
      assert base * (d' - s' - carry) == base * d' - base * s' - base * carry;
    }
  }

  /** The main result: the destination and the final X are the sum, or the difference, of the two
      numbers and the initial X. */
  lemma {:induction false} ChainAdds(s: Machine, op: Op, ax: nat, ay: nat, n: nat)
    requires Operands(s, op, ax, ay, n)
    requires Proper(op, s.mem, s.r[ax], n) && Proper(op, s.mem, s.r[ay], n)
    ensures var t := Chain(s, op, ax, ay, n);
      Value(op, t.mem, s.r[ax], n) + op.Sign() * (Power(op.Base(), n) * X(t))
        == Value(op, s.mem, s.r[ax], n) + op.Sign() * (Value(op, s.mem, s.r[ay], n) + X(s))
    decreases n
  {
    hide Load, Step, X, LimbValue, LimbOf, Next, Proper, Value;
    if n == 0 {
      NoLimbs(op, s.mem, s.r[ax]);
      NoLimbs(op, s.mem, s.r[ay]);
    } else {
      var w, s1, t := Width(op.Size()), Step(s, op, ax, ay), Chain(s, op, ax, ay, n);
      RestOperands(s, op, ax, ay, n);
      FirstStep(s, op, ax, ay, n);
      FirstIs(s, op, ax, ay, n);
      RestProper(s, s1, op, ax, ay, n);
      ChainAdds(s1, op, ax, ay, n - 1);
      ChainFrame(s1, op, ax, ay, n - 1);
      SameLoad(op.Size(), s1.mem, t.mem, s.r[ax] - w);
      LowLimb(op, t.mem, s.r[ax], n);
      LowLimb(op, s.mem, s.r[ax], n);
      LowLimb(op, s.mem, s.r[ay], n);
      Carried(op.Base(), op.Sign(), Power(op.Base(), n - 1), LimbValue(op, Next(s, op, ax, ay).res), X(s1),
              LimbValue(op, Source(s, op, ax)), LimbValue(op, Source(s, op, ay)), X(s),
              Value(op, t.mem, s1.r[ax], n - 1), X(t),
              Value(op, s.mem, s1.r[ax], n - 1), Value(op, s.mem, s1.r[ay], n - 1));
    }
  }

  lemma NoLimbs(op: Op, m: Space, a: u32)
    ensures Value(op, m, a, 0) == 0
  {
  }

  lemma LowLimb(op: Op, m: Space, a: u32, n: nat)
    requires n > 0 && Width(op.Size()) * n <= a
    ensures var b := a - Width(op.Size());
      && 0 <= Width(op.Size()) * (n - 1) <= b
      && Value(op, m, a, n) == LimbValue(op, Load(op.Size(), m, b)) + op.Base() * Value(op, m, b, n - 1)
  {
    assert Width(op.Size()) * n == Width(op.Size()) * (n - 1) + Width(op.Size());
  }

  lemma FirstIs(s: Machine, op: Op, ax: nat, ay: nat, n: nat)
    requires n > 0 && Operands(s, op, ax, ay, n) && Operands(s, op, ax, ay, 1)
    requires Proper(op, s.mem, s.r[ax], n) && Proper(op, s.mem, s.r[ay], n)
    ensures var l := Next(s, op, ax, ay);
      && LimbValue(op, l.res) + op.Sign() * (op.Base() * Int(l.carry))
           == LimbValue(op, Source(s, op, ax)) + op.Sign() * (LimbValue(op, Source(s, op, ay)) + X(s))
  {
    hide Next, Source, LimbValue, X, Digits;
    NextIs(s, op, ax, ay);
  }

  /** Every byte of a decimal result is two digits. */
  lemma {:induction false} ChainStaysProper(s: Machine, op: Op, ax: nat, ay: nat, n: nat)
    requires op.Decimal() && Operands(s, op, ax, ay, n)
    requires Proper(op, s.mem, s.r[ax], n) && Proper(op, s.mem, s.r[ay], n)
    ensures Proper(op, Chain(s, op, ax, ay, n).mem, s.r[ax], n)
    decreases n
  {
    hide Step, X, LimbValue, LimbOf, Digits, Proper, Next, Load;
    if n == 0 {
      NoDigits(op, s.mem, s.r[ax]);
    } else {
      var s1, t := Step(s, op, ax, ay), Chain(s, op, ax, ay, n);
      RestOperands(s, op, ax, ay, n);
      FirstStep(s, op, ax, ay, n);
      FirstIsDigits(s, op, ax, ay, n);
      RestProper(s, s1, op, ax, ay, n);
      ChainStaysProper(s1, op, ax, ay, n - 1);
      ChainFrame(s1, op, ax, ay, n - 1);
      SameLoad(op.Size(), s1.mem, t.mem, s.r[ax] - 1);
      MoreDigits(op, t.mem, s.r[ax], n);
    }
  }

  lemma NoDigits(op: Op, m: Space, a: u32)
    ensures Proper(op, m, a, 0)
  {
  }

  lemma MoreDigits(op: Op, m: Space, a: u32, n: nat)
    requires op.Decimal() && 0 < n <= a && Proper(op, m, a - 1, n - 1) && Digits(Load(op.Size(), m, a - 1))
    ensures Proper(op, m, a, n)
  {
  }

  lemma FirstIsDigits(s: Machine, op: Op, ax: nat, ay: nat, n: nat)
    requires op.Decimal() && n > 0 && Operands(s, op, ax, ay, n) && Operands(s, op, ax, ay, 1)
    requires Proper(op, s.mem, s.r[ax], n) && Proper(op, s.mem, s.r[ay], n)
    ensures Digits(Next(s, op, ax, ay).res)
  {
    hide Next, Source, LimbValue, X, Digits;
    NextIs(s, op, ax, ay);
  }

  lemma {:induction false} ValueNotNegative(op: Op, m: Space, a: int, n: nat)
    requires Width(op.Size()) * n <= a < TWO_32
    ensures Value(op, m, a, n) >= 0
    decreases n
  {
    if n > 0 {
      var b := a - Width(op.Size());
      assert Width(op.Size()) * n == Width(op.Size()) * (n - 1) + Width(op.Size());
      ValueNotNegative(op, m, b, n - 1);
      assert op.Base() * Value(op, m, b, n - 1) >= 0;
    }
  }

  /** Z is set at the end exactly when it was set at the start and the whole result is zero. */
  lemma {:induction false} ChainZero(s: Machine, op: Op, ax: nat, ay: nat, n: nat)
    requires Operands(s, op, ax, ay, n)
    requires Proper(op, s.mem, s.r[ax], n) && Proper(op, s.mem, s.r[ay], n)
    ensures var t := Chain(s, op, ax, ay, n);
      t.nz == 0 <==> s.nz == 0 && Value(op, t.mem, s.r[ax], n) == 0
    decreases n
  {
    hide Load, Step, X, LimbValue, LimbOf, Next;
    if n > 0 {
      var w, s1, t := Width(op.Size()), Step(s, op, ax, ay), Chain(s, op, ax, ay, n);
      RestOperands(s, op, ax, ay, n);
      FirstStep(s, op, ax, ay, n);
      NextIs(s, op, ax, ay);
      RestProper(s, s1, op, ax, ay, n);
      ChainZero(s1, op, ax, ay, n - 1);
      ChainFrame(s1, op, ax, ay, n - 1);
      SameLoad(op.Size(), s1.mem, t.mem, s.r[ax] - w);
      ValueNotNegative(op, t.mem, s1.r[ax], n - 1);
      ZeroSum(LimbValue(op, Next(s, op, ax, ay).res), op.Base(), Value(op, t.mem, s1.r[ax], n - 1));
    }
  }

  lemma ZeroSum(low: int, base: int, rest: int)
    requires low >= 0 && rest >= 0 && base > 0
    ensures low + base * rest == 0 <==> low == 0 && rest == 0
  {
    if rest > 0 {
      Scaled(rest, base);
    }
  }

  /** C and X are the same after a chain of at least one instruction. */
  lemma {:induction false} ChainCarry(s: Machine, op: Op, ax: nat, ay: nat, n: nat)
    requires n > 0 && Operands(s, op, ax, ay, n)
    ensures Chain(s, op, ax, ay, n).c == Chain(s, op, ax, ay, n).x
    decreases n
  {
    hide Load, Store, LimbOf;
    var s1 := Step(s, op, ax, ay);
    if n > 1 {
      RestOperands(s, op, ax, ay, n);
      assert s1.r == s.r[ay := s.r[ay] as int - Width(op.Size())][ax := s.r[ax] as int - Width(op.Size())];
      ChainCarry(s1, op, ax, ay, n - 1);
    }
  }

  /** N of one instruction is the sign of its result, which for a decimal one is that of its byte. */
  lemma LimbSign(op: Op, src: u32, dst: u32, x: u32)
    requires src < Modulus(op.Size()) && dst < Modulus(op.Size()) && x < 2
    ensures var l := LimbOf(op, src, dst, x); l.negative == (l.res >= Modulus(op.Size()) / 2)
  {
    hide AddCarry, SubCarry;
    match op
    case Addx(size) => AddLimbIs(size, src, dst, x);
    case Subx(size) => SubLimbIs(size, src, dst, x);
    case Abcd =>
      MsbIs(Byte, AbcdDigits(src % 0x10 + dst % 0x10 + x, src / 0x10, dst / 0x10).0);
    case Sbcd =>
      MsbIs(Byte, SbcdDigits(U32(dst as int % 0x10 - src as int % 0x10 - x), src / 0x10, dst / 0x10).0 % 0x100);
  }

  /** N at the end is the top bit of the whole result. */
  lemma {:induction false} ChainSign(s: Machine, op: Op, ax: nat, ay: nat, n: nat)
    requires n > 0 && Operands(s, op, ax, ay, n)
    requires Proper(op, s.mem, s.r[ax], n) && Proper(op, s.mem, s.r[ay], n)
    ensures var t, w := Chain(s, op, ax, ay, n), Width(op.Size());
      0 <= s.r[ax] - w * n && t.n == if Load(op.Size(), t.mem, s.r[ax] - w * n) >= Modulus(op.Size()) / 2 then 0x80 else 0
    decreases n
  {
    hide Load, Step, X, LimbOf, Proper;
    var s1 := Step(s, op, ax, ay);
    RestOperands(s, op, ax, ay, n);
    FirstStep(s, op, ax, ay, n);
    if n == 1 {
      LimbSign(op, Source(s, op, ay), Source(s, op, ax), X(s));
      assert Chain(s, op, ax, ay, 1) == s1;
    } else {
      RestProper(s, s1, op, ax, ay, n);
      ChainSign(s1, op, ax, ay, n - 1);
    }
  }

  // ---------------------------------------------------------------- numbers as bytes

  /** The low byte and the bytes above it. */
  lemma LowByte(m: Space, a: u32, n: nat)
    requires 0 < n <= a
    ensures Value(Addx(Byte), m, a, n) == m[a - 1] as int + 0x100 * Value(Addx(Byte), m, a - 1, n - 1)
  {
  }

  /** Whatever the size of the limbs, the number is that of the bytes in front of `a`, the highest first. */
  lemma {:induction false} NumberOfBytes(size: Size, m: Space, a: u32, n: nat)
    requires Width(size) * n <= a
    ensures Width(size) * n >= 0 && Value(Addx(size), m, a, n) == Value(Addx(Byte), m, a, Width(size) * n)
    decreases n
  {
    hide Value, Load16, Load32;
    var w := Width(size);
    if n == 0 {
      NoLimbs(Addx(size), m, a);
      NoLimbs(Addx(Byte), m, a);
    } else if size != Byte {
      assert w * n == w * (n - 1) + w && w * (n - 1) >= 0;
      NumberOfBytes(size, m, a - w, n - 1);
      LowLimb(Addx(size), m, a, n);
      if size == Word {
        TwoBytes(m, a, w * n);
      } else {
        FourBytes(m, a, w * n);
      }
    }
  }

  lemma TwoBytes(m: Space, a: u32, n: nat)
    requires 2 <= n <= a
    ensures Value(Addx(Byte), m, a, n) == Load16(m, a - 2) as int + 0x1_0000 * Value(Addx(Byte), m, a - 2, n - 2)
  {
    hide Value;
    LowByte(m, a, n);
    LowByte(m, a - 1, n - 1);
  }

  lemma FourBytes(m: Space, a: u32, n: nat)
    requires 4 <= n <= a
    ensures Value(Addx(Byte), m, a, n) == Load32(m, a - 4) as int + TWO_32 * Value(Addx(Byte), m, a - 4, n - 4)
  {
    hide Value, Load16;
    TwoBytes(m, a, n);
    TwoBytes(m, a - 2, n - 2);
  }

  // ---------------------------------------------------------------- signed overflow

  /** The number of `n` limbs in two's complement. */
  function SignedValue(op: Op, m: Space, a: int, n: nat): int
    requires n > 0 && Width(op.Size()) * n <= a < TWO_32
    decreases n
  {
    var b := a - Width(op.Size());
    var low := Load(op.Size(), m, b);
    if n == 1 then SignedLimb(op.Size(), low)
    else
      (assert Width(op.Size()) * n == Width(op.Size()) * (n - 1) + Width(op.Size());
       low + op.Base() * SignedValue(op, m, b, n - 1))
  }

  /** Half the range of `n` limbs. */
  function Half(op: Op, n: nat): int
    requires n > 0
  {
    if n == 1 then op.Base() / 2 else op.Base() * Half(op, n - 1)
  }

  lemma {:induction false} SignedSame(op: Op, m: Space, m': Space, a: int, n: nat)
    requires n > 0 && Width(op.Size()) * n <= a < TWO_32
    requires forall i :: a - Width(op.Size()) * n <= i < a ==> m[i] == m'[i]
    ensures SignedValue(op, m, a, n) == SignedValue(op, m', a, n)
    decreases n
  {
    var w := Width(op.Size());
    assert w * n == w * (n - 1) + w;
    assert w * (n - 1) >= 0;
    SameLoad(op.Size(), m, m', a - w);
    if n > 1 {
      SignedSame(op, m, m', a - w, n - 1);
    }
  }

  lemma LimbOverflow(op: Op, src: u32, dst: u32, x: u32)
    requires !op.Decimal() && src < Modulus(op.Size()) && dst < Modulus(op.Size()) && x < 2
    ensures LimbOf(op, src, dst, x).overflow
      == !InRange(op.Size(), SignedLimb(op.Size(), dst) + op.Sign() * (SignedLimb(op.Size(), src) + x))
  {
    hide AddLimb, SubLimb;
    match op
    case Addx(size) => AddLimbIs(size, src, dst, x);
    case Subx(size) => SubLimbIs(size, src, dst, x);
  }

  /** A number with a low limb is in range exactly when its upper part is. */
  lemma RangeOfParts(base: int, half: int, r: int, upper: int, total: int)
    requires 0 <= r < base && total == r + base * upper
    ensures -(base * half) <= total < base * half <==> -half <= upper < half
  {
    if upper >= half {
      Scaled(upper - half, base);
      assert (upper - half) * base == base * upper - base * half;
    } else if upper < -half {
      Scaled(upper + half, base);
      assert (upper + half) * base == base * upper + base * half;
    } else {
      Scaled(upper - half, base);
      assert (upper - half) * base == base * upper - base * half;
      Scaled(upper + half, base);
      assert (upper + half) * base == base * upper + base * half;
    }
  }

  lemma CarriedRange(base: int, sign: int, half: int, r: int, carry: int, d: int, s: int, x: int, d': int, s': int)
    requires sign == 1 || sign == -1
    requires 0 <= r < base && r + sign * (base * carry) == d + sign * (s + x)
    ensures -(base * half) <= d + base * d' + sign * (s + base * s' + x) < base * half
      <==> -half <= d' + sign * (s' + carry) < half
  {
    var upper := d' + sign * (s' + carry);
    assert base * upper == base * d' + sign * (base * s' + base * carry) by {
      if sign == 1 {
        assert base * (d' + s' + carry) == base * d' + base * s' + base * carry;
      } else {
        assert base * (d' - s' - carry) == base * d' - base * s' - base * carry;
      }
    }
    RangeOfParts(base, half, r, upper, d + base * d' + sign * (s + base * s' + x));
  }

  /** V is set at the end exactly when the signed sum, or difference, does not fit in `n` limbs. */
  lemma {:induction false} ChainOverflow(s: Machine, op: Op, ax: nat, ay: nat, n: nat)
    requires !op.Decimal() && n > 0 && Operands(s, op, ax, ay, n)
    ensures var t := Chain(s, op, ax, ay, n);
      var exact := SignedValue(op, s.mem, s.r[ax], n) + op.Sign() * (SignedValue(op, s.mem, s.r[ay], n) + X(s));
      t.v == if -Half(op, n) <= exact < Half(op, n) then 0 else 0x80
    decreases n
  {
    hide Load, Step, X, LimbOf, Next, SignedLimb, SignedValue, Value;
    if n == 1 {
      OneOverflow(s, op, ax, ay);
    } else {
      var s1 := Step(s, op, ax, ay);
      RestOperands(s, op, ax, ay, n);
      FirstStep(s, op, ax, ay, n);
      NextIs(s, op, ax, ay);
      SignedSame(op, s.mem, s1.mem, s1.r[ax], n - 1);
      SignedSame(op, s.mem, s1.mem, s1.r[ay], n - 1);
      ChainOverflow(s1, op, ax, ay, n - 1);
      LowSigned(op, s.mem, s.r[ax], n);
      LowSigned(op, s.mem, s.r[ay], n);
      CarriedRange(op.Base(), op.Sign(), Half(op, n - 1), Next(s, op, ax, ay).res, X(s1),
                   Source(s, op, ax), Source(s, op, ay), X(s),
                   SignedValue(op, s.mem, s1.r[ax], n - 1), SignedValue(op, s.mem, s1.r[ay], n - 1));
    }
  }

  lemma LowSigned(op: Op, m: Space, a: u32, n: nat)
    requires n > 1 && Width(op.Size()) * n <= a
    ensures var b := a - Width(op.Size());
      && 0 <= Width(op.Size()) * (n - 1) <= b
      && SignedValue(op, m, a, n) == Load(op.Size(), m, b) + op.Base() * SignedValue(op, m, b, n - 1)
  {
    assert Width(op.Size()) * n == Width(op.Size()) * (n - 1) + Width(op.Size());
  }

  lemma OneOverflow(s: Machine, op: Op, ax: nat, ay: nat)
    requires !op.Decimal() && Operands(s, op, ax, ay, 1)
    ensures var exact := SignedValue(op, s.mem, s.r[ax], 1) + op.Sign() * (SignedValue(op, s.mem, s.r[ay], 1) + X(s));
      Chain(s, op, ax, ay, 1).v == if -Half(op, 1) <= exact < Half(op, 1) then 0 else 0x80
  {
    hide Load, Step, X, LimbOf;
    FirstStep(s, op, ax, ay, 1);
    LimbOverflow(op, Source(s, op, ay), Source(s, op, ax), X(s));
    assert Chain(s, op, ax, ay, 1) == Step(s, op, ax, ay);
  }
}
