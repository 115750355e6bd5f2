/** ADDX, SUBX, ABCD and SBCD from memory to memory (mushashi/m68k_in.c), alone and in chains over
    numbers of any length. */
module Chains {
  import opened Words
  import opened AddressSpace

  datatype Size = Byte | Word | Long

  datatype Op = Addx(size: Size) | Subx(size: Size) | Abcd | Sbcd
  {
    function Size(): Size {
      if Addx? || Subx? then size else Byte
    }

    predicate Decimal() {
      Abcd? || Sbcd?
    }

    /** 1 for the additions, -1 for the subtractions. */
    function Sign(): int {
      if Addx? || Abcd? then 1 else -1
    }

    /** The base of the numbers a chain computes with. */
    function Base(): int {
      if Decimal() then 100 else Modulus(Size())
    }
  }

  function Width(size: Size): nat {
    match size case Byte => 1 case Word => 2 case Long => 4
  }

  function Modulus(size: Size): int {
    match size case Byte => 0x100 case Word => 0x1_0000 case Long => TWO_32
  }

  /** The registers D0-D7/A0-A7 and the flags; of `x` and `c` only bit 8 is kept, of `n` and `v` bit 7. */
  datatype Machine = Machine(r: seq<u32>, x: u32, n: u32, nz: u32, v: u32, c: u32, mem: Space)

  // ---------------------------------------------------------------- one limb

  /** The sign bit. Bitwise operations act on it as the logical ones. */
  predicate Msb(size: Size, x: int) {
    Bit(x, Modulus(size) / 2) == 1
  }

  /** What one instruction makes of its operands: the result, the new X and C, and N and V. */
  datatype Limb = Limb(res: u32, carry: bool, negative: bool, overflow: bool)

  /** CFLAG_8, CFLAG_16 and CFLAG_ADD_32 of an unmasked result. */
  predicate AddCarry(size: Size, src: u32, dst: u32, res: u32) {
    if size == Long then
      (Msb(Long, src) && Msb(Long, dst)) || (!Msb(Long, res) && (Msb(Long, src) || Msb(Long, dst)))
    else Bit(res, Modulus(size)) == 1
  }

  /** CFLAG_8, CFLAG_16 and CFLAG_SUB_32. */
  predicate SubCarry(size: Size, src: u32, dst: u32, res: u32) {
    if size == Long then
      (Msb(Long, src) && Msb(Long, res)) || (!Msb(Long, dst) && (Msb(Long, src) || Msb(Long, res)))
    else Bit(res, Modulus(size)) == 1
  }

  function AddLimb(size: Size, src: u32, dst: u32, x: u32): Limb {
    var res := U32(U32(src + dst) + x);
    Limb(res % Modulus(size), AddCarry(size, src, dst, res), Msb(size, res),
         Msb(size, src) != Msb(size, res) && Msb(size, dst) != Msb(size, res))
  }

  function SubLimb(size: Size, src: u32, dst: u32, x: u32): Limb {
    var res := U32(U32(dst - src) - x);
    Limb(res % Modulus(size), SubCarry(size, src, dst, res), Msb(size, res),
         Msb(size, src) != Msb(size, dst) && Msb(size, res) != Msb(size, dst))
  }

  /** The correction of a binary sum of digits; `sh` and `dh` are the high digits, `low` the sum of the
      low ones and X. */
  function AbcdDigits(low: u32, sh: u32, dh: u32): (u32, bool)
    requires low < 0x20 && sh < 0x10 && dh < 0x10
  {
    var sum := (if low > 9 then low + 6 else low) + sh * 0x10 + dh * 0x10;
    (U32(if sum > 0x99 then sum - 0xa0 else sum), sum > 0x99)
  }

  function AbcdLimb(src: u8, dst: u8, x: u32): Limb
    requires x < 2
  {
    var low := src % 0x10 + dst % 0x10 + x;
    var (res, carry) := AbcdDigits(low, src / 0x10, dst / 0x10);
    Limb(res % 0x100, carry, Msb(Byte, res), !Msb(Byte, low) && Msb(Byte, res))
  }

  /** The same for a difference; `low` has wrapped when it is negative. */
  function SbcdDigits(low: u32, sh: u32, dh: u32): (u32, bool)
    requires sh < 0x10 && dh < 0x10
  {
    var sum := SbcdSum(low, sh, dh);
    (U32(if sum > 0x99 then sum + 0xa0 else sum), sum > 0x99)
  }

  function SbcdLimb(src: u8, dst: u8, x: u32): Limb
    requires x < 2
  {
    var low := U32(dst as int % 0x10 - src as int % 0x10 - x);
    var (sum, carry) := SbcdDigits(low, src / 0x10, dst / 0x10);
    var res := sum % 0x100;
    Limb(res, carry, Msb(Byte, res), !Msb(Byte, low) && Msb(Byte, res))
  }

  function LimbOf(op: Op, src: u32, dst: u32, x: u32): (l: Limb)
    requires x < 2 && src < Modulus(op.Size()) && dst < Modulus(op.Size())
    ensures l.res < Modulus(op.Size())
  {
    match op
    case Addx(size) => AddLimb(size, src, dst, x)
    case Subx(size) => SubLimb(size, src, dst, x)
    case Abcd => AbcdLimb(src, dst, x)
    case Sbcd => SbcdLimb(src, dst, x)
  }

  // ---------------------------------------------------------------- one instruction

  function Load(size: Size, m: Space, a: u32): (r: u32)
    ensures r < Modulus(size)
  {
    match size case Byte => m[a] case Word => Load16(m, a) case Long => Load32(m, a)
  }

  function Store(size: Size, m: Space, a: u32, v: u32): Space
    requires v < Modulus(size)
  {
    match size case Byte => m[a := v] case Word => Store16(m, a, v) case Long => Store32(m, a, v)
  }

  /** One `op -(Ay),-(Ax)`, for registers other than A7 when the operands are bytes. */
  function Step(s: Machine, op: Op, ax: nat, ay: nat): (t: Machine)
    requires |s.r| == 16 && AddressRegister(ax) && AddressRegister(ay)
    ensures |t.r| == 16
  {
    var size := op.Size();
    var r1 := s.r[ay := U32(s.r[ay] as int - Width(size))];
    var src := Load(size, s.mem, r1[ay]);
    var r2 := r1[ax := U32(r1[ax] as int - Width(size))];
    var dst := Load(size, s.mem, r2[ax]);
    var l := LimbOf(op, src, dst, Bit(s.x, 0x100));
    Update(s, l, r2, Store(size, s.mem, r2[ax], l.res))
  }

  function Update(s: Machine, l: Limb, r: seq<u32>, mem: Space): Machine {
    Machine(r, if l.carry then 0x100 else 0, if l.negative then 0x80 else 0, if s.nz == 0 && l.res == 0 then 0 else 1,
            if l.overflow then 0x80 else 0, if l.carry then 0x100 else 0, mem)
  }

  // ---------------------------------------------------------------- what one limb means

  /** A limb as a signed number. */
  function SignedLimb(size: Size, x: int): int {
    if x < Modulus(size) / 2 then x else x - Modulus(size)
  }

  lemma BitIsHigh(x: int, h: int)
    requires h > 0
    ensures Bit(x, h) == 1 <==> x % (2 * h) >= h
  {
    var q, r := x / (2 * h), x % (2 * h);
    assert x == q * (2 * h) + r == (2 * q) * h + r;
    assert (2 * q + 1) * h == (2 * q) * h + h;
    QuotientIs(x, h, 2 * q + (if r >= h then 1 else 0), if r >= h then r - h else r);
  }

  lemma MsbIs(size: Size, x: int)
    ensures Msb(size, x) <==> x % Modulus(size) >= Modulus(size) / 2
    ensures 0 <= x < Modulus(size) ==> x % Modulus(size) == x
  {
    BitIsHigh(x, Modulus(size) / 2);
  }

  function Int(b: bool): int {
    if b then 1 else 0
  }

  /** `x` reduced by one modulus when that is needed. */
  function Reduced(x: int, m: int): int {
    if x >= m then x - m else if x < 0 then x + m else x
  }

  lemma AddRaw(size: Size, src: u32, dst: u32, x: u32)
    requires src < Modulus(size) && dst < Modulus(size) && x < 2
    ensures var res := U32(U32(src + dst) + x);
      && res % Modulus(size) == Reduced(src + dst + x, Modulus(size))
      && (AddCarry(size, src, dst, res) <==> src + dst + x >= Modulus(size))
  {
    var m, sum, res := Modulus(size), src + dst + x, U32(U32(src + dst) + x);
    if size == Long {
      MsbIs(Long, src);
      MsbIs(Long, dst);
      MsbIs(Long, res);
      hide Msb;
      SumWraps(src, dst, x);
    } else {
      assert res == sum;
      QuotientIs(sum, m, Int(sum >= m), Reduced(sum, m));
    }
  }

  lemma SumWraps(src: u32, dst: u32, x: u32)
    requires x < 2
    ensures U32(U32(src + dst) + x) == Reduced(src + dst + x, TWO_32)
  {
  }

  lemma SubRaw(size: Size, src: u32, dst: u32, x: u32)
    requires src < Modulus(size) && dst < Modulus(size) && x < 2
    ensures var res := U32(U32(dst - src) - x);
      && res % Modulus(size) == Reduced(dst - src - x, Modulus(size))
      && (SubCarry(size, src, dst, res) <==> dst - src - x < 0)
  {
    if size == Long {
      MsbIs(Long, src);
      MsbIs(Long, dst);
      MsbIs(Long, U32(U32(dst - src) - x));
      hide Msb;
    } else {
      ShortDifference(size, dst - src - x);
    }
    DifferenceWraps(src, dst, x);
  }

  lemma DifferenceWraps(src: u32, dst: u32, x: u32)
    requires x < 2
    ensures U32(U32(dst - src) - x) == Reduced(dst - src - x, TWO_32)
  {
  }

  lemma ShortDifference(size: Size, diff: int)
    requires size != Long && -Modulus(size) <= diff < Modulus(size)
    ensures var res := Reduced(diff, TWO_32);
      res % Modulus(size) == Reduced(diff, Modulus(size)) && (Bit(res, Modulus(size)) == 1 <==> diff < 0)
  {
    if size == Byte {
      QuotientIs(Reduced(diff, TWO_32), 0x100, if diff < 0 then 0xff_ffff else 0, Reduced(diff, 0x100));
    } else {
      QuotientIs(Reduced(diff, TWO_32), 0x1_0000, if diff < 0 then 0xffff else 0, Reduced(diff, 0x1_0000));
    }
  }

  predicate InRange(size: Size, x: int) {
    -(Modulus(size) / 2) <= x < Modulus(size) / 2
  }

  /** The result and carry are the sum, N its sign, and V says that the signed sum is out of range. */
  lemma AddLimbIs(size: Size, src: u32, dst: u32, x: u32)
    requires src < Modulus(size) && dst < Modulus(size) && x < 2
    ensures var l := AddLimb(size, src, dst, x);
      && l.res < Modulus(size) && l.res + Modulus(size) * Int(l.carry) == dst + src + x
      && l.negative == (l.res >= Modulus(size) / 2)
      && l.overflow == !InRange(size, SignedLimb(size, dst) + SignedLimb(size, src) + x)
  {
    hide Msb, AddCarry;
    AddRaw(size, src, dst, x);
    MsbIs(size, src);
    MsbIs(size, dst);
    MsbIs(size, U32(U32(src + dst) + x));
    assert Modulus(size) == 2 * (Modulus(size) / 2);
    hide Modulus, U32;
  }

  lemma SubLimbIs(size: Size, src: u32, dst: u32, x: u32)
    requires src < Modulus(size) && dst < Modulus(size) && x < 2
    ensures var l := SubLimb(size, src, dst, x);
      && l.res < Modulus(size) && l.res - Modulus(size) * Int(l.carry) == dst - src - x
      && l.negative == (l.res >= Modulus(size) / 2)
      && l.overflow == !InRange(size, SignedLimb(size, dst) - SignedLimb(size, src) - x)
  {
    hide Msb, SubCarry;
    SubRaw(size, src, dst, x);
    MsbIs(size, src);
    MsbIs(size, dst);
    MsbIs(size, U32(U32(dst - src) - x));
    assert Modulus(size) == 2 * (Modulus(size) / 2);
    hide Modulus, U32;
  }

  /** Two decimal digits. */
  predicate Digits(x: int) {
    0 <= x <= 0x99 && x % 0x10 <= 9
  }

  function Decimal(x: int): int {
    x / 0x10 * 10 + x % 0x10
  }

  /** Two digits put together. */
  lemma DigitsOf(high: int, low: int)
    requires 0 <= high <= 9 && 0 <= low <= 9
    ensures Digits(high * 0x10 + low) && Decimal(high * 0x10 + low) == high * 10 + low
    ensures (high * 0x10 + low) % 0x100 == high * 0x10 + low
  {
    QuotientIs(high * 0x10 + low, 0x10, high, low);
  }

  lemma AbcdDigitsAre(low: u32, sh: u32, dh: u32)
    requires low <= 19 && sh <= 9 && dh <= 9
    ensures var up := Int(low > 9);
      var high := sh + dh + up;
      AbcdDigits(low, sh, dh) == ((high - 10 * Int(high > 9)) * 0x10 + low - 10 * up, high > 9)
  {
  }

  lemma AbcdLimbIs(src: u8, dst: u8, x: u32)
    requires Digits(src) && Digits(dst) && x < 2
    ensures var l := AbcdLimb(src, dst, x);
      Digits(l.res) && Decimal(l.res) + 100 * Int(l.carry) == Decimal(dst) + Decimal(src) + x
  {
    hide Msb, AbcdDigits;
    var low := src % 0x10 + dst % 0x10 + x;
    var high := src / 0x10 + dst / 0x10 + Int(low > 9);
    AbcdDigitsAre(low, src / 0x10, dst / 0x10);
    DigitsOf(high - 10 * Int(high > 9), low - 10 * Int(low > 9));
  }

  /** The wrapping arithmetic before the final correction. */
  function SbcdSum(low: u32, sh: u32, dh: u32): u32
    requires sh < 0x10 && dh < 0x10
  {
    U32(U32(if low > 9 then low - 6 else low) + dh * 0x10 - sh * 0x10)
  }

  lemma SbcdSumIs(diff: int, sh: u32, dh: u32)
    requires -10 <= diff <= 9 && sh <= 9 && dh <= 9
    ensures SbcdSum(U32(diff), sh, dh) == U32((dh - sh) * 0x10 + diff - 6 * Int(diff < 0))
  {
  }

  lemma SbcdDigitsAre(diff: int, sh: u32, dh: u32)
    requires -10 <= diff <= 9 && sh <= 9 && dh <= 9
    ensures var down := Int(diff < 0);
      var high := dh - sh - down;
      && SbcdDigits(U32(diff), sh, dh).0 % 0x100 == (high + 10 * Int(high < 0)) * 0x10 + diff + 10 * down
      && SbcdDigits(U32(diff), sh, dh).1 == (high < 0)
  {
    hide SbcdSum, U32;
    SbcdSumIs(diff, sh, dh);
    CorrectionIs((dh - sh) * 0x10 + diff - 6 * Int(diff < 0));
  }

  lemma CorrectionIs(total: int)
    requires -0xa0 <= total <= 0x99
    ensures U32(total) > 0x99 <==> total < 0
    ensures U32(if U32(total) > 0x99 then U32(total) + 0xa0 else U32(total)) == if total < 0 then total + 0xa0 else total
  {
  }

  lemma SbcdLimbIs(src: u8, dst: u8, x: u32)
    requires Digits(src) && Digits(dst) && x < 2
    ensures var l := SbcdLimb(src, dst, x);
      Digits(l.res) && Decimal(l.res) - 100 * Int(l.carry) == Decimal(dst) - Decimal(src) - x
  {
    hide Msb, SbcdDigits;
    var diff: int := dst as int % 0x10 - src as int % 0x10 - x;
    var high: int := dst as int / 0x10 - src as int / 0x10 - Int(diff < 0);
    SbcdDigitsAre(diff, src / 0x10, dst / 0x10);
    DigitsOf(high + 10 * Int(high < 0), diff + 10 * Int(diff < 0));
  }
}
