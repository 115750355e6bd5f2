/** MULS.L and MULU.L (mushashi/m68k_in.c, mull): the handler that multiplies 16-bit halves in 32-bit
    registers, and the one that uses a 64-bit product. */
module Multiplication {
  import opened Words
  import opened Division

  /** The product of two longs: a high and a low long. */
  datatype Product = Product(hi: u32, lo: u32)
  {
    function Value(): int {
      hi * TWO_32 + lo
    }
  }

  /** The low and the high half of the long product from the four products of halves, with every sum in
      a 32-bit register. */
  method Halves(src: u32, dst: u32) returns (p: Product)
    ensures p.Value() == src * dst
  {
    var src1, src2, dst1, dst2 := src % 0x1_0000, src / 0x1_0000, dst % 0x1_0000, dst / 0x1_0000;
    ProductBelow(src1, dst1, 0xffff);
    ProductBelow(src1, dst2, 0xffff);
    ProductBelow(src2, dst1, 0xffff);
    ProductBelow(src2, dst2, 0xffff);
    var r1, r2, r3, r4 := U32(src1 * dst1), U32(src1 * dst2), U32(src2 * dst1), U32(src2 * dst2);
    p := Combine(r1, r2, r3, r4);
    FourProducts(src, dst);
    CombineIs(r1, r2, r3, r4, src * dst);
  }

  lemma NonNegative(a: int, b: int)
    requires a >= 0 && b >= 0
    ensures a * b >= 0
  {
  }

  lemma ProductBelow(a: int, b: int, n: int)
    requires 0 <= a <= n && 0 <= b <= n
    ensures 0 <= a * b <= n * n
  {
    NonNegative(a, b);
    NonNegative(n - a, b);
    NonNegative(n, n - b);
    assert (n - a) * b == n * b - a * b;
    assert n * (n - b) == n * n - n * b;
  }

  lemma FourProducts(s: u32, d: u32)
    ensures var s1, s2, d1, d2 := s % 0x1_0000, s / 0x1_0000, d % 0x1_0000, d / 0x1_0000;
      s * d == s1 * d1 + (s1 * d2 + s2 * d1) * 0x1_0000 + (s2 * d2) * TWO_32
  {
    var s1, s2, d1, d2 := s % 0x1_0000, s / 0x1_0000, d % 0x1_0000, d / 0x1_0000;
    assert s * d == (s2 * 0x1_0000 + s1) * (d2 * 0x1_0000 + d1);
  }

  function Combine(r1: u32, r2: u32, r3: u32, r4: u32): Product {
    var lo := U32(U32(r1 + r2 % 0x1_0000 * 0x1_0000) + r3 % 0x1_0000 * 0x1_0000);
    var carry := (r1 / 0x1_0000 + r2 % 0x1_0000 + r3 % 0x1_0000) / 0x1_0000;
    Product(U32(U32(U32(r4 + r2 / 0x1_0000) + r3 / 0x1_0000) + carry), lo)
  }

  lemma CombineIs(r1: u32, r2: u32, r3: u32, r4: u32, total: int)
    requires total == r1 + (r2 + r3) * 0x1_0000 + r4 * TWO_32 && 0 <= total < TWO_32 * TWO_32
    ensures Combine(r1, r2, r3, r4).Value() == total
  {
    var low := r1 + r2 % 0x1_0000 * 0x1_0000 + r3 % 0x1_0000 * 0x1_0000;
    var middle := r1 / 0x1_0000 + r2 % 0x1_0000 + r3 % 0x1_0000;
    var lo, carry := middle % 0x1_0000 * 0x1_0000 + r1 % 0x1_0000, middle / 0x1_0000;
    QuotientIs(low, TWO_32, carry, lo);
    LowSum(r1, r2 % 0x1_0000, r3 % 0x1_0000);
    var hi := r4 + r2 / 0x1_0000 + r3 / 0x1_0000 + carry;
    assert hi * TWO_32 + lo == total;
    assert 0 <= hi < TWO_32;
  }

  lemma LowSum(a: u32, b: int, c: int)
    requires 0 <= b < 0x1_0000 && 0 <= c < 0x1_0000
    ensures U32(U32(a + b * 0x1_0000) + c * 0x1_0000) == (a + b * 0x1_0000 + c * 0x1_0000) % TWO_32
  {
  }

  // ---------------------------------------------------------------- the native handler

  /** FLAG_Z of a 64-bit result is `hi | lo`; only whether it is zero can be seen. */
  function NotZero(p: Product): u32 {
    if p.hi == 0 && p.lo == 0 then 0 else 1
  }

  /** The product as the extension word takes the operands. */
  function Exact(src: u32, dst: u32, signed: bool): int {
    if signed then S32(src) * S32(dst) else src * dst
  }

  /** A 64-bit product in two longs. */
  function InLongs(x: int): Product {
    Product(x % TWO_64 / TWO_32, x % TWO_64 % TWO_32)
  }

  function Fits(x: int, signed: bool): bool {
    if signed then -TWO_31 <= x < TWO_31 else x < TWO_32
  }

  /** The handler for hosts with 64-bit integers, as registers and flags. `w.quad` asks for a 64-bit
      result, in `w.dr` and `w.dq`. */
  function Native(d: Registers, src: u32, w: Extension): (Registers, Flags) {
    var x := Exact(src, d[w.dq], w.signed);
    var p := InLongs(x);
    if w.quad then
      (d[w.dr := p.hi][w.dq := p.lo], Flags(p.hi / 0x100_0000, NotZero(p), 0, 0))
    else
      (d[w.dq := p.lo], Flags(U32(x % TWO_64 / 0x100_0000), p.lo, if Fits(x, w.signed) then 0 else 0x80, 0))
  }

  lemma ExactRange(src: u32, dst: u32, signed: bool)
    ensures signed ==> -TWO_63 <= Exact(src, dst, signed) < TWO_63
    ensures !signed ==> 0 <= Exact(src, dst, signed) < TWO_64
  {
    if signed {
      var a: int, b: int := S32(src), S32(dst);
      ProductBelow(Abs(a), Abs(b), TWO_31);
      SignsMultiply(a, b);
    } else {
      ProductBelow(src, dst, TWO_32 - 1);
    }
  }

  lemma SignedLongs(x: int)
    requires -TWO_63 <= x < TWO_63
    ensures InLongs(x).Value() < TWO_64 && S64(InLongs(x).Value()) == x
    ensures InLongs(x) == Product(0, 0) <==> x == 0
  {
  }

  lemma UnsignedLongs(x: int)
    requires 0 <= x < TWO_64
    ensures InLongs(x).Value() == x
  {
  }

  lemma LowLong(x: int, signed: bool)
    requires Fits(x, signed) && (!signed ==> x >= 0)
    ensures (if signed then S32(InLongs(x).lo) else InLongs(x).lo) == x
  {
  }

  lemma LowIsModulo(x: int)
    ensures InLongs(x).lo == x % TWO_32
  {
    var y := x % TWO_64;
    QuotientIs(x, TWO_32, x / TWO_64 * TWO_32 + y / TWO_32, y % TWO_32);
  }

  /** What the sign bits of the flags show. */
  lemma SignsShown(x: int)
    requires -TWO_63 <= x < TWO_64
    ensures Bit(InLongs(x).hi / 0x100_0000, 0x80) == 1 <==> x < 0 || x >= TWO_63
    ensures Bit(U32(x % TWO_64 / 0x100_0000), 0x80) == 1 <==> x % TWO_32 >= TWO_31
  {
    TopBit(InLongs(x).hi);
    TopBit(InLongs(x).lo);
    LowIsModulo(x);
    LongSign(x);
    hide Bit;
  }

  /** The low long of the result is always that of the exact product. A 64-bit result is the exact
      product, with its sign, whether it is zero, and no overflow in the flags; a 32-bit result is the
      exact product unless V is set, and N and Z are those of its 32 bits. No other register changes. */
  lemma NativeIsExact(d: Registers, src: u32, w: Extension)
    ensures var x := Exact(src, d[w.dq], w.signed);
      var (e, f) := Native(d, src, w);
      && (w.quad && w.dr != w.dq && w.signed ==> Signed(e[w.dr], e[w.dq]) == x)
      && (w.quad && w.dr != w.dq && !w.signed ==> Product(e[w.dr], e[w.dq]).Value() == x)
      && (w.quad ==> (Bit(f.n, 0x80) == 1 <==> if w.signed then x < 0 else x >= TWO_63))
      && (w.quad ==> (f.z == 0 <==> x == 0) && f.v == 0)
      && (!w.quad ==> if Fits(x, w.signed) then f.v == 0 && (if w.signed then S32(e[w.dq]) else e[w.dq]) == x else f.v == 0x80)
      && (!w.quad ==> (Bit(f.n, 0x80) == 1 <==> x % TWO_32 >= TWO_31) && (f.z == 0 <==> x % TWO_32 == 0))
      && e[w.dq] as int == x % TWO_32 && f.c == 0
      && forall i :: 0 <= i < 8 && i != w.dq && !(w.quad && i == w.dr) ==> e[i] == d[i]
  {
    hide Exact, InLongs, Bit;
    var x := Exact(src, d[w.dq], w.signed);
    ExactRange(src, d[w.dq], w.signed);
    LowIsModulo(x);
    SignsShown(x);
    if w.signed {
      SignedLongs(x);
    } else {
      UnsignedLongs(x);
    }
    if Fits(x, w.signed) {
      LowLong(x, w.signed);
    }
  }

  function Signed(hi: u32, lo: u32): int {
    S64(hi * TWO_32 + lo)
  }

  // ---------------------------------------------------------------- the 32-bit handler

  function NegatedProduct(p: Product): Product {
    Product(U32(Negated(p.hi) - (if p.lo != 0 then 1 else 0)), Negated(p.lo))
  }

  lemma NegatedProductIs(p: Product)
    ensures NegatedProduct(p) == InLongs(-p.Value())
  {
    var n := NegatedProduct(p);
    if p.Value() == 0 {
      assert n == Product(0, 0);
    } else {
      assert n.Value() == TWO_64 - p.Value() by {
        if p.lo == 0 {
          assert n == Product(TWO_32 - p.hi, 0);
        } else {
          assert n == Product(TWO_32 - p.hi - 1, TWO_32 - p.lo);
        }
      }
      QuotientIs(-p.Value(), TWO_64, -1, n.Value());
      QuotientIs(n.Value(), TWO_32, n.hi, n.lo);
    }
  }

  lemma ProductIs(p: Product)
    ensures InLongs(p.Value()) == p
  {
  }

  /** The product of the magnitudes, negated when the signs differ, is the signed product. */
  lemma MagnitudesMultiply(src: u32, dst: u32)
    ensures Exact(src, dst, true) ==
      if (src >= 0x8000_0000) != (dst >= 0x8000_0000) then -(Magnitude(src) * Magnitude(dst)) else Magnitude(src) * Magnitude(dst)
  {
    hide Magnitude, S32, Abs;
    MagnitudeIs(src);
    MagnitudeIs(dst);
    SignsMultiply(S32(src), S32(dst));
  }

  lemma SignsMultiply(a: int, b: int)
    ensures a * b == if (a < 0) != (b < 0) then -(Abs(a) * Abs(b)) else Abs(a) * Abs(b)
  {
    assert (-a) * b == -(a * b) && a * (-b) == -(a * b) && (-a) * (-b) == a * b;
  }

  /** The product of the operands in two longs, by way of their magnitudes when they are signed. */
  method MultiplyLong(src: u32, dst: u32, signed: bool) returns (p: Product)
    ensures p == InLongs(Exact(src, dst, signed))
  {
    hide Magnitude, InLongs, NegatedProduct;
    var neg := (src >= 0x8000_0000) != (dst >= 0x8000_0000);
    if !signed {
      p := Halves(src, dst);
      ProductIs(p);
      return;
    }
    p := Halves(Magnitude(src), Magnitude(dst));
    ProductIs(p);
    MagnitudesMultiply(src, dst);
    if neg {
      NegatedProductIs(p);
      p := NegatedProduct(p);
    }
  }

  /** V of a 32-bit result, from both longs. */
  function LongOverflow(p: Product, signed: bool): u32 {
    var fits := if signed then (p.lo >= 0x8000_0000 && p.hi == 0xffff_ffff) || (p.lo < 0x8000_0000 && p.hi == 0)
                else p.hi == 0;
    if fits then 0 else 0x80
  }

  lemma LongOverflowIs(x: int, signed: bool)
    requires if signed then -TWO_63 <= x < TWO_63 else 0 <= x < TWO_64
    ensures LongOverflow(InLongs(x), signed) == if Fits(x, signed) then 0 else 0x80
  {
  }

  lemma BitOfLowByte(z: int)
    ensures Bit(z, 0x80) == Bit(z % 0x100, 0x80)
  {
    var h, l := z / 0x100, z % 0x100;
    QuotientIs(z, 0x80, h * 2 + l / 0x80, l % 0x80);
  }

  lemma LowByteOfLong(q: int)
    requires q >= 0
    ensures U32(q) % 0x100 == q % 0x100
  {
    var a, b := q / TWO_32, q % TWO_32;
    QuotientIs(q, 0x100, a * 0x100_0000 + b / 0x100, b % 0x100);
  }

  lemma LongSign(x: int)
    ensures Bit(U32(x % TWO_64 / 0x100_0000), 0x80) == Bit(InLongs(x).lo / 0x100_0000, 0x80)
  {
    var y := x % TWO_64;
    var hi, lo := y / TWO_32, y % TWO_32;
    QuotientIs(y, 0x100_0000, hi * 0x100 + lo / 0x100_0000, lo % 0x100_0000);
    QuotientIs(hi * 0x100 + lo / 0x100_0000, 0x100, hi, lo / 0x100_0000);
    LowByteOfLong(hi * 0x100 + lo / 0x100_0000);
    BitOfLowByte(U32(hi * 0x100 + lo / 0x100_0000));
  }

  /** The 32-bit handler leaves the registers and the flags of the 64-bit one, for all operands. */
  method Mull(d: array<u32>, src: u32, w: Extension) returns (g: Flags)
    requires d.Length == 8
    modifies d
    ensures d[..] == Native(old(d[..]), src, w).0
    ensures SameFlags(g, Native(old(d[..]), src, w).1)
  {
    hide Exact, InLongs, Bit, LongOverflow;
    ghost var x := Exact(src, d[w.dq], w.signed);
    ExactRange(src, d[w.dq], w.signed);
    LongSign(x);
    LongOverflowIs(x, w.signed);
    var p := MultiplyLong(src, d[w.dq], w.signed);
    if w.quad {
      d[w.dr] := p.hi;
      d[w.dq] := p.lo;
      g := Flags(p.hi / 0x100_0000, NotZero(p), 0, 0);
    } else {
      d[w.dq] := p.lo;
      g := Flags(p.lo / 0x100_0000, p.lo, LongOverflow(p, w.signed), 0);
    }
  }
}
