/** DIVS.L and DIVU.L (mushashi/m68k_in.c, divl): the handler that uses only 32-bit registers, and the
    one that uses the host's 64-bit division. */
module Division {
  import opened Words

  // ---------------------------------------------------------------- shift and subtract

  lemma TakeBit(x: u32, i: nat)
    ensures x / Pow2(i) == 2 * (x / Pow2(i + 1)) + BitAt(x, i)
  {
    BitTaken(x, Pow2(i));
  }

  lemma Pow2Of32()
    ensures Pow2(32) == TWO_32
  {
    assert Pow2(8) == 0x100;
    assert Pow2(16) == 0x100 * Pow2(8) == 0x1_0000;
    assert Pow2(24) == 0x100 * Pow2(16);
    assert Pow2(32) == 0x100 * Pow2(24);
  }

  lemma NextBits(x: u32, i: nat)
    ensures ShiftRight(x, i) == 2 * ShiftRight(x, i + 1) + BitAt(x, i) <= x
    ensures ShiftRight(x, i + 1) >= 0
  {
    QuotientBelow(x, Pow2(i));
    QuotientBelow(x, Pow2(i + 1));
    TakeBit(x, i);
  }

  /** The high long and the first bits of the low long, down to bit `i`. */
  function Prefix(hi: u32, lo: u32, i: nat): int
    requires i <= 32
  {
    hi * Pow2(32 - i) + lo / Pow2(i)
  }

  lemma NextPrefix(hi: u32, lo: u32, i: nat)
    requires i < 32
    ensures Prefix(hi, lo, i) == 2 * Prefix(hi, lo, i + 1) + BitAt(lo, i)
  {
    TakeBit(lo, i);
    assert Pow2(32 - i) == 2 * Pow2(32 - (i + 1));
    assert hi * (2 * Pow2(32 - (i + 1))) == 2 * (hi * Pow2(32 - (i + 1)));
  }

  lemma Prefixes(hi: u32, lo: u32)
    ensures Prefix(hi, lo, 32) == hi && Prefix(hi, lo, 0) == hi * TWO_32 + lo
  {
    Pow2Of32();
  }

  /** One turn on the mathematical values: from the quotient and remainder so far to those with one more
      bit of the dividend. */
  lemma Turn(q: nat, r: nat, d: nat, bit: nat, n: nat)
    requires q * d + r == n && r < d && bit < 2
    ensures 2 * r + bit < d ==> (2 * q) * d + (2 * r + bit) == 2 * n + bit
    ensures 2 * r + bit >= d ==> (2 * q + 1) * d + (2 * r + bit - d) == 2 * n + bit && 2 * r + bit - d < d
  {
    assert (2 * q) * d == 2 * (q * d);
    assert (2 * q + 1) * d == 2 * (q * d) + d;
  }

  /** The body of the second loop: the bit shifted out of the remainder decides with the comparison. */
  method Step(q: u32, r: u32, divisor: u32, bit: u32) returns (q': u32, r': u32)
    requires q < 0x8000_0000 && r < divisor && bit < 2
    ensures 2 * r + bit < divisor ==> q' == 2 * q && r' == 2 * r + bit
    ensures 2 * r + bit >= divisor ==> q' == 2 * q + 1 && r' == 2 * r + bit - divisor
  {
    q' := U32(q * 2);
    var overflow := r >= 0x8000_0000;
    r' := U32(U32(r * 2) + bit);
    if r' >= divisor || overflow {
      r' := U32(r' - divisor);
      q' := U32(q' + 1);
    }
  }

  method NextBit(q: u32, r: u32, divisor: u32, bit: u32, ghost n: int) returns (q': u32, r': u32)
    requires q < 0x8000_0000 && r < divisor && bit < 2 && q * divisor + r == n
    ensures q' * divisor + r' == 2 * n + bit && r' < divisor && q' <= 2 * q + 1
  {
    Turn(q, r, divisor, bit, n);
    q', r' := Step(q, r, divisor, bit);
  }

  /** The first loop divides the high long, which is less than the divisor. */
  method DivideHigh(hi: u32, divisor: u32) returns (quotient: u32, remainder: u32)
    requires hi < divisor
    ensures quotient == 0 && remainder == hi
  {
    Pow2Of32();
    quotient, remainder := 0, 0;
    var i := 31;
    while i >= 0
      invariant -1 <= i <= 31
      invariant quotient == 0 && remainder == ShiftRight(hi, i + 1)
    {
      hide BitAt, ShiftRight;
      NextBits(hi, i);
      quotient := U32(quotient * 2);
      remainder := U32(U32(remainder * 2) + BitAt(hi, i));
      if remainder >= divisor {
        remainder := U32(remainder - divisor);
        quotient := U32(quotient + 1);
      }
      i := i - 1;
    }
  }

  lemma Pow2Steps(i: nat)
    requires i < 32
    ensures Pow2(32 - i) == 2 * Pow2(31 - i) && Pow2(32 - i) <= TWO_32
  {
    Pow2Of32();
    Grows(32 - i, 32);
  }

  /** The two loops, in wrapping 32-bit registers with one overflow bit. */
  method ShiftSubtract(hi: u32, lo: u32, divisor: u32) returns (quotient: u32, remainder: u32)
    requires hi < divisor
    ensures quotient * divisor + remainder == hi * TWO_32 + lo && remainder < divisor
  {
    Prefixes(hi, lo);
    quotient, remainder := DivideHigh(hi, divisor);
    var i := 31;
    while i >= 0
      invariant -1 <= i <= 31
      invariant quotient < Pow2(31 - i) && remainder < divisor
      invariant quotient * divisor + remainder == Prefix(hi, lo, i + 1)
    {
      hide BitAt, Prefix, Pow2;
      NextPrefix(hi, lo, i);
      Pow2Steps(i);
      quotient, remainder := NextBit(quotient, remainder, divisor, BitAt(lo, i), Prefix(hi, lo, i + 1));
      i := i - 1;
    }
  }

  // ---------------------------------------------------------------- operands and results

  const TWO_63: int := 0x8000_0000_0000_0000
  const TWO_64: int := 0x1_0000_0000_0000_0000

  /** The data registers. */
  type Registers = d: seq<u32> | |d| == 8 witness [0, 0, 0, 0, 0, 0, 0, 0]

  /** The raw flag fields; only bit 7 of `n` and `v`, bit 8 of `c` and whether `z` is zero can be seen. */
  datatype Flags = Flags(n: u32, z: u32, v: u32, c: u32)

  predicate SameFlags(f: Flags, g: Flags) {
    Bit(f.n, 0x80) == Bit(g.n, 0x80) && (f.z == 0) == (g.z == 0) && Bit(f.v, 0x80) == Bit(g.v, 0x80) && Bit(f.c, 0x100) == Bit(g.c, 0x100)
  }

  type RegisterNumber = n: int | 0 <= n < 8

  /** The extension word: 64-bit dividend (bit 10), signed (bit 11), and the two registers. */
  datatype Extension = Extension(quad: bool, signed: bool, dr: RegisterNumber, dq: RegisterNumber)

  datatype Outcome = ZeroDivide | Divided(d: Registers, f: Flags)

  predicate SameOutcome(a: Outcome, b: Outcome) {
    match (a, b)
    case (ZeroDivide, ZeroDivide) => true
    case (Divided(d, f), Divided(e, g)) => d == e && SameFlags(f, g)
    case _ => false
  }

  /** Overflow sets V and leaves everything else. */
  function Overflow(d: Registers, f: Flags): Outcome {
    Divided(d, f.(v := 0x80))
  }

  /** The remainder is written first, so that the quotient wins when both registers are the same. */
  function Write(d: Registers, w: Extension, quotient: u32, remainder: u32): Registers {
    d[w.dr := remainder][w.dq := quotient]
  }

  // ---------------------------------------------------------------- the native handler

  function Abs(a: int): nat {
    if a < 0 then -a else a
  }

  /** Division of C, which truncates. */
  function TruncDiv(a: int, b: int): int
    requires b != 0
  {
    if (a < 0) == (b < 0) then Abs(a) / Abs(b) else -(Abs(a) / Abs(b))
  }

  function TruncMod(a: int, b: int): int
    requires b != 0
  {
    if a < 0 then -(Abs(a) % Abs(b)) else Abs(a) % Abs(b)
  }

  function S64(x: int): int
    requires 0 <= x < TWO_64
  {
    if x < TWO_63 then x else x - TWO_64
  }

  /** The result registers and flags from a 64-bit quotient and remainder. */
  function NativeResult(d: Registers, w: Extension, quotient: int, remainder: int): Outcome {
    Divided(Write(d, w, U32(quotient), U32(remainder)), Flags(U32(quotient / 0x100_0000), U32(quotient), 0, 0))
  }

  /** What a 64-bit dividend is, as the extension word takes it. */
  function Dividend(d: Registers, w: Extension): int {
    var x := d[w.dr] as int * TWO_32 + d[w.dq] as int;
    if w.signed then S64(x) else x
  }

  /** The handler for hosts with 64-bit integers. None stands for the one division C leaves undefined. */
  function Native(d: Registers, divisor: u32, w: Extension, f: Flags): Option<Outcome> {
    if divisor == 0 then Some(ZeroDivide)
    else if w.quad && w.signed then
      var a, b := Dividend(d, w), S32(divisor);
      if a == -TWO_63 && b == -1 then None
      else
        var q := TruncDiv(a, b);
        Some(if -TWO_31 <= q < TWO_31 then NativeResult(d, w, q, TruncMod(a, b)) else Overflow(d, f))
    else if w.quad then
      var q := Dividend(d, w) / divisor;
      Some(if q < TWO_32 then NativeResult(d, w, q, Dividend(d, w) % divisor) else Overflow(d, f))
    else if w.signed then
      var a, b := S32(d[w.dq]), S32(divisor);
      Some(NativeResult(d, w, TruncDiv(a, b), TruncMod(a, b)))
    else
      Some(NativeResult(d, w, d[w.dq] as int / divisor, d[w.dq] as int % divisor))
  }

  // ---------------------------------------------------------------- the 32-bit handler

  /** `-(sint)x` in a 32-bit register. */
  function Negated(x: u32): u32 {
    U32(-(x as int))
  }

  /** The magnitude of a signed 64-bit number in two registers. */
  function MagnitudeHigh(hi: u32, lo: u32): u32 {
    if hi >= 0x8000_0000 then U32(Negated(hi) - (if lo != 0 then 1 else 0)) else hi
  }

  function MagnitudeLow(hi: u32, lo: u32): u32 {
    if hi >= 0x8000_0000 then Negated(lo) else lo
  }

  function Magnitude(x: u32): u32 {
    if x >= 0x8000_0000 then Negated(x) else x
  }

  function PortableResult(d: Registers, w: Extension, quotient: u32, remainder: u32): Outcome {
    Divided(Write(d, w, quotient, remainder), Flags(quotient / 0x100_0000, quotient, 0, 0))
  }

  /** The handler without 64-bit integers, with the loops replaced by what they compute. */
  function Portable(d: Registers, divisor: u32, w: Extension, f: Flags): Outcome {
    var hi, lo := d[w.dr], d[w.dq];
    if divisor == 0 then ZeroDivide
    else if w.quad then
      if w.signed && hi == 0 && lo == 0x8000_0000 && divisor == 0xffff_ffff then
        Divided(d[w.dr := 0][w.dq := 0x8000_0000], Flags(0x80, 0xffff_ffff, 0, 0))
      else if w.signed then PortableSigned(d, divisor, w, f)
      else if hi >= divisor then Overflow(d, f)
      else PortableResult(d, w, U32((hi * TWO_32 + lo) / divisor), U32((hi * TWO_32 + lo) % divisor))
    else if w.signed && lo == 0x8000_0000 && divisor == 0xffff_ffff then
      Divided(d[w.dq := 0x8000_0000][w.dr := 0], Flags(0x80, 0xffff_ffff, 0, 0))
    else if w.signed then
      PortableResult(d, w, U32(TruncDiv(S32(lo), S32(divisor))), U32(TruncMod(S32(lo), S32(divisor))))
    else PortableResult(d, w, U32(lo as int / divisor), U32(lo as int % divisor))
  }

  function PortableSigned(d: Registers, divisor: u32, w: Extension, f: Flags): Outcome
    requires divisor != 0
  {
    var hi, lo, b := MagnitudeHigh(d[w.dr], d[w.dq]), MagnitudeLow(d[w.dr], d[w.dq]), Magnitude(divisor);
    if hi >= b then Overflow(d, f)
    else
      var q, r := U32((hi * TWO_32 + lo) / b), U32((hi * TWO_32 + lo) % b);
      if q > 0x7fff_ffff then Overflow(d, f)
      else
        var q1 := if d[w.dr] >= 0x8000_0000 then Negated(q) else q;
        PortableResult(d, w, if divisor >= 0x8000_0000 then Negated(q1) else q1,
                       if d[w.dr] >= 0x8000_0000 then Negated(r) else r)
  }

  lemma QuotientIn32(hi: u32, lo: u32, divisor: u32, q: u32, r: u32)
    requires hi < divisor && q * divisor + r == hi * TWO_32 + lo && r < divisor
    ensures q == (hi * TWO_32 + lo) / divisor && r == (hi * TWO_32 + lo) % divisor
  {
    QuotientIs(hi * TWO_32 + lo, divisor, q, r);
  }

  method DivideQuad(hi: u32, lo: u32, divisor: u32) returns (q: u32, r: u32)
    requires hi < divisor
    ensures q == U32((hi * TWO_32 + lo) / divisor) && r == U32((hi * TWO_32 + lo) % divisor)
  {
    q, r := ShiftSubtract(hi, lo, divisor);
    QuotientIn32(hi, lo, divisor, q, r);
  }

  method NegateHigh(hi: u32, lo: u32) returns (h: u32)
    ensures h == U32(Negated(hi) - (if lo != 0 then 1 else 0))
  {
    h := U32(Negated(hi) - (if lo != 0 then 1 else 0));
  }

  method WriteResult(d: array<u32>, w: Extension, q: u32, r: u32) returns (g: Flags)
    requires d.Length == 8
    modifies d
    ensures Divided(d[..], g) == PortableResult(old(d[..]), w, q, r)
  {
    d[w.dr] := r;
    d[w.dq] := q;
    g := Flags(q / 0x100_0000, q, 0, 0);
  }

  /** The signed 64-bit case after the special case. */
  method DivideSigned(d: array<u32>, divisor: u32, w: Extension, f: Flags) returns (g: Flags)
    requires d.Length == 8 && divisor != 0
    modifies d
    ensures Divided(d[..], g) == PortableSigned(old(d[..]), divisor, w, f)
  {
    hide Negated;
    var hi, lo, b := d[w.dr], d[w.dq], divisor;
    var dividendNeg, divisorNeg := false, false;
    if hi >= 0x8000_0000 {
      dividendNeg := true;
      hi := NegateHigh(hi, lo);
      lo := Negated(lo);
    }
    if b >= 0x8000_0000 {
      divisorNeg := true;
      b := Negated(b);
    }
    if hi >= b {
      return f.(v := 0x80);
    }
    var q, r := DivideQuad(hi, lo, b);
    if q > 0x7fff_ffff {
      return f.(v := 0x80);
    }
    if dividendNeg {
      r := Negated(r);
      q := Negated(q);
    }
    if divisorNeg {
      q := Negated(q);
    }
    g := WriteResult(d, w, q, r);
  }

  /** The handler. `zero` says that it takes the zero-divide exception instead. */
  method Divl(d: array<u32>, divisor: u32, w: Extension, f: Flags) returns (zero: bool, g: Flags)
    requires d.Length == 8
    modifies d
    ensures (if zero then ZeroDivide else Divided(d[..], g)) == Portable(old(d[..]), divisor, w, f)
    ensures zero ==> d[..] == old(d[..]) && g == f
  {
    hide PortableSigned;
    g, zero := f, divisor == 0;
    if zero {
      return;
    }
    var hi, lo := d[w.dr], d[w.dq];
    if w.quad {
      if w.signed && hi == 0 && lo == 0x8000_0000 && divisor == 0xffff_ffff {
        d[w.dr] := 0;
        d[w.dq] := 0x8000_0000;
        g := Flags(0x80, 0xffff_ffff, 0, 0);
      } else if w.signed {
        g := DivideSigned(d, divisor, w, f);
      } else if hi >= divisor {
        g := f.(v := 0x80);
      } else {
        var q, r := DivideQuad(hi, lo, divisor);
        g := WriteResult(d, w, q, r);
      }
    } else if w.signed && lo == 0x8000_0000 && divisor == 0xffff_ffff {
      d[w.dq] := 0x8000_0000;
      d[w.dr] := 0;
      g := Flags(0x80, 0xffff_ffff, 0, 0);
    } else if w.signed {
      g := WriteResult(d, w, U32(TruncDiv(S32(lo), S32(divisor))), U32(TruncMod(S32(lo), S32(divisor))));
    } else {
      g := WriteResult(d, w, U32(lo as int / divisor), U32(lo as int % divisor));
    }
  }

  // ---------------------------------------------------------------- the two handlers agree, except

  lemma MagnitudeIs(x: u32)
    ensures Magnitude(x) == Abs(S32(x)) && (S32(x) < 0 <==> x >= 0x8000_0000) && (x != 0 ==> Magnitude(x) > 0)
  {
  }

  lemma MagnitudeIs64(hi: u32, lo: u32)
    ensures MagnitudeHigh(hi, lo) * TWO_32 + MagnitudeLow(hi, lo) == Abs(S64(hi * TWO_32 + lo))
    ensures S64(hi * TWO_32 + lo) < 0 <==> hi >= 0x8000_0000
  {
    NegatedIs(hi);
    NegatedIs(lo);
    hide Negated;
  }

  lemma NegatedIs(x: u32)
    ensures Negated(x) as int == if x == 0 then 0 else TWO_32 - x
  {
    if x > 0 {
      QuotientIs(-(x as int), TWO_32, -1, TWO_32 - x);
    }
  }

  /** The high long is at least the divisor exactly when the quotient needs more than 32 bits. */
  lemma HighOverflows(hi: u32, lo: u32, b: u32)
    requires b > 0
    ensures hi >= b <==> (hi * TWO_32 + lo) / b >= TWO_32
    ensures 0 <= (hi * TWO_32 + lo) / b && 0 <= (hi * TWO_32 + lo) % b < b
  {
    var a := hi * TWO_32 + lo;
    var q, r := a / b, a % b;
    assert a == q * b + r;
    Scaled(q, b);
    if q >= TWO_32 {
      Scaled(q - TWO_32, b);
      assert (q - TWO_32) * b == q * b - TWO_32 * b;
    } else {
      Scaled(q - TWO_32, b);
      assert (q - TWO_32) * b == q * b - TWO_32 * b;
    }
  }

  lemma SignBit(q: int)
    requires -TWO_31 <= q < TWO_32
    ensures Bit(U32(q / 0x100_0000), 0x80) == Bit(U32(q) / 0x100_0000, 0x80)
  {
    if q < 0 {
      QuotientIs(q + TWO_32, 0x100_0000, q / 0x100_0000 + 0x100, q % 0x100_0000);
      var h := q / 0x100_0000;
      QuotientIs(h + 0x100, 0x80, h / 0x80 + 2, h % 0x80);
      QuotientIs(h + TWO_32, 0x80, h / 0x80 + TWO_32 / 0x80, h % 0x80);
    }
  }

  lemma ResultsMatch(d: Registers, w: Extension, q: int, r: int, q': u32, r': u32)
    requires -TWO_31 <= q < TWO_32 && q' == U32(q) && r' == U32(r)
    ensures SameOutcome(NativeResult(d, w, q, r), PortableResult(d, w, q', r'))
  {
    hide Bit;
    SignBit(q);
  }

  /** The divisions whose results the two handlers do not agree on: a signed 64-bit dividend with the
      quotient -2^31, unless it is 2^31 over -1, and a signed 32-bit -2^31 over -1 that keeps only the
      quotient. */
  predicate Differs(d: Registers, divisor: u32, w: Extension) {
    && divisor != 0 && w.signed
    && if w.quad then
         var a, b := Dividend(d, w), S32(divisor);
         (a < 0) != (b < 0) && TWO_31 * Abs(b) <= Abs(a) < (TWO_31 + 1) * Abs(b) && !(a == TWO_31 && b == -1)
       else S32(d[w.dq]) == -TWO_31 && S32(divisor) == -1 && w.dr == w.dq
  }

  lemma UnsignedAgree(d: Registers, divisor: u32, w: Extension, f: Flags)
    requires w.quad && !w.signed && divisor != 0
    ensures SameOutcome(Native(d, divisor, w, f).value, Portable(d, divisor, w, f))
  {
    hide Bit, NativeResult, PortableResult;
    var hi, lo := d[w.dr], d[w.dq];
    HighOverflows(hi, lo, divisor);
    if hi < divisor {
      var q, r := (hi * TWO_32 + lo) / divisor, (hi * TWO_32 + lo) % divisor;
      ResultsMatch(d, w, q, r, U32(q), U32(r));
    }
  }

  /** The signed results, from magnitudes. */
  lemma SignedResults(d: Registers, w: Extension, a: int, b: int, q: int, r: int)
    requires 0 <= q < TWO_31 && 0 <= r < TWO_31
    ensures SameOutcome(SignedNative(d, w, a, b, q, r), SignedPortable(d, w, a, b, q, r))
  {
    hide NativeResult, PortableResult, SameOutcome;
    NegatedTwice(q);
    NegatedTwice(r);
    hide Negated, U32;
    var q1 := if a < 0 then Negated(q) else q;
    ResultsMatch(d, w, if (a < 0) == (b < 0) then q else -q, if a < 0 then -r else r,
                 if b < 0 then Negated(q1) else q1, if a < 0 then Negated(r) else r);
  }

  function SignedNative(d: Registers, w: Extension, a: int, b: int, q: int, r: int): Outcome {
    NativeResult(d, w, if (a < 0) == (b < 0) then q else -q, if a < 0 then -r else r)
  }

  function SignedPortable(d: Registers, w: Extension, a: int, b: int, q: u32, r: u32): Outcome {
    var q1 := if a < 0 then Negated(q) else q;
    PortableResult(d, w, if b < 0 then Negated(q1) else q1, if a < 0 then Negated(r) else r)
  }

  lemma PortableSignedIs(d: Registers, divisor: u32, w: Extension, f: Flags)
    requires w.signed && divisor != 0
    ensures var a, b := Dividend(d, w), S32(divisor);
      var q, r := Abs(a) / Abs(b), Abs(a) % Abs(b);
      && 0 <= q && 0 <= r < TWO_32
      && PortableSigned(d, divisor, w, f) == if q >= TWO_31 then Overflow(d, f) else SignedPortable(d, w, a, b, q, r)
  {
    hide MagnitudeHigh, MagnitudeLow, Magnitude, PortableResult, Negated, S64, S32, Abs;
    MagnitudeIs64(d[w.dr], d[w.dq]);
    MagnitudeIs(divisor);
    HighOverflows(MagnitudeHigh(d[w.dr], d[w.dq]), MagnitudeLow(d[w.dr], d[w.dq]), Magnitude(divisor));
  }

  lemma NativeSignedIs(d: Registers, divisor: u32, w: Extension, f: Flags)
    requires w.quad && w.signed && divisor != 0 && Native(d, divisor, w, f).Some?
    ensures var a, b := Dividend(d, w), S32(divisor);
      var q, r := Abs(a) / Abs(b), Abs(a) % Abs(b);
      && 0 <= q && 0 <= r < Abs(b)
      && Native(d, divisor, w, f).value ==
           if q > TWO_31 || (q == TWO_31 && (a < 0) == (b < 0)) then Overflow(d, f) else SignedNative(d, w, a, b, q, r)
  {
    hide NativeResult;
    QuotientBetween(Abs(Dividend(d, w)), Abs(S32(divisor)), TWO_31);
  }

  lemma OverflowIsSeen(d: Registers, f: Flags, o: Outcome)
    requires o.Divided? && o.f.v == 0
    ensures !SameOutcome(o, Overflow(d, f)) && SameOutcome(Overflow(d, f), Overflow(d, f))
  {
    BitIs(0, 1, 0, 0x80);
  }

  /** Signed 64-bit dividends, apart from the special case of the 32-bit handler. */
  lemma SignedAgree(d: Registers, divisor: u32, w: Extension, f: Flags)
    requires w.quad && w.signed && divisor != 0 && Native(d, divisor, w, f).Some?
    requires !(d[w.dr] == 0 && d[w.dq] == 0x8000_0000 && divisor == 0xffff_ffff)
    ensures SameOutcome(Native(d, divisor, w, f).value, Portable(d, divisor, w, f)) <==> !Differs(d, divisor, w)
  {
    hide SameOutcome, Overflow, SignedPortable, Native;
    var a, b := Dividend(d, w), S32(divisor);
    PortableSignedIs(d, divisor, w, f);
    NativeSignedIs(d, divisor, w, f);
    var q, r := Abs(a) / Abs(b), Abs(a) % Abs(b);
    QuotientBetween(Abs(a), Abs(b), TWO_31);
    OverflowIsSeen(d, f, SignedNative(d, w, a, b, q, r));
    if q < TWO_31 {
      SignedResults(d, w, a, b, q, r);
    }
  }

  /** The special result of both cases, against the native one. */
  lemma SpecialMatches(d: Registers, w: Extension, q: int, e: Registers)
    requires q == TWO_31 || q == -TWO_31
    ensures SameOutcome(NativeResult(d, w, q, 0), Divided(e, Flags(0x80, 0xffff_ffff, 0, 0)))
      <==> e == d[w.dr := 0][w.dq := 0x8000_0000]
  {
    SignBit(q);
    BitIs(0, 1, 0, 0x80);
  }

  lemma QuadSpecialAgrees(d: Registers, w: Extension, f: Flags)
    requires w.quad && w.signed && d[w.dr] == 0 && d[w.dq] == 0x8000_0000
    ensures !Differs(d, 0xffff_ffff, w) && Native(d, 0xffff_ffff, w, f).Some?
    ensures SameOutcome(Native(d, 0xffff_ffff, w, f).value, Portable(d, 0xffff_ffff, w, f))
  {
    hide SameOutcome, NativeResult;
    SpecialMatches(d, w, -TWO_31, d[w.dr := 0][w.dq := 0x8000_0000]);
    assert Native(d, 0xffff_ffff, w, f) == Some(NativeResult(d, w, -TWO_31, 0));
  }

  lemma LongSpecialAgrees(d: Registers, w: Extension, f: Flags)
    requires !w.quad && w.signed && d[w.dq] == 0x8000_0000
    ensures SameOutcome(Native(d, 0xffff_ffff, w, f).value, Portable(d, 0xffff_ffff, w, f)) <==> !Differs(d, 0xffff_ffff, w)
  {
    hide SameOutcome, NativeResult;
    var e := d[w.dq := 0x8000_0000][w.dr := 0];
    SpecialMatches(d, w, TWO_31, e);
    assert Native(d, 0xffff_ffff, w, f) == Some(NativeResult(d, w, TWO_31, 0));
    if w.dr == w.dq {
      assert e[w.dq] == 0;
    } else {
      assert e == d[w.dr := 0][w.dq := 0x8000_0000];
    }
  }

  lemma LongAgrees(d: Registers, divisor: u32, w: Extension, f: Flags)
    requires !w.quad && divisor != 0 && !(w.signed && d[w.dq] == 0x8000_0000 && divisor == 0xffff_ffff)
    ensures !Differs(d, divisor, w) && SameOutcome(Native(d, divisor, w, f).value, Portable(d, divisor, w, f))
  {
    hide SameOutcome, NativeResult, PortableResult;
    if w.signed {
      var a, b := S32(d[w.dq]), S32(divisor);
      QuotientBelow(Abs(a), Abs(b));
      ResultsMatch(d, w, TruncDiv(a, b), TruncMod(a, b), U32(TruncDiv(a, b)), U32(TruncMod(a, b)));
    } else {
      var a: int := d[w.dq];
      QuotientBelow(a, divisor);
      ResultsMatch(d, w, a / divisor, a % divisor, U32(a / divisor), U32(a % divisor));
    }
  }

  /** Wherever C defines the native division, the two handlers leave the same registers and flags except
      on exactly the divisions of Differs. */
  lemma HandlersAgree(d: Registers, divisor: u32, w: Extension, f: Flags)
    requires Native(d, divisor, w, f).Some?
    ensures SameOutcome(Native(d, divisor, w, f).value, Portable(d, divisor, w, f)) <==> !Differs(d, divisor, w)
  {
    hide Native, Portable, SameOutcome;
    if divisor == 0 {
      ZeroAgrees(d, w, f);
    } else if !w.quad {
      if w.signed && d[w.dq] == 0x8000_0000 && divisor == 0xffff_ffff {
        LongSpecialAgrees(d, w, f);
      } else {
        LongAgrees(d, divisor, w, f);
      }
    } else if !w.signed {
      UnsignedAgree(d, divisor, w, f);
    } else if d[w.dr] == 0 && d[w.dq] == 0x8000_0000 && divisor == 0xffff_ffff {
      QuadSpecialAgrees(d, w, f);
    } else {
      SignedAgree(d, divisor, w, f);
    }
  }

  lemma ZeroAgrees(d: Registers, w: Extension, f: Flags)
    ensures Native(d, 0, w, f) == Some(ZeroDivide) && Portable(d, 0, w, f) == ZeroDivide
    ensures SameOutcome(ZeroDivide, ZeroDivide)
  {
  }

  /** On the division C leaves undefined the 32-bit handler reports overflow. */
  lemma UndefinedOverflows(d: Registers, divisor: u32, w: Extension, f: Flags)
    requires Native(d, divisor, w, f).None?
    ensures w.quad && w.signed && Dividend(d, w) == -TWO_63 && S32(divisor) == -1
    ensures Portable(d, divisor, w, f) == Overflow(d, f)
  {
    assert d[w.dr] == 0x8000_0000 && d[w.dq] == 0 && divisor == 0xffff_ffff;
  }

  /** Unsigned 64-bit dividends: the registers get the true quotient and remainder, or V is set when the
      quotient needs more than 32 bits. */
  lemma UnsignedQuad(d: Registers, divisor: u32, w: Extension, f: Flags)
    requires w.quad && !w.signed && divisor != 0
    ensures var a := Dividend(d, w);
      if a / divisor >= TWO_32 then Portable(d, divisor, w, f) == Divided(d, f.(v := 0x80))
      else
        var o := Portable(d, divisor, w, f);
        && o.Divided? && o.f.v == 0 && o.f.c == 0
        && o.d[w.dq] as int == a / divisor
        && (w.dr != w.dq ==> o.d[w.dq] as int * divisor + o.d[w.dr] as int == a && o.d[w.dr] < divisor)
        && forall i :: 0 <= i < 8 && i != w.dr && i != w.dq ==> o.d[i] == d[i]
  {
    var a, hi, lo := Dividend(d, w), d[w.dr], d[w.dq];
    HighOverflows(hi, lo, divisor);
    assert a == a / divisor * divisor + a % divisor;
  }

  // ---------------------------------------------------------------- what DIVL leaves

  /** A register as the extension word takes it. */
  function Taken(x: u32, w: Extension): int {
    if w.signed then S32(x) else x
  }

  /** The quotient register holds the quotient of `a` by `b` that rounds towards zero, the remainder
      register, if it is another one, the remainder, with the sign of `a`; N and Z are those of the
      quotient, V and C are clear, and no other register changes. */
  predicate Divides(d: Registers, w: Extension, o: Outcome, a: int, b: int)
    requires o.Divided?
  {
    var q := Taken(o.d[w.dq], w);
    var r := a - q * b;
    && Abs(r) < Abs(b) && (r == 0 || ((r < 0) == (a < 0)))
    && (w.dr != w.dq ==> Taken(o.d[w.dr], w) == r)
    && (Bit(o.f.n, 0x80) == 1 <==> o.d[w.dq] >= 0x8000_0000) && (o.f.z == 0 <==> q == 0)
    && o.f.v == 0 && o.f.c == 0
    && forall i :: 0 <= i < 8 && i != w.dr && i != w.dq ==> o.d[i] == d[i]
  }

  lemma SignedBack(x: int)
    requires -TWO_31 <= x < TWO_31
    ensures S32(U32(x)) == x
  {
  }

  lemma TopBit(x: u32)
    ensures Bit(x / 0x100_0000, 0x80) == 1 <==> x >= 0x8000_0000
  {
    QuotientIs(x / 0x100_0000, 0x80, x / 0x8000_0000, x / 0x100_0000 % 0x80);
  }

  lemma ResultDivides(d: Registers, w: Extension, a: int, b: int, q: int, r: int)
    requires a == q * b + r && Abs(r) < Abs(b) && (r == 0 || ((r < 0) == (a < 0)))
    requires if w.signed then -TWO_31 <= q < TWO_31 && -TWO_31 <= r < TWO_31 else 0 <= q < TWO_32 && 0 <= r < TWO_32
    ensures Divides(d, w, PortableResult(d, w, U32(q), U32(r)), a, b)
  {
    hide Bit, S32;
    TopBit(U32(q));
    if w.signed {
      SignedBack(q);
      SignedBack(r);
    }
  }

  /** Division from magnitudes. */
  lemma FromMagnitudes(a: int, b: int)
    requires b != 0
    ensures var q, r := TruncDiv(a, b), TruncMod(a, b);
      && a == q * b + r && Abs(r) < Abs(b) && (r == 0 || ((r < 0) == (a < 0)))
      && Abs(q) == Abs(a) / Abs(b) <= Abs(a)
  {
    var m, n := Abs(a) / Abs(b), Abs(a) % Abs(b);
    QuotientBelow(Abs(a), Abs(b));
    SignedParts(a, b, m, n);
  }

  lemma SignedParts(a: int, b: int, m: int, n: int)
    requires Abs(a) == m * Abs(b) + n
    ensures a == (if (a < 0) == (b < 0) then m else -m) * b + (if a < 0 then -n else n)
  {
    SignsOfProduct(m, b);
  }

  lemma SignsOfProduct(m: int, b: int)
    ensures m * b == (if b < 0 then -(m * Abs(b)) else m * Abs(b)) && (-m) * b == -(m * b)
  {
  }

  /** The dividend that the extension word selects. */
  function Selected(d: Registers, w: Extension): int {
    if w.quad then Dividend(d, w) else Taken(d[w.dq], w)
  }

  /** The 32-bit case in which the quotient 2^31 does not fit a signed long. */
  predicate TooLarge(d: Registers, divisor: u32, w: Extension) {
    !w.quad && w.signed && d[w.dq] == 0x8000_0000 && divisor == 0xffff_ffff
  }

  /** A 64-bit dividend whose quotient DIVL delivers: an unsigned one below 2^32; a signed one below 2^31
      in magnitude, or 2^31 over -1. */
  predicate Delivers(a: int, b: int, signed: bool) {
    if signed then Abs(a) < TWO_31 * Abs(b) || (a == TWO_31 && b == -1) else a < TWO_32 * b
  }

  /** DIVL takes the zero-divide exception for the divisor 0; otherwise it leaves quotient and remainder,
      for 32-bit and 64-bit dividends, signed and unsigned, or sets V and changes nothing else. */
  lemma DivlDivides(d: Registers, divisor: u32, w: Extension, f: Flags)
    ensures Portable(d, divisor, w, f).ZeroDivide? <==> divisor == 0
    ensures divisor != 0 && !TooLarge(d, divisor, w) && (w.quad ==> Delivers(Selected(d, w), Taken(divisor, w), w.signed))
        ==> Divides(d, w, Portable(d, divisor, w, f), Selected(d, w), Taken(divisor, w))
    ensures divisor != 0 && w.quad && !Delivers(Selected(d, w), Taken(divisor, w), w.signed)
        ==> Portable(d, divisor, w, f) == Divided(d, f.(v := 0x80))
  {
    hide Divides;
    if divisor != 0 && !TooLarge(d, divisor, w) {
      if !w.quad {
        LongDivides(d, divisor, w, f);
      } else if w.signed {
        SignedQuadDivides(d, divisor, w, f);
      } else {
        UnsignedQuadDivides(d, divisor, w, f);
      }
    }
  }

  lemma LongDivides(d: Registers, divisor: u32, w: Extension, f: Flags)
    requires divisor != 0 && !w.quad && !TooLarge(d, divisor, w)
    ensures Portable(d, divisor, w, f).Divided?
    ensures Divides(d, w, Portable(d, divisor, w, f), Selected(d, w), Taken(divisor, w))
  {
    hide Divides, TruncDiv, TruncMod;
    var a, b := Selected(d, w), Taken(divisor, w);
    FromMagnitudes(a, b);
    if w.signed {
      SignedInRange(a, b);
      ResultDivides(d, w, a, b, TruncDiv(a, b), TruncMod(a, b));
    } else {
      QuotientBelow(a, b);
      assert a == a / b * b + a % b;
      ResultDivides(d, w, a, b, a / b, a % b);
    }
  }

  lemma SignedInRange(a: int, b: int)
    requires -TWO_31 <= a < TWO_31 && -TWO_31 <= b < TWO_31 && b != 0 && !(a == -TWO_31 && b == -1)
    ensures -TWO_31 <= TruncDiv(a, b) < TWO_31 && -TWO_31 <= TruncMod(a, b) < TWO_31
  {
    hide TruncDiv, TruncMod;
    FromMagnitudes(a, b);
    var q, r := TruncDiv(a, b), TruncMod(a, b);
  }

  lemma UnsignedQuadDivides(d: Registers, divisor: u32, w: Extension, f: Flags)
    requires divisor != 0 && w.quad && !w.signed
    ensures var a, o := Selected(d, w), Portable(d, divisor, w, f);
      if Delivers(a, divisor, false) then o.Divided? && Divides(d, w, o, a, divisor) else o == Overflow(d, f)
  {
    hide Divides, PortableResult;
    var a, hi, lo := Selected(d, w), d[w.dr], d[w.dq];
    HighOverflows(hi, lo, divisor);
    QuotientBetween(a, divisor, a / divisor);
    HighBelow(hi, lo, divisor);
    if hi < divisor {
      assert a == a / divisor * divisor + a % divisor;
      ResultDivides(d, w, a, divisor, a / divisor, a % divisor);
      ResultIsDivided(d, w, U32(a / divisor), U32(a % divisor));
    }
  }

  lemma HighBelow(hi: u32, lo: u32, b: u32)
    ensures hi < b <==> hi * TWO_32 + lo < TWO_32 * b
  {
  }

  lemma SignedQuadDivides(d: Registers, divisor: u32, w: Extension, f: Flags)
    requires divisor != 0 && w.quad && w.signed
    ensures var a, b, o := Selected(d, w), Taken(divisor, w), Portable(d, divisor, w, f);
      if Delivers(a, b, true) then o.Divided? && Divides(d, w, o, a, b) else o == Overflow(d, f)
  {
    hide Divides, TruncDiv, TruncMod, PortableSigned, Negated, SignedPortable, PortableResult;
    var a, b := Selected(d, w), Taken(divisor, w);
    FromMagnitudes(a, b);
    if d[w.dr] == 0 && d[w.dq] == 0x8000_0000 && divisor == 0xffff_ffff {
      SpecialDivides(d, w);
    } else {
      PortableSignedIs(d, divisor, w, f);
      hide Portable;
      var q, r := Abs(a) / Abs(b), Abs(a) % Abs(b);
      QuotientBetween(Abs(a), Abs(b), q);
      MagnitudeFits(Abs(a), Abs(b));
      if q < TWO_31 {
        SignedResultIs(d, w, a, b, q, r);
        ResultDivides(d, w, a, b, TruncDiv(a, b), TruncMod(a, b));
        ResultIsDivided(d, w, U32(TruncDiv(a, b)), U32(TruncMod(a, b)));
      }
    }
  }

  lemma ResultIsDivided(d: Registers, w: Extension, q: u32, r: u32)
    ensures PortableResult(d, w, q, r).Divided?
  {
  }

  lemma MagnitudeFits(a: nat, b: nat)
    requires b > 0
    ensures a / b < TWO_31 <==> a < TWO_31 * b
  {
    var q, r := a / b, a % b;
    assert a == q * b + r;
    Scaled(q - TWO_31, b);
    assert (q - TWO_31) * b == q * b - TWO_31 * b;
  }

  /** The signs of the 32-bit handler are those of the division. */
  lemma SignedResultIs(d: Registers, w: Extension, a: int, b: int, q: int, r: int)
    requires b != 0 && q == Abs(a) / Abs(b) < TWO_31 && r == Abs(a) % Abs(b) && 0 <= q && 0 <= r < TWO_31
    ensures SignedPortable(d, w, a, b, q, r) == PortableResult(d, w, U32(TruncDiv(a, b)), U32(TruncMod(a, b)))
    ensures -TWO_31 < TruncDiv(a, b) < TWO_31 && -TWO_31 < TruncMod(a, b) < TWO_31
  {
    hide PortableResult;
    NegatedTwice(q);
    NegatedTwice(r);
    hide Negated, U32, Abs;
  }

  lemma NegatedTwice(x: u32)
    requires x < TWO_31
    ensures U32(x) == x && Negated(x) == U32(-(x as int)) && Negated(Negated(x)) == x
  {
    if x > 0 {
      QuotientIs(-(x as int), TWO_32, -1, TWO_32 - x);
      QuotientIs(x as int - TWO_32, TWO_32, -1, x);
    }
  }

  /** 2^31 over -1 is -2^31. */
  lemma SpecialDivides(d: Registers, w: Extension)
    requires w.signed
    ensures Divides(d, w, Divided(d[w.dr := 0][w.dq := 0x8000_0000], Flags(0x80, 0xffff_ffff, 0, 0)), TWO_31, -1)
  {
    BitIs(0, 1, 0, 0x80);
  }

  /** Where the quotient 2^31 does not fit a signed long, DIVL leaves its bits and the remainder 0, of which
      the remainder wins when both have the same register, and N. */
  lemma TooLargeLeaves(d: Registers, divisor: u32, w: Extension, f: Flags)
    requires TooLarge(d, divisor, w)
    ensures var o := Portable(d, divisor, w, f);
      && o.Divided? && o.d[w.dr] == 0 && (w.dr != w.dq ==> o.d[w.dq] == 0x8000_0000)
      && (forall i :: 0 <= i < 8 && i != w.dr && i != w.dq ==> o.d[i] == d[i])
      && Bit(o.f.n, 0x80) == 1 && o.f.z != 0 && o.f.v == 0 && o.f.c == 0
  {
    BitIs(0, 1, 0, 0x80);
  }

  /** The handler with 64-bit integers delivers the signed quotients of a 64-bit dividend that fit 32 bits,
      -2^31 included. */
  lemma NativeDivides(d: Registers, divisor: u32, w: Extension, f: Flags)
    requires w.quad && w.signed && divisor != 0 && Native(d, divisor, w, f).Some?
    ensures var a, b, o := Dividend(d, w), S32(divisor), Native(d, divisor, w, f).value;
      if Abs(a) < TWO_31 * Abs(b) || ((a < 0) != (b < 0) && Abs(a) < (TWO_31 + 1) * Abs(b))
      then o.Divided? && Divides(d, w, o, a, b) else o == Divided(d, f.(v := 0x80))
  {
    hide Divides, Native, SignedNative, TruncDiv, TruncMod;
    var a, b := Dividend(d, w), S32(divisor);
    var q, r := Abs(a) / Abs(b), Abs(a) % Abs(b);
    NativeSignedIs(d, divisor, w, f);
    QuotientBetween(Abs(a), Abs(b), TWO_31);
    MagnitudeFits(Abs(a), Abs(b));
    if q < TWO_31 || (q == TWO_31 && (a < 0) != (b < 0)) {
      FromMagnitudes(a, b);
      NativeResultDivides(d, w, a, b);
    }
  }

  lemma NativeResultDivides(d: Registers, w: Extension, a: int, b: int)
    requires w.signed && b != 0 && -TWO_31 <= b < TWO_31
    requires var q := Abs(a) / Abs(b); q < TWO_31 || (q == TWO_31 && (a < 0) != (b < 0))
    ensures Abs(a) / Abs(b) >= 0 && Abs(a) % Abs(b) >= 0
    ensures var o := SignedNative(d, w, a, b, Abs(a) / Abs(b), Abs(a) % Abs(b)); o.Divided? && Divides(d, w, o, a, b)
  {
    hide Divides, Bit;
    var q, r := TruncDiv(a, b), TruncMod(a, b);
    QuotientBelow(Abs(a), Abs(b));
    FromMagnitudes(a, b);
    ResultDivides(d, w, a, b, q, r);
    SignBit(q);
    SameDivides(d, w, PortableResult(d, w, U32(q), U32(r)), NativeResult(d, w, q, r), a, b);
  }

  lemma SameDivides(d: Registers, w: Extension, o: Outcome, p: Outcome, a: int, b: int)
    requires o.Divided? && p.Divided? && o.d == p.d && Divides(d, w, o, a, b)
    requires Bit(o.f.n, 0x80) == Bit(p.f.n, 0x80) && o.f.z == p.f.z && o.f.v == p.f.v && o.f.c == p.f.c
    ensures Divides(d, w, p, a, b)
  {
    hide Bit;
  }
}
