/** Bit fields (mushashi/m68k_in.c): BFEXTU, BFEXTS and BFFFO of memory, BFINS and BFEXTU of a register.
    Bit fields count bits from the most significant one. */
module BitFields {
  import opened Words
  import opened Bits
  import opened AddressSpace
  import opened Shifts
  import Processor

  // ---------------------------------------------------------------- bits of a number

  /** `width` bits of a number of `n` bits, from bit `from` on. */
  function Field(v: nat, n: nat, from: nat, width: nat): nat
    requires from + width <= n
  {
    ShiftRight(v, n - from - width) % Pow2(width)
  }

  /** A field with one more bit. */
  lemma NextField(v: nat, n: nat, from: nat, width: nat)
    requires from + width < n
    ensures Field(v, n, from, width + 1) == 2 * Field(v, n, from, width) + BitAt(v, n - from - width - 1)
  {
    hide ShiftRight, BitAt;
    var k := n - from - width - 1;
    NextRight(v, k);
    NextModulo(ShiftRight(v, k), Pow2(width));
  }

  lemma NextModulo(y: nat, m: nat)
    requires m > 0
    ensures y % (2 * m) == 2 * (y / 2 % m) + y % 2
  {
    var z := y / 2;
    var q, r := z / m, z % m;
    assert z == q * m + r;
    assert q * (2 * m) == 2 * (q * m);
    QuotientIs(y, 2 * m, q, 2 * r + y % 2);
  }

  // ---------------------------------------------------------------- bits of memory

  /** Bit `p` of memory: bit 7 of the byte at 0 is bit 0. */
  function MemoryBit(m: Space, p: int): nat {
    BitAt(m[U32(p / 8)], 7 - p % 8)
  }

  /** The `width` bits from bit `p` on, as a number. */
  function Slice(m: Space, p: int, width: nat): nat {
    if width == 0 then 0 else 2 * Slice(m, p, width - 1) + MemoryBit(m, p + width - 1)
  }

  /** The five bytes a field of 32 bits can touch. */
  function FiveBytes(m: Space, ea: u32): nat {
    Load32(m, ea) as int * 0x100 + m[U32(ea + 4)] as int
  }

  /** A byte inside a number. */
  lemma ByteBit(upper: nat, byte: nat, lower: nat, n: nat, t: nat)
    requires byte < 0x100 && lower < Pow2(n) && t < 8
    ensures (upper * 0x100 + byte) * Pow2(n) + lower >= 0
    ensures BitAt((upper * 0x100 + byte) * Pow2(n) + lower, n + t) == BitAt(byte, t)
  {
    hide BitAt;
    SizePowers();
    BitAbove(upper * 0x100 + byte, lower, n, t);
    BitBelow(upper, byte, 8, t);
  }

  lemma MorePowers()
    ensures Pow2(0) == 1 && Pow2(8) == 0x100 && Pow2(16) == 0x1_0000 && Pow2(24) == 0x100_0000 && Pow2(32) == TWO_32
  {
    SizePowers();
    assert Pow2(24) == 0x100 * Pow2(16);
  }

  lemma FiveBytesAre(m: Space, ea: u32)
    ensures FiveBytes(m, ea) == m[ea] as int * 0x1_0000_0000 + m[U32(ea + 1)] as int * 0x100_0000
              + m[U32(ea + 2)] as int * 0x1_0000 + m[U32(ea + 3)] as int * 0x100 + m[U32(ea + 4)] as int
  {
    assert U32(U32(ea + 2) + 1) == U32(ea + 3);
  }

  /** The bits of one of the five bytes. */
  lemma FiveBytesByte(m: Space, ea: u32, b: nat, t: nat)
    requires b < 5 && t < 8
    ensures BitAt(FiveBytes(m, ea), 8 * (4 - b) + t) == BitAt(m[U32(ea + b)], t)
  {
    hide BitAt, U32, FiveBytes, Pow2;
    FiveBytesAre(m, ea);
    MorePowers();
    var b0, b1, b2, b3, b4: nat := m[ea] as int, m[U32(ea + 1)] as int, m[U32(ea + 2)] as int, m[U32(ea + 3)] as int, m[U32(ea + 4)] as int;
    NoWrap(ea);
    if b == 0 {
      ByteBit(0, b0, b1 * 0x100_0000 + b2 * 0x1_0000 + b3 * 0x100 + b4, 32, t);
    } else if b == 1 {
      ByteBit(b0, b1, b2 * 0x1_0000 + b3 * 0x100 + b4, 24, t);
    } else if b == 2 {
      ByteBit(b0 * 0x100 + b1, b2, b3 * 0x100 + b4, 16, t);
    } else if b == 3 {
      ByteBit(b0 * 0x1_0000 + b1 * 0x100 + b2, b3, b4, 8, t);
    } else {
      ByteBit(b0 * 0x100_0000 + b1 * 0x1_0000 + b2 * 0x100 + b3, b4, 0, 0, t);
    }
  }

  /** The bits of the five bytes are the bits of memory. */
  lemma FiveBytesBit(m: Space, ea: u32, i: nat)
    requires i < 40
    ensures MemoryBit(m, 8 * ea + i) == BitAt(FiveBytes(m, ea), 39 - i)
  {
    hide BitAt, U32, FiveBytes;
    var b, t := i / 8, 7 - i % 8;
    QuotientIs(8 * ea + i, 8, ea + b, i % 8);
    FiveBytesByte(m, ea, b, t);
  }

  lemma NoWrap(ea: u32)
    ensures U32(ea + 0) == ea
  {
  }

  /** A slice of memory is a field of the five bytes. */
  lemma {:induction false} SliceIs(m: Space, ea: u32, from: nat, width: nat)
    requires from + width <= 40
    ensures Slice(m, 8 * ea + from, width) == Field(FiveBytes(m, ea), 40, from, width)
    decreases width
  {
    hide MemoryBit, BitAt, FiveBytes, ShiftRight;
    if width == 0 {
      NoField(FiveBytes(m, ea), from);
    } else {
      SliceIs(m, ea, from, width - 1);
      NextField(FiveBytes(m, ea), 40, from, width - 1);
      FiveBytesBit(m, ea, from + width - 1);
    }
  }

  lemma NoField(v: nat, from: nat)
    requires from <= 40
    ensures Field(v, 40, from, 0) == 0
  {
  }

  // ---------------------------------------------------------------- extracting from memory

  /** Division of C by 8, which truncates, and the correction for negative remainders. */
  function ByteOffset(offset: s32): int {
    var q := if offset < 0 then -(-(offset as int) / 8) else offset / 8;
    var r := offset - 8 * q;
    if r < 0 then q - 1 else q
  }

  function BitOffset(offset: s32): int {
    var q := if offset < 0 then -(-(offset as int) / 8) else offset / 8;
    var r := offset - 8 * q;
    if r < 0 then r + 8 else r
  }

  lemma OffsetIsFloor(offset: s32)
    ensures ByteOffset(offset) == offset / 8 && BitOffset(offset) == offset % 8
  {
  }

  /** The 32 bits of `data` once the field is at the top. */
  function Funnel(m: Space, ea: u32, offset: nat, width: nat): nat
    requires offset < 8 && 1 <= width <= 32
  {
    var data := ShiftLeft(Load32(m, ea), offset) % TWO_32;
    if offset + width > 32 then Or(data, ShiftRight(ShiftLeft(m[U32(ea + 4)], offset), 8)) else data
  }

  lemma CutAgain(y: nat, a: nat, b: nat)
    ensures ShiftRight(ShiftRight(y, a), b) == ShiftRight(y, a + b)
  {
    hide ShiftRight;
    var q, s := Cut(y, a);
    var t, u := Cut(q, b);
    PowAdds(a, b);
    CutTwice(y, t, u, s, Pow2(a), Pow2(b), a + b);
  }

  lemma CutTwice(y: nat, t: nat, u: nat, s: nat, p: nat, r: nat, k: nat)
    requires u < r && s < p && y == (t * r + u) * p + s && Pow2(k) == p * r
    ensures ShiftRight(y, k) == t
  {
    hide Pow2;
    JoinBelow(u, s, r, p);
    PartsTimes(t, u, p, r);
    QuotientIs(y, p * r, t, u * p + s);
  }

  lemma PartsTimes(t: int, u: int, p: int, r: int)
    ensures (t * r + u) * p == t * (p * r) + u * p
  {
  }

  /** The top bits of the low `n` bits. */
  lemma TopOfLow(y: nat, n: nat, k: nat)
    requires k <= n
    ensures ShiftRight(y % Pow2(n), k) == ShiftRight(y, k) % Pow2(n - k)
  {
    PowAdds(n - k, k);
    TopOfRest(y, Pow2(k), Pow2(n - k), Pow2(n));
  }

  lemma TopOfRest(y: nat, p: nat, r: nat, m: nat)
    requires p > 0 && r > 0 && m == r * p && m > 0
    ensures y % m / p == y / p % r
  {
    var z, s := y / p, y % p;
    var q, t := z / r, z % r;
    assert y == z * p + s && z == q * r + t;
    LowOfParts(q, t, s, p, r);
    assert y % m == t * p + s;
  }

  lemma LowOfParts(q: nat, t: nat, s: nat, p: nat, r: nat)
    requires t < r && s < p
    ensures ((q * r + t) * p + s) % (r * p) == t * p + s && (t * p + s) / p == t
  {
    JoinBelow(t, s, r, p);
    assert (q * r + t) * p == q * (r * p) + t * p;
    QuotientIs((q * r + t) * p + s, r * p, q, t * p + s);
    QuotientIs(t * p + s, p, t, s);
  }

  /** The low part of a number shifted to the left, with something below it. */
  lemma LowModulo(data: nat, low: nat, p: nat, r: nat, m: nat)
    requires r > 0 && m == r * p && low < p && m > 0
    ensures (data * p + low) % m == data % r * p + low
  {
    var q, t := data / r, data % r;
    assert data == q * r + t;
    LowOfParts(q, t, low, p, r);
  }

  /** Shifting up and then further down. */
  lemma UpAndDown(y: nat, o: nat, k: nat)
    requires o <= k
    ensures ShiftRight(ShiftLeft(y, o), k) == ShiftRight(y, k - o)
  {
    PowAdds(k - o, o);
    Cancelled(y, Pow2(o), Pow2(k - o));
  }

  lemma Cancelled(y: nat, p: nat, t: nat)
    requires p > 0 && t > 0
    ensures t * p > 0 && y * p / (t * p) == y / t
  {
    var q, s := y / t, y % t;
    LessTimes(s, t, p);
    assert (q * t + s) * p == q * (t * p) + s * p;
    QuotientIs(y * p, t * p, q, s * p);
  }

  /** Without the fifth byte. */
  lemma FunnelShort(data: nat, byte: nat, o: nat, width: nat)
    requires o < 8 && 1 <= width && o + width <= 32 && byte < 0x100
    ensures ShiftRight(ShiftLeft(data, o) % TWO_32, 32 - width) == Field(data * 0x100 + byte, 40, o, width)
  {
    hide ShiftRight, ShiftLeft;
    MorePowers();
    TopOfLow(ShiftLeft(data, o), 32, 32 - width);
    UpAndDown(data, o, 32 - width);
    CutAgain(data * 0x100 + byte, 8, 32 - width - o);
    DropByte(data, byte);
  }

  lemma DropByte(data: nat, byte: nat)
    requires byte < 0x100
    ensures ShiftRight(data * 0x100 + byte, 8) == data
  {
    MorePowers();
    QuotientIs(data * 0x100 + byte, 0x100, data, byte);
  }

  /** With the fifth byte the 32 bits come from all forty. */
  lemma FunnelLong(data: nat, byte: nat, o: nat)
    requires o < 8 && byte < 0x100
    ensures Or(ShiftLeft(data, o) % TWO_32, ShiftRight(ShiftLeft(byte, o), 8)) == ShiftRight(data * 0x100 + byte, 8 - o) % TWO_32
  {
    hide ShiftRight, ShiftLeft, Or;
    MorePowers();
    UpAndDown(byte, o, 8);
    RightFits(byte, 8, 8 - o);
    var low := ShiftRight(byte, 8 - o);
    JoinedParts(data, byte, o);
    LeftModulo(data, o);
    OrLow(data % Pow2(32 - o), low, o);
    LowerPart(data, low, o);
  }

  /** The low 32 bits of a number shifted to the left. */
  lemma LeftModulo(data: nat, o: nat)
    requires o <= 32
    ensures ShiftLeft(data, o) % TWO_32 == ShiftLeft(data % Pow2(32 - o), o)
  {
    LowerPart(data, 0, o);
  }

  lemma JoinedParts(data: nat, byte: nat, o: nat)
    requires o < 8 && byte < 0x100
    ensures ShiftRight(data * 0x100 + byte, 8 - o) == ShiftLeft(data, o) + ShiftRight(byte, 8 - o)
  {
    MorePowers();
    PowAdds(o, 8 - o);
    JoinedQuotient(data, byte, Pow2(o), Pow2(8 - o));
  }

  lemma JoinedQuotient(data: nat, byte: nat, p: nat, r: nat)
    requires p * r == 0x100 && r > 0
    ensures (data * 0x100 + byte) / r == data * p + byte / r
  {
    var q, s := byte / r, byte % r;
    assert byte == q * r + s && data * (p * r) == (data * p) * r;
    assert (data * p + q) * r == (data * p) * r + q * r;
    QuotientIs(data * 0x100 + byte, r, data * p + q, s);
  }

  lemma LowerPart(data: nat, low: nat, o: nat)
    requires o <= 32 && low < Pow2(o)
    ensures (ShiftLeft(data, o) + low) % TWO_32 == ShiftLeft(data % Pow2(32 - o), o) + low
  {
    MorePowers();
    PowAdds(32 - o, o);
    LowModulo(data, low, Pow2(o), Pow2(32 - o), TWO_32);
  }

  /** What the handlers take out of memory is the field of the five bytes. */
  lemma FunnelIs(m: Space, ea: u32, o: nat, width: nat)
    requires o < 8 && 1 <= width <= 32
    ensures Funnel(m, ea, o, width) < TWO_32
    ensures ShiftRight(Funnel(m, ea, o, width), 32 - width) == Field(FiveBytes(m, ea), 40, o, width)
  {
    hide ShiftRight, ShiftLeft, Or, Load32;
    var data: nat, byte: nat := Load32(m, ea), m[U32(ea + 4)];
    MorePowers();
    if o + width > 32 {
      FunnelLong(data, byte, o);
      TopOfLow(ShiftRight(data * 0x100 + byte, 8 - o), 32, 32 - width);
      CutAgain(data * 0x100 + byte, 8 - o, 32 - width);
    } else {
      FunnelShort(data, byte, o, width);
    }
  }

  /** The address of the first byte of a field, and BFEXTU of memory. */
  function FieldAddress(base: u32, offset: s32): u32 {
    U32(base + ByteOffset(offset))
  }

  function Extracted(m: Space, base: u32, offset: s32, width: nat): nat
    requires 1 <= width <= 32
  {
    OffsetIsFloor(offset);
    ShiftRight(Funnel(m, FieldAddress(base, offset), BitOffset(offset), width), 32 - width)
  }

  lemma {:induction false} SliceRepeats(m: Space, p: int, q: int, width: nat)
    requires q == p || q == p + 8 * TWO_32 || q == p - 8 * TWO_32
    ensures Slice(m, p, width) == Slice(m, q, width)
  {
    hide MemoryBit;
    if width > 0 {
      SliceRepeats(m, p, q, width - 1);
      BitRepeats(m, p + width - 1, q + width - 1);
    }
  }

  lemma BitRepeats(m: Space, p: int, q: int)
    requires q == p || q == p + 8 * TWO_32 || q == p - 8 * TWO_32
    ensures MemoryBit(m, p) == MemoryBit(m, q)
  {
    AroundMemory(p / 8, q / 8);
  }

  lemma AroundMemory(a: int, b: int)
    requires b == a || b == a + TWO_32 || b == a - TWO_32
    ensures U32(a) == U32(b)
  {
    QuotientIs(b, TWO_32, a / TWO_32 + (if b == a then 0 else if b > a then 1 else -1), a % TWO_32);
  }

  /** BFEXTU gives exactly the `width` bits of memory that start `offset` bits from the address, for every
      signed offset and width, even when they lie in five bytes. */
  lemma ExtractIsSlice(m: Space, base: u32, offset: s32, width: nat)
    requires 1 <= width <= 32
    ensures Extracted(m, base, offset, width) == Slice(m, 8 * base + offset, width)
  {
    hide Funnel, Slice, FiveBytes, Field, ShiftRight;
    OffsetIsFloor(offset);
    var ea, o := FieldAddress(base, offset), offset % 8;
    FunnelIs(m, ea, o, width);
    SliceIs(m, ea, o, width);
    SliceRepeats(m, 8 * ea + o, 8 * base + offset, width);
  }

  /** A field as a signed number. */
  function SignedField(v: nat, width: nat): int
    requires width > 0
  {
    if v >= Pow2(width - 1) then v - Pow2(width) else v
  }

  /** `MAKE_INT_32(data) >> (32 - width)`: an arithmetic shift. */
  function ExtractedSigned(m: Space, base: u32, offset: s32, width: nat): int
    requires 1 <= width <= 32
  {
    OffsetIsFloor(offset);
    S32(Funnel(m, FieldAddress(base, offset), BitOffset(offset), width)) / Pow2(32 - width)
  }

  lemma SignedShift(f: nat, width: nat)
    requires f < TWO_32 && 1 <= width <= 32
    ensures S32(f) / Pow2(32 - width) == SignedField(ShiftRight(f, 32 - width), width)
    ensures f >= TWO_31 <==> ShiftRight(f, 32 - width) >= Pow2(width - 1)
  {
    MorePowers();
    assert Pow2(31) == TWO_31;
    assert Pow2(width) == 2 * Pow2(width - 1);
    hide Pow2;
    PowAdds(width - 1, 32 - width);
    SignedQuotient(f, Pow2(32 - width), Pow2(width - 1));
  }

  lemma SignedQuotient(f: nat, p: nat, h: nat)
    requires p > 0 && h * p == TWO_31 && f < TWO_32
    ensures f >= TWO_31 <==> f / p >= h
    ensures (f - TWO_32) / p == f / p - 2 * h
  {
    var q, s := f / p, f % p;
    assert f == q * p + s;
    Scaled(q - h, p);
    assert (q - h) * p == q * p - h * p;
    assert (q - 2 * h) * p == q * p - 2 * (h * p);
    QuotientIs(f - TWO_32, p, q - 2 * h, s);
  }

  /** BFEXTS gives the same bits as a signed number. */
  lemma SignedExtractIsSlice(m: Space, base: u32, offset: s32, width: nat)
    requires 1 <= width <= 32
    ensures ExtractedSigned(m, base, offset, width) == SignedField(Slice(m, 8 * base + offset, width), width)
  {
    hide Funnel, Slice, FiveBytes, Field, ShiftRight;
    OffsetIsFloor(offset);
    ExtractIsSlice(m, base, offset, width);
    var f := Funnel(m, FieldAddress(base, offset), BitOffset(offset), width);
    FunnelIs(m, FieldAddress(base, offset), BitOffset(offset), width);
    SignedShift(f, width);
  }

  // ---------------------------------------------------------------- the first one bit

  /** Bit `j` of a slice, counted from the left. */
  lemma {:induction false} SliceBit(m: Space, p: int, width: nat, j: nat)
    requires j < width
    ensures BitAt(Slice(m, p, width), width - 1 - j) == MemoryBit(m, p + j)
    decreases width
  {
    hide MemoryBit, BitAt;
    var v, b := Slice(m, p, width - 1), MemoryBit(m, p + width - 1);
    BitIsBit(m, p + width - 1);
    if j == width - 1 {
      BitBelow(v, b, 1, 0);
      OneBit(b);
    } else {
      SliceBit(m, p, width - 1, j);
      BitAbove(v, b, 1, width - 2 - j);
    }
    PowerOne();
  }

  lemma PowerOne()
    ensures Pow2(1) == 2
  {
  }

  lemma BitIsBit(m: Space, p: int)
    ensures MemoryBit(m, p) < 2
  {
  }

  lemma OneBit(b: nat)
    requires b < 2
    ensures BitAt(b, 0) == b
  {
  }

  /** `j` is the place of the first one among the `width` bits of memory from `p` on, or `width`. */
  predicate FirstOne(m: Space, p: int, width: nat, j: nat) {
    && j <= width && (j < width ==> MemoryBit(m, p + j) == 1)
    && forall q :: p <= q < p + j ==> MemoryBit(m, q) == 0
  }

  // ---------------------------------------------------------------- the handlers for memory

  /** The offset that the extension word gives, itself or in a data register. */
  function OffsetOf(word: u16, registers: seq<u32>): s32
    requires |registers| == 16
  {
    var o := word / 0x40 % 32;
    if Bit(word, 0x800) == 1 then S32(registers[o % 8]) else o
  }

  /** The width, from the extension word or from a data register, where 0 stands for 32. */
  function WidthOf(word: u16, registers: seq<u32>): (width: nat)
    requires |registers| == 16
    ensures 1 <= width <= 32
  {
    U32((if Bit(word, 0x20) == 1 then registers[word % 8] else word) - 1) % 32 + 1
  }

  /** The data register that takes the result or holds the value to insert. */
  function RegisterOf(word: u16): (dn: nat)
    ensures dn < 8
  {
    word / 0x1000 % 8
  }

  /** How the extension word is made: a register in bits 12 to 14, bit 11 for an offset in a register, the
      offset or its register in bits 6 to 10, bit 5 for a width in a register, the width or its register
      in bits 0 to 4. A width is taken modulo 32, with 32 for 0. */
  lemma WordDecodes(b: nat, r: nat, inO: nat, o: nat, inW: nat, w: nat, registers: seq<u32>)
    requires b < 2 && r < 8 && inO < 2 && o < 32 && inW < 2 && w < 32 && |registers| == 16
    ensures var word := b * 0x8000 + r * 0x1000 + inO * 0x800 + o * 0x40 + inW * 0x20 + w;
      && RegisterOf(word) == r
      && OffsetOf(word, registers) == (if inO == 1 then S32(registers[o % 8]) else o)
      && var x := if inW == 1 then registers[w % 8] else w;
        WidthOf(word, registers) == if x % 32 == 0 then 32 else x % 32
  {
    var high := b * 8 + r;
    var word: u16 := high * 0x1000 + inO * 0x800 + o * 0x40 + inW * 0x20 + w;
    QuotientIs(word, 0x1000, high, inO * 0x800 + o * 0x40 + inW * 0x20 + w);
    QuotientIs(high, 8, b, r);
    BitIs(high, inO, o * 0x40 + inW * 0x20 + w, 0x800);
    QuotientIs(word, 0x40, high * 0x40 + inO * 32 + o, inW * 0x20 + w);
    QuotientIs(high * 0x40 + inO * 32 + o, 32, high * 2 + inO, o);
    BitIs(high * 0x40 + inO * 32 + o, inW, w, 0x20);
    QuotientIs(word, 32, high * 0x80 + inO * 0x40 + o * 2 + inW, w);
    QuotientIs(word, 8, high * 0x200 + inO * 0x100 + o * 8 + inW * 4 + w / 8, w % 8);
    WidthIs(if inW == 1 then registers[w % 8] else word);
    hide Bit;
  }

  lemma WidthIs(x: u32)
    ensures U32(x - 1) % 32 + 1 == if x % 32 == 0 then 32 else x % 32
  {
    var q, r := x / 32, x % 32;
    if x == 0 {
      assert U32(-1) == 0xffff_ffff;
    } else if r == 0 {
      QuotientIs(x - 1, 32, q - 1, 31);
    } else {
      QuotientIs(x - 1, 32, q, r - 1);
    }
  }

  /** The two numbers, as the handlers compute them. */
  method OffsetAndWidth(cpu: Processor.Cpu, word: u16) returns (offset: s32, width: nat)
    requires cpu.Shape()
    ensures offset == OffsetOf(word, cpu.dar[..]) && width == WidthOf(word, cpu.dar[..])
  {
    offset := word / 0x40 % 32;
    var w: u32 := word;
    if Bit(word, 0x800) == 1 {
      offset := S32(cpu.dar[offset % 8]);
    }
    if Bit(word, 0x20) == 1 {
      w := cpu.dar[w % 8];
    }
    width := U32(w - 1) % 32 + 1;
  }

  lemma SignOfLong(f: u32)
    ensures Bit(f / 0x100_0000, 0x80) == 1 <==> f >= TWO_31
  {
    QuotientIs(f / 0x100_0000, 0x80, f / TWO_31, f / 0x100_0000 % 0x80);
  }

  /** The reads and shifts that bring a field to the top of 32 bits. */
  method FetchField(cpu: Processor.Cpu, ea: u32, offset: nat, width: nat) returns (data: u32)
    requires cpu.Shape() && offset < 8 && 1 <= width <= 32
    ensures data == Funnel(cpu.ram[..], ea, offset, width)
  {
    hide Load32, ShiftLeft, ShiftRight, Or;
    ghost var m: Space := cpu.ram[..];
    FunnelIs(m, ea, offset, width);
    var long := cpu.Read32(ea);
    var top := ShiftLeft(long, offset) % TWO_32;
    if offset + width > 32 {
      top := Or(top, ShiftRight(ShiftLeft(cpu.ram[U32(ea + 4)], offset), 8));
    }
    data := top;
  }

  /** What the handlers leave: one register and the flags. */
  twostate predicate Leaves(cpu: Processor.Cpu, dn: nat, value: u32, field: nat, width: nat)
    requires cpu.Shape() && dn < 8 && width > 0
    reads cpu, cpu.dar, cpu.sp, cpu.ram
  {
    && cpu.dar[..] == old(cpu.dar[..])[dn := value]
    && (Bit(cpu.n, 0x80) == 1 <==> field >= Pow2(width - 1)) && (cpu.notZ == 0 <==> field == 0)
    && cpu.v == 0 && cpu.c == 0
    && cpu.View() == old(cpu.View()).(n := cpu.n, nz := cpu.notZ, v := 0, c := 0)
  }

  method SetFlags(cpu: Processor.Cpu, data: u32, field: u32, width: nat)
    requires cpu.Shape() && 1 <= width <= 32 && field as int == ShiftRight(data, 32 - width)
    modifies cpu`n, cpu`notZ, cpu`v, cpu`c
    ensures Bit(cpu.n, 0x80) == 1 <==> field >= Pow2(width - 1)
    ensures (cpu.notZ == 0 <==> field == 0) && cpu.v == 0 && cpu.c == 0
  {
    SignOfLong(data);
    SignedShift(data, width);
    cpu.n := data / 0x100_0000;
    cpu.notZ := field;
    cpu.v, cpu.c := 0, 0;
  }

  /** The field and the flags, as every handler makes them first. */
  method TakeField(cpu: Processor.Cpu, base: u32, offset: s32, width: nat) returns (data: u32, field: u32)
    requires cpu.Shape() && 1 <= width <= 32
    modifies cpu`n, cpu`notZ, cpu`v, cpu`c
    ensures field as int == Slice(cpu.ram[..], 8 * base + offset, width) == ShiftRight(data, 32 - width)
    ensures Bit(cpu.n, 0x80) == 1 <==> field >= Pow2(width - 1)
    ensures (cpu.notZ == 0 <==> field == 0) && cpu.v == 0 && cpu.c == 0
  {
    hide Slice, ShiftRight, Pow2, Bit;
    OffsetIsFloor(offset);
    ExtractIsSlice(cpu.ram[..], base, offset, width);
    data := FetchField(cpu, FieldAddress(base, offset), BitOffset(offset), width);
    RightFits32(data, width);
    var top := ShiftRight(data, 32 - width);
    field := top;
    SetFlags(cpu, data, field, width);
  }

  lemma RightFits32(data: u32, width: nat)
    requires 1 <= width <= 32
    ensures ShiftRight(data, 32 - width) < TWO_32
  {
    QuotientBelow(data, Pow2(32 - width));
  }

  method Bfextu(cpu: Processor.Cpu, base: u32, word: u16)
    requires cpu.Shape()
    modifies cpu, cpu.dar
    ensures var width := WidthOf(word, old(cpu.dar[..]));
      var v := Slice(old(cpu.ram[..]), 8 * base + OffsetOf(word, old(cpu.dar[..])), width);
      v < TWO_32 && Leaves(cpu, RegisterOf(word), v, v, width)
  {
    hide Slice, ShiftRight, Pow2, Bit, OffsetOf, WidthOf, RegisterOf;
    var offset, width := OffsetAndWidth(cpu, word);
    var data, field := TakeField(cpu, base, offset, width);
    cpu.dar[RegisterOf(word)] := field;
  }

  method Bfexts(cpu: Processor.Cpu, base: u32, word: u16)
    requires cpu.Shape()
    modifies cpu, cpu.dar
    ensures var width := WidthOf(word, old(cpu.dar[..]));
      var v := Slice(old(cpu.ram[..]), 8 * base + OffsetOf(word, old(cpu.dar[..])), width);
      Leaves(cpu, RegisterOf(word), U32(SignedField(v, width)), v, width)
  {
    hide Slice, ShiftRight, Pow2, Bit, OffsetOf, WidthOf, RegisterOf;
    var offset, width := OffsetAndWidth(cpu, word);
    var data, field := TakeField(cpu, base, offset, width);
    SignedShift(data, width);
    cpu.dar[RegisterOf(word)] := U32(S32(data) / Pow2(32 - width));
  }

  /** The loop of BFFFO over the bits of the field. */
  method CountZeros(field: u32, width: nat, ghost m: Space, ghost p: int) returns (j: nat)
    requires 1 <= width <= 32 && field as int == Slice(m, p, width)
    ensures FirstOne(m, p, width, j)
  {
    hide Slice, MemoryBit, BitAt;
    j := 0;
    while j < width && BitAt(field, width - 1 - j) == 0
      invariant j <= width && forall q :: p <= q < p + j ==> MemoryBit(m, q) == 0
    {
      SliceBit(m, p, width, j);
      j := j + 1;
    }
    if j < width {
      SliceBit(m, p, width, j);
      BitIsBit(m, p + j);
    }
  }

  method Bfffo(cpu: Processor.Cpu, base: u32, word: u16) returns (ghost j: nat)
    requires cpu.Shape()
    modifies cpu, cpu.dar
    ensures var offset, width := OffsetOf(word, old(cpu.dar[..])), WidthOf(word, old(cpu.dar[..]));
      && FirstOne(old(cpu.ram[..]), 8 * base + offset, width, j)
      && Leaves(cpu, RegisterOf(word), U32(offset + j), Slice(old(cpu.ram[..]), 8 * base + offset, width), width)
  {
    hide Slice, ShiftRight, Pow2, Bit, FirstOne, OffsetOf, WidthOf, RegisterOf;
    var offset, width := OffsetAndWidth(cpu, word);
    var data, field := TakeField(cpu, base, offset, width);
    var zeros := CountZeros(field, width, cpu.ram[..], 8 * base + offset);
    cpu.dar[RegisterOf(word)] := U32(offset + zeros);
    j := zeros;
  }

  // ---------------------------------------------------------------- a register: insert and extract

  /** ROL_32 and ROR_32. */
  function Rol32(x: u32, k: nat): nat
    requires k < 32
  {
    RolBits(x, 32, k) % TWO_32
  }

  function Ror32(x: u32, k: nat): nat
    requires k < 32
  {
    RorBits(x, 32, k) % TWO_32
  }

  lemma RolIs(x: u32, k: nat)
    requires k < 32
    ensures Rol32(x, k) == Rotated(x, 32, k) < TWO_32
  {
    MorePowers();
    var a := RolBitsIs(x, 32, k);
    QuotientIs(a * TWO_32 + Rotated(x, 32, k), TWO_32, a, Rotated(x, 32, k));
  }

  lemma RorIs(x: u32, k: nat)
    requires k < 32
    ensures Ror32(x, k) == Rotated(x, 32, 32 - k) < TWO_32
  {
    MorePowers();
    var a := RolBitsIs(x, 32, 32 - k);
    QuotientIs(a * TWO_32 + Rotated(x, 32, 32 - k), TWO_32, a, Rotated(x, 32, 32 - k));
  }

  /** BFEXTU of a register, `offset` already reduced to 0 to 31. */
  function RegisterField(x: u32, offset: nat, width: nat): nat
    requires offset < 32 && 1 <= width <= 32
  {
    RolIs(x, offset);
    ShiftRight(Rol32(x, offset), 32 - width)
  }

  /** BFINS of a register: the mask and the value are rotated into place. */
  function Inserted(x: u32, value: u32, offset: nat, width: nat): nat
    requires offset < 32 && 1 <= width <= 32
  {
    InsertParts(value, width);
    var mask := Ror32(ShiftLeft(0xffff_ffff, 32 - width) % TWO_32, offset);
    var insert := Ror32(ShiftLeft(value, 32 - width) % TWO_32, offset);
    RorIs(ShiftLeft(0xffff_ffff, 32 - width) % TWO_32, offset);
    Or(And(x, 0xffff_ffff - mask), insert)
  }

  /** The mask and the value before they are rotated. */
  lemma InsertParts(value: u32, width: nat)
    requires 1 <= width <= 32
    ensures ShiftLeft(0xffff_ffff, 32 - width) % TWO_32 == (Pow2(width) - 1) * Pow2(32 - width) < TWO_32
    ensures ShiftLeft(value, 32 - width) % TWO_32 == value % Pow2(width) * Pow2(32 - width) < TWO_32
  {
    LowerPart(0xffff_ffff, 0, 32 - width);
    LowerPart(value, 0, 32 - width);
    MorePowers();
    PowAdds(width, 32 - width);
    OnesModulo(Pow2(width), Pow2(32 - width));
  }

  lemma OnesModulo(r: nat, p: nat)
    requires r * p == TWO_32 && p > 0 && r > 0
    ensures 0xffff_ffff % r == r - 1
  {
    assert (p - 1) * r == p * r - r;
    QuotientIs(0xffff_ffff, r, p - 1, r - 1);
  }

  /** A number of two parts, the lower one of `k` bits. */
  function Joined(high: nat, low: nat, k: nat): nat {
    ShiftLeft(high, k) + low
  }

  lemma CutJoined(x: nat, n: nat, k: nat) returns (high: nat, low: nat)
    requires x < Pow2(n) && k <= n
    ensures high < Pow2(n - k) && low < Pow2(k) && x == Joined(high, low, k)
  {
    high, low := Cut(x, k);
    QuotientFits(high, low, k, n);
  }

  lemma JoinedRotated(high: nat, low: nat, n: nat, k: nat)
    requires k <= n && low < Pow2(n - k) && high < Pow2(k)
    ensures Rotated(Joined(high, low, n - k), n, k) == Joined(low, high, k) < Pow2(n)
  {
    hide Rotated;
    RotatedParts(high, low, n, k);
  }

  lemma JoinedAnd(a: nat, b: nat, c: nat, d: nat, k: nat)
    requires b < Pow2(k) && d < Pow2(k)
    ensures And(Joined(a, b, k), Joined(c, d, k)) == Joined(And(a, c), And(b, d), k)
  {
    hide And;
    AndJoins(a, b, c, d, k);
  }

  lemma JoinedOr(a: nat, b: nat, c: nat, d: nat, k: nat)
    requires b < Pow2(k) && d < Pow2(k)
    ensures Or(Joined(a, b, k), Joined(c, d, k)) == Joined(Or(a, c), Or(b, d), k)
  {
    hide And, Or;
    OrJoins(a, b, c, d, k);
  }

  lemma JoinedNot(a: nat, b: nat, n: nat, k: nat)
    requires k <= n && a < Pow2(n - k) && b < Pow2(k)
    ensures Pow2(n) - 1 - Joined(a, b, k) == Joined(Pow2(n - k) - 1 - a, Pow2(k) - 1 - b, k)
  {
    PowAdds(n - k, k);
    var p: int, r: int := Pow2(k), Pow2(n - k);
    assert (r - 1 - a) * p == r * p - p - a * p;
  }

  /** Rotation of a mask and a number together. */
  lemma AndRotated(x: nat, y: nat, n: nat, k: nat)
    requires x < Pow2(n) && y < Pow2(n) && k <= n
    ensures And(Rotated(x, n, k), Rotated(y, n, k)) == Rotated(And(x, y), n, k)
  {
    hide And, Rotated, Pow2, Joined;
    var a, b := CutJoined(x, n, n - k);
    var c, d := CutJoined(y, n, n - k);
    JoinedRotated(a, b, n, k);
    JoinedRotated(c, d, n, k);
    JoinedAnd(a, b, c, d, n - k);
    JoinedAnd(b, a, d, c, k);
    JoinedRotated(And(a, c), And(b, d), n, k);
  }

  lemma OrRotated(x: nat, y: nat, n: nat, k: nat)
    requires x < Pow2(n) && y < Pow2(n) && k <= n
    ensures Or(Rotated(x, n, k), Rotated(y, n, k)) == Rotated(Or(x, y), n, k)
  {
    hide And, Or, Rotated, Pow2, Joined;
    var a, b := CutJoined(x, n, n - k);
    var c, d := CutJoined(y, n, n - k);
    JoinedRotated(a, b, n, k);
    JoinedRotated(c, d, n, k);
    JoinedOr(a, b, c, d, n - k);
    JoinedOr(b, a, d, c, k);
    OrBelow(a, c, k);
    OrBelow(b, d, n - k);
    JoinedRotated(Or(a, c), Or(b, d), n, k);
  }

  /** The complement of a rotated number is the rotated complement. */
  lemma NotRotated(x: nat, n: nat, k: nat)
    requires x < Pow2(n) && k <= n
    ensures Rotated(x, n, k) < Pow2(n)
    ensures Rotated(Pow2(n) - 1 - x, n, k) == Pow2(n) - 1 - Rotated(x, n, k)
  {
    hide Rotated, Pow2, Joined;
    var a, b := CutJoined(x, n, n - k);
    JoinedRotated(a, b, n, k);
    JoinedNot(a, b, n, n - k);
    JoinedNot(b, a, n, k);
    JoinedRotated(Pow2(k) - 1 - a, Pow2(n - k) - 1 - b, n, k);
  }

  /** Seen through the rotation that brings the field to the top, BFINS replaces the top `width` bits by
      those of the value and keeps the others. */
  lemma InsertedIs(x: u32, value: u32, offset: nat, width: nat)
    requires offset < 32 && 1 <= width <= 32
    ensures var y := Inserted(x, value, offset, width);
      && Rotated(x, 32, offset) < TWO_32 && y < TWO_32
      && Rotated(y, 32, offset) == Joined(value % Pow2(width), Rotated(x, 32, offset) % Pow2(32 - width), 32 - width)
  {
    hide And, Or, Rotated, Joined, Ror32, ShiftLeft, Pow2;
    MorePowers();
    var k, w := 32 - offset, 32 - width;
    var z := Rotated(x, 32, offset);
    var top, v := ShiftLeft(0xffff_ffff, w) % TWO_32, ShiftLeft(value, w) % TWO_32;
    RolIs(x, offset);
    RotatedBack(x, 32, offset);
    RorIs(top, offset);
    RorIs(v, offset);
    NotRotated(top, 32, k);
    AndRotated(z, 0xffff_ffff - top, 32, k);
    AndBelow(z, 0xffff_ffff - top);
    OrRotated(And(z, 0xffff_ffff - top), v, 32, k);
    InsertMasks(z, value, width);
    var joined := Joined(value % Pow2(width), z % Pow2(w), w);
    RotatedBack(joined, 32, k);
  }

  lemma AndBelow(x: u32, y: int)
    requires y >= 0
    ensures And(x, y) < TWO_32
  {
  }

  /** Masking out the top bits and putting others there. */
  lemma InsertMasks(z: u32, value: u32, width: nat)
    requires 1 <= width <= 32
    ensures var w := 32 - width;
      var top, v := ShiftLeft(0xffff_ffff, w) % TWO_32, ShiftLeft(value, w) % TWO_32;
      && top < TWO_32 && Or(And(z, 0xffff_ffff - top), v) == Joined(value % Pow2(width), z % Pow2(w), w) < TWO_32
  {
    hide And, Or, Pow2, ShiftLeft;
    var w := 32 - width;
    MorePowers();
    PowAdds(width, w);
    InsertParts(value, width);
    ComplementOfTop(Pow2(width), Pow2(w));
    AndLow(z, w);
    LowFits(z, w);
    LowFits(value, width);
    TopAndLow(value % Pow2(width), z % Pow2(w), w);
    JoinBelow(value % Pow2(width), z % Pow2(w), Pow2(width), Pow2(w));
  }

  lemma ComplementOfTop(r: nat, p: nat)
    requires r * p == TWO_32
    ensures 0xffff_ffff - (r - 1) * p == p - 1
  {
    assert (r - 1) * p == r * p - p;
  }

  lemma LowFits(z: nat, k: nat)
    ensures 0 <= z % Pow2(k) < Pow2(k)
  {
  }

  lemma AndLow(z: nat, k: nat)
    ensures And(z, Pow2(k) - 1) == z % Pow2(k)
  {
    hide And, Pow2;
    var q, s := Cut(z, k);
    AndJoins(q, s, 0, Pow2(k) - 1, k);
    AndNone(q, 0);
    AndOnes(s, k);
    QuotientIs(z, Pow2(k), q, s);
  }

  lemma TopAndLow(high: nat, low: nat, k: nat)
    requires low < Pow2(k)
    ensures high * Pow2(k) >= 0 && Or(low, high * Pow2(k)) == Joined(high, low, k) == high * Pow2(k) + low
  {
    hide And, Or;
    OrLow(high, low, k);
  }

  /** Extracting what was inserted gives the low bits of the value, for every offset and width, with
      wraparound. */
  lemma InsertThenExtract(x: u32, value: u32, offset: nat, width: nat)
    requires offset < 32 && 1 <= width <= 32
    ensures Inserted(x, value, offset, width) < TWO_32
    ensures RegisterField(Inserted(x, value, offset, width), offset, width) == value % Pow2(width)
  {
    hide And, Or, Rotated, Inserted, Rol32, ShiftLeft;
    MorePowers();
    InsertedIs(x, value, offset, width);
    RolIs(Inserted(x, value, offset, width), offset);
    TopOfJoined(value % Pow2(width), Rotated(x, 32, offset) % Pow2(32 - width), 32 - width);
  }

  lemma TopOfJoined(high: nat, low: nat, k: nat)
    requires low < Pow2(k)
    ensures ShiftRight(Joined(high, low, k), k) == high
  {
    QuotientIs(Joined(high, low, k), Pow2(k), high, low);
  }

  /** The bit at place `j` of a rotated number, from the left. */
  lemma RotatedBit(y: nat, n: nat, k: nat, j: nat)
    requires y < Pow2(n) && k <= n && j < n
    ensures BitAt(Rotated(y, n, k), n - 1 - j) == BitAt(y, n - 1 - (if j + k < n then j + k else j + k - n))
  {
    hide Rotated, BitAt;
    var high, low := CutJoined(y, n, n - k);
    JoinedRotated(high, low, n, k);
    if j + k < n {
      BitAbove(low, high, k, n - 1 - j - k);
      BitBelow(high, low, n - k, n - 1 - j - k);
    } else {
      BitBelow(low, high, k, n - 1 - j);
      BitAbove(high, low, n - k, n - 1 - j);
    }
  }

  /** Bit by bit, counted from the left and around the end of the register: BFINS writes the `width` bits
      from `offset` on and no other. */
  lemma InsertedBits(x: u32, value: u32, offset: nat, width: nat, j: nat)
    requires offset < 32 && 1 <= width <= 32 && j < 32
    ensures var i := 31 - (if j + offset < 32 then j + offset else j + offset - 32);
      BitAt(Inserted(x, value, offset, width), i) == if j < width then BitAt(value, width - 1 - j) else BitAt(x, i)
  {
    hide Rotated, BitAt, Inserted, Joined;
    MorePowers();
    var y, w, z := Inserted(x, value, offset, width), 32 - width, Rotated(x, 32, offset);
    InsertedIs(x, value, offset, width);
    RotatedBit(y, 32, offset, j);
    RotatedBit(x, 32, offset, j);
    if j < width {
      JoinedBit(value % Pow2(width), z % Pow2(w), w, width - 1 - j);
      LowBits(value, width, width - 1 - j);
    } else {
      JoinedLow(value % Pow2(width), z % Pow2(w), w, 31 - j);
      LowBits(z, w, 31 - j);
    }
  }

  lemma JoinedBit(high: nat, low: nat, k: nat, i: nat)
    requires low < Pow2(k)
    ensures BitAt(Joined(high, low, k), k + i) == BitAt(high, i)
  {
    BitAbove(high, low, k, i);
  }

  lemma JoinedLow(high: nat, low: nat, k: nat, i: nat)
    requires low < Pow2(k) && i < k
    ensures BitAt(Joined(high, low, k), i) == BitAt(low, i)
  {
    BitBelow(high, low, k, i);
  }

  /** Bit by bit, counted from the left and around the end of the register: what BFEXTU takes from it. */
  lemma RegisterFieldBits(x: u32, offset: nat, width: nat, j: nat)
    requires offset < 32 && 1 <= width <= 32 && j < width
    ensures RegisterField(x, offset, width) < Pow2(width)
    ensures BitAt(RegisterField(x, offset, width), width - 1 - j) == BitAt(x, 31 - (if j + offset < 32 then j + offset else j + offset - 32))
  {
    hide Rotated, BitAt, Pow2, Rol32;
    MorePowers();
    RolIs(x, offset);
    var z := Rotated(x, 32, offset);
    var q, s := Cut(z, 32 - width);
    QuotientFits(q, s, 32 - width, 32);
    RotatedBit(x, 32, offset, j);
    BitAbove(q, s, 32 - width, width - 1 - j);
  }

  /** The BFEXTU handler for a register. */
  method BfextuRegister(cpu: Processor.Cpu, dy: nat, word: u16)
    requires cpu.Shape() && dy < 8
    modifies cpu, cpu.dar
    ensures var width := WidthOf(word, old(cpu.dar[..]));
      var v := RegisterField(old(cpu.dar[dy]), OffsetOf(word, old(cpu.dar[..])) % 32, width);
      v < TWO_32 && Leaves(cpu, RegisterOf(word), v, v, width)
  {
    hide ShiftRight, Pow2, Bit, OffsetOf, WidthOf, RegisterOf, Rol32;
    var offset, width := OffsetAndWidth(cpu, word);
    RolIs(cpu.dar[dy], offset % 32);
    var data := Rol32(cpu.dar[dy], offset % 32);
    RightFits32(data, width);
    var field := ShiftRight(data, 32 - width);
    SetFlags(cpu, data, field, width);
    cpu.dar[RegisterOf(word)] := field;
  }

  /** The BFINS handler for a register. */
  method BfinsRegister(cpu: Processor.Cpu, dy: nat, word: u16)
    requires cpu.Shape() && dy < 8
    modifies cpu, cpu.dar
    ensures var offset, width := OffsetOf(word, old(cpu.dar[..])) % 32, WidthOf(word, old(cpu.dar[..]));
      var y := Inserted(old(cpu.dar[dy]), old(cpu.dar[RegisterOf(word)]), offset, width);
      var v := old(cpu.dar[RegisterOf(word)]) % Pow2(width);
      y < TWO_32 && Leaves(cpu, dy, y, v, width)
  {
    hide Bit, Inserted, ShiftLeft, Pow2, OffsetOf, WidthOf, RegisterOf;
    var signed, width := OffsetAndWidth(cpu, word);
    var offset := signed % 32;
    var value := cpu.dar[RegisterOf(word)];
    InsertSign(value, width);
    InsertedIs(cpu.dar[dy], value, offset, width);
    var y := Insert(cpu.dar[dy], value, offset, width);
    var insert := ShiftLeft(value, 32 - width) % TWO_32;
    cpu.n := insert / 0x100_0000;
    cpu.notZ := insert;
    cpu.v, cpu.c := 0, 0;
    cpu.dar[dy] := y;
  }

  /** Mask out the field, then put the value there. */
  method Insert(x: u32, value: u32, offset: nat, width: nat) returns (y: nat)
    requires offset < 32 && 1 <= width <= 32
    ensures y == Inserted(x, value, offset, width)
  {
    hide And, Or, ShiftLeft, Ror32;
    InsertParts(value, width);
    RorIs(ShiftLeft(0xffff_ffff, 32 - width) % TWO_32, offset);
    var mask := Ror32(ShiftLeft(0xffff_ffff, 32 - width) % TWO_32, offset);
    var insert := Ror32(ShiftLeft(value, 32 - width) % TWO_32, offset);
    y := And(x, 0xffff_ffff - mask);
    y := Or(y, insert);
  }

  /** Sign and zero of a field are those of the field at the top of 32 bits. */
  lemma InsertSign(value: u32, width: nat)
    requires 1 <= width <= 32
    ensures var insert, v := ShiftLeft(value, 32 - width) % TWO_32, value % Pow2(width);
      && insert < TWO_32 && (insert == 0 <==> v == 0)
      && (Bit(insert / 0x100_0000, 0x80) == 1 <==> v >= Pow2(width - 1))
  {
    hide Bit, ShiftLeft;
    InsertParts(value, width);
    MorePowers();
    assert Pow2(31) == TWO_31;
    PowAdds(width - 1, 32 - width);
    AtLeastTimes(value % Pow2(width), Pow2(width - 1), Pow2(32 - width));
    SignOfLong(value % Pow2(width) * Pow2(32 - width));
  }

  lemma AtLeastTimes(v: nat, h: nat, p: nat)
    requires p > 0
    ensures v * p >= h * p <==> v >= h
    ensures v * p == 0 <==> v == 0
  {
    Scaled(v, p);
    Scaled(v - h, p);
    assert (v - h) * p == v * p - h * p;
  }
}
