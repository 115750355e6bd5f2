/** Machine words: the C integer widths the emulator relies on, as ranges of `int`. */
module Words {
  const TWO_31: int := 0x8000_0000
  const TWO_32: int := 0x1_0000_0000

  type u8 = x: int | 0 <= x < 0x100
  type u16 = x: int | 0 <= x < 0x1_0000
  type u32 = x: int | 0 <= x < 0x1_0000_0000
  type s32 = x: int | -0x8000_0000 <= x < 0x8000_0000

  datatype Option<+T> = None | Some(value: T)

  /** The value of `x` stored in an unsigned 32-bit variable. */
  function U32(x: int): (r: u32)
    ensures 0 <= x < TWO_32 ==> r == x
  {
    if 0 <= x < TWO_32 then x else x % TWO_32
  }

  /** The value of `x` stored in a signed 32-bit variable. */
  function S32(x: int): (r: s32)
    ensures -TWO_31 <= x < TWO_31 ==> r == x
  {
    if -TWO_31 <= x < TWO_31 then x
    else if x % TWO_32 < TWO_31 then x % TWO_32 else x % TWO_32 - TWO_32
  }

  /** `(size + 3) & ~3` on a signed 32-bit size. */
  function RoundUp4(size: s32): (r: s32)
    ensures r % 4 == 0
    ensures size + 3 < TWO_31 ==> size <= r <= size + 3
    ensures size + 3 >= TWO_31 ==> r == -TWO_31
  {
    var t := S32(size + 3);
    t - t % 4
  }

  /** Division with remainder has one answer. */
  lemma QuotientIs(x: int, d: int, q: int, r: int)
    requires d > 0 && x == q * d + r && 0 <= r < d
    ensures x / d == q && x % d == r
  {
    var q', r' := x / d, x % d;
    assert (q - q') * d == r' - r;
    assert q - q' >= 1 ==> (q - q') * d >= d;
    assert q - q' <= -1 ==> (q - q') * d <= -d;
  }

  lemma Scaled(q: int, k: int)
    requires k > 0
    ensures q >= 0 ==> q * k >= q
    ensures q < 0 ==> q * k <= -k
  {
    if q >= 0 {
      assert q * (k - 1) >= 0;
    } else {
      assert (-q - 1) * k >= 0;
    }
  }

  lemma QuotientBelow(x: int, k: int)
    requires x >= 0 && k > 0
    ensures 0 <= x / k <= x
  {
    var q, r := x / k, x % k;
    assert x == q * k + r;
    Scaled(q, k);
  }

  lemma QuotientBetween(a: nat, b: nat, k: nat)
    requires b > 0
    ensures a / b == k <==> k * b <= a < (k + 1) * b
    ensures 0 <= a / b && 0 <= a % b < b
  {
    var q, r := a / b, a % b;
    assert a == q * b + r;
    Scaled(q, b);
    assert (k + 1) * b == k * b + b;
    if k * b <= a < k * b + b {
      QuotientIs(a, b, k, a - k * b);
    }
  }

  /** The bit of weight `k`. */
  function Bit(x: int, k: int): (r: int)
    requires k > 0
    ensures 0 <= r < 2
  {
    x / k % 2
  }

  /** Taking one bit off the end. */
  lemma BitTaken(x: int, k: int)
    requires k > 0
    ensures x / k == 2 * (x / (2 * k)) + Bit(x, k)
  {
    var q, r := x / k, x % k;
    var h, b := q / 2, q % 2;
    assert 0 <= b * k <= k by {
      if b == 0 {
      } else {
        assert b == 1;
      }
    }
    assert (2 * h + b) * k == h * (2 * k) + b * k;
    QuotientIs(x, 2 * k, h, b * k + r);
  }

  /** The bit of a number written as higher part, bit and lower part. */
  lemma BitIs(high: int, bit: int, low: int, k: int)
    requires k > 0 && 0 <= bit < 2 && 0 <= low < k
    ensures Bit((2 * high + bit) * k + low, k) == bit
  {
    QuotientIs((2 * high + bit) * k + low, k, 2 * high + bit, low);
  }

  function Pow2(n: nat): (r: nat)
    ensures r >= 1
  {
    if n == 0 then 1 else 2 * Pow2(n - 1)
  }

  lemma {:induction false} Grows(a: nat, b: nat)
    requires a <= b
    ensures Pow2(a) <= Pow2(b)
  {
    if a < b {
      Grows(a, b - 1);
    }
  }

  /** `x >> k`. */
  function ShiftRight(x: nat, k: nat): nat {
    QuotientBelow(x, Pow2(k));
    x / Pow2(k)
  }

  /** `(x >> i) & 1`. */
  function BitAt(x: nat, i: nat): (r: nat)
    ensures r < 2
  {
    Bit(x, Pow2(i))
  }

  /** Registers 8 to 15 of the register file are A0 to A7. */
  predicate AddressRegister(r: nat) {
    8 <= r < 16
  }
}
