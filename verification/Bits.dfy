/** Bitwise AND and OR of non-negative numbers, for masks. */
module Bits {
  import opened Words

  function And(x: nat, y: nat): (r: nat)
    ensures r <= x && r <= y
  {
    if x == 0 then 0 else 2 * And(x / 2, y / 2) + (if x % 2 == 1 && y % 2 == 1 then 1 else 0)
  }

  function Or(x: nat, y: nat): (r: nat)
    ensures x <= r && y <= r <= x + y
  {
    x + y - And(x, y)
  }

  /** AND works on the two parts of a number separately. */
  lemma {:induction false} AndJoins(a: nat, b: nat, c: nat, d: nat, k: nat)
    requires b < Pow2(k) && d < Pow2(k)
    ensures And(a * Pow2(k) + b, c * Pow2(k) + d) == And(a, c) * Pow2(k) + And(b, d)
    decreases k
  {
    hide And;
    if k == 0 {
      AndZero(0);
    } else {
      AndJoins(a, b / 2, c, d / 2, k - 1);
      OneMoreBit(a, b, c, d, Pow2(k - 1));
    }
  }

  lemma OneMoreBit(a: nat, b: nat, c: nat, d: nat, p: nat)
    requires a * p >= 0 && c * p >= 0 && And(a * p + b / 2, c * p + d / 2) == And(a, c) * p + And(b / 2, d / 2)
    ensures a * (2 * p) + b >= 0 && c * (2 * p) + d >= 0
    ensures And(a * (2 * p) + b, c * (2 * p) + d) == And(a, c) * (2 * p) + And(b, d)
  {
    hide And;
    Halved(a, b, p);
    Halved(c, d, p);
    AndOfHalves(a * (2 * p) + b, c * (2 * p) + d);
    AndOfHalves(b, d);
    var m: int := And(a, c);
    assert m * (2 * p) == 2 * (m * p);
  }

  lemma AndOfHalves(x: nat, y: nat)
    ensures And(x, y) == 2 * And(x / 2, y / 2) + (if x % 2 == 1 && y % 2 == 1 then 1 else 0)
  {
  }

  lemma Halved(a: nat, b: nat, p: nat)
    ensures (a * (2 * p) + b) / 2 == a * p + b / 2 && (a * (2 * p) + b) % 2 == b % 2
    ensures a * (2 * p) + b >= 0 && a * p >= 0
  {
    assert a * (2 * p) == 2 * (a * p);
    assert a * p >= 0;
    QuotientIs(a * (2 * p) + b, 2, a * p + b / 2, b % 2);
  }

  /** AND with ones keeps everything, AND with zero nothing. */
  lemma {:induction false} AndOnes(x: nat, k: nat)
    requires x < Pow2(k)
    ensures And(x, Pow2(k) - 1) == x
    decreases k
  {
    if k > 0 && x > 0 {
      AndOnes(x / 2, k - 1);
      assert (Pow2(k) - 1) / 2 == Pow2(k - 1) - 1;
    }
  }

  lemma {:induction false} AndZero(x: nat)
    ensures And(x, 0) == 0
  {
    if x > 0 {
      AndZero(x / 2);
    }
  }

  /** So does OR. */
  lemma OrJoins(a: nat, b: nat, c: nat, d: nat, k: nat)
    requires b < Pow2(k) && d < Pow2(k)
    ensures Or(a * Pow2(k) + b, c * Pow2(k) + d) == Or(a, c) * Pow2(k) + Or(b, d)
  {
    hide And, Pow2;
    AndJoins(a, b, c, d, k);
    Distributes(a, c, And(a, c), Pow2(k));
  }

  lemma Distributes(a: int, c: int, m: int, p: int)
    ensures (a + c - m) * p == a * p + c * p - m * p
  {
  }

  lemma {:induction false} OrBelow(x: nat, y: nat, k: nat)
    requires x < Pow2(k) && y < Pow2(k)
    ensures Or(x, y) < Pow2(k)
    decreases k
  {
    AndOfHalves(x, y);
    if k > 0 {
      OrBelow(x / 2, y / 2, k - 1);
    }
  }

  lemma AndNone(x: nat, y: nat)
    ensures And(x, 0) == 0 && And(0, y) == 0
  {
    AndZero(x);
  }

  // ---------------------------------------------------------------- bits of numbers in two parts

  lemma {:induction false} PowAdds(a: nat, b: nat)
    ensures Pow2(a + b) == Pow2(a) * Pow2(b)
  {
    if b > 0 {
      PowAdds(a, b - 1);
      assert Pow2(a) * (2 * Pow2(b - 1)) == 2 * (Pow2(a) * Pow2(b - 1));
    }
  }

  /** A number cut at bit `i`. */
  lemma Cut(r: nat, i: nat) returns (q: nat, s: nat)
    ensures q == ShiftRight(r, i) && r == q * Pow2(i) + s && s < Pow2(i)
  {
    q, s := ShiftRight(r, i), r % Pow2(i);
  }

  lemma JoinBelow(lo: nat, hi: nat, a: nat, b: nat)
    requires lo < a && hi < b
    ensures lo * b + hi < a * b
  {
    Scaled(a - 1 - lo, b);
    assert (a - 1 - lo) * b == a * b - b - lo * b;
  }

  lemma BitAbove(a: nat, b: nat, k: nat, i: nat)
    requires b < Pow2(k)
    ensures a * Pow2(k) + b >= 0 && BitAt(a * Pow2(k) + b, k + i) == BitAt(a, i)
  {
    PowAdds(k, i);
    var q, s := Cut(a, i);
    assert a * Pow2(k) >= 0;
    AboveQuotient(q, s, Pow2(i), Pow2(k), b);
  }

  lemma AboveQuotient(q: nat, s: nat, t: nat, p: nat, b: nat)
    requires s < t && b < p
    ensures ((q * t + s) * p + b) / (p * t) == q
  {
    JoinBelow(s, b, t, p);
    assert (q * t + s) * p == q * (p * t) + s * p;
    QuotientIs((q * t + s) * p + b, p * t, q, s * p + b);
  }

  lemma BitBelow(a: nat, b: nat, k: nat, i: nat)
    requires b < Pow2(k) && i < k
    ensures a * Pow2(k) + b >= 0 && BitAt(a * Pow2(k) + b, i) == BitAt(b, i)
  {
    hide Pow2;
    PowSplit(k, i);
    BelowQuotient(a, b, Pow2(i), Pow2(k - i - 1));
  }

  lemma PowSplit(k: nat, i: nat)
    requires i < k
    ensures Pow2(k) == 2 * (Pow2(i) * Pow2(k - i - 1))
  {
    PowAdds(i, k - i - 1);
  }

  lemma BelowQuotient(a: nat, b: nat, t: nat, u: nat)
    requires t > 0
    ensures t * u >= 0 && a * (2 * (t * u)) >= 0
    ensures Bit(a * (2 * (t * u)) + b, t) == Bit(b, t)
  {
    var q, s, y := b / t, b % t, a * u;
    assert b == q * t + s;
    assert (2 * y + q) * t == a * (2 * (t * u)) + q * t;
    QuotientIs(a * (2 * (t * u)) + b, t, 2 * y + q, s);
  }

  lemma LowBits(x: nat, k: nat, i: nat)
    requires i < k
    ensures BitAt(x % Pow2(k), i) == BitAt(x, i)
  {
    hide BitAt, Pow2;
    var q, s := Cut(x, k);
    QuotientIs(x, Pow2(k), q, s);
    BitBelow(q, s, k, i);
  }

  /** Half a number has its bits one place lower. */
  lemma HalfBit(x: nat, i: nat)
    ensures BitAt(x, i + 1) == BitAt(x / 2, i)
    ensures BitAt(x, 0) == x % 2
  {
    var q, s := Cut(x / 2, i);
    HalfQuotient(x, q, s, Pow2(i));
  }

  lemma HalfQuotient(x: nat, q: nat, s: nat, p: nat)
    requires x / 2 == q * p + s && s < p
    ensures p > 0 && x / (2 * p) == q == x / 2 / p
  {
    assert q * (2 * p) == 2 * (q * p);
    QuotientIs(x / 2, p, q, s);
    QuotientIs(x, 2 * p, q, 2 * s + x % 2);
  }

  /** What is in one of two numbers but not in both, bit by bit. */
  lemma {:induction false} XorBits(x: nat, y: nat, i: nat)
    ensures Or(x, y) >= And(x, y) && BitAt(Or(x, y) - And(x, y), i) == (BitAt(x, i) + BitAt(y, i)) % 2
    decreases i
  {
    hide And, BitAt;
    AndOfHalves(x, y);
    var z: nat := x + y - 2 * And(x, y);
    assert z / 2 == x / 2 + y / 2 - 2 * And(x / 2, y / 2) && z % 2 == (x % 2 + y % 2) % 2;
    if i == 0 {
      HalfBit(x, 0);
      HalfBit(y, 0);
      HalfBit(z, 0);
    } else {
      XorBits(x / 2, y / 2, i - 1);
      HalfBit(x, i - 1);
      HalfBit(y, i - 1);
      HalfBit(z, i - 1);
    }
  }

  lemma {:induction false} NoBitAbove(x: nat, k: nat, i: nat)
    requires x < Pow2(k) && i >= k
    ensures BitAt(x, i) == 0
  {
    Grows(k, i);
    QuotientIs(x, Pow2(i), 0, x);
  }
}
