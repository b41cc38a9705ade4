/**
  Machine integers and the bit-level arithmetic the driver relies on.

  The driver works on C `unsigned char`, `unsigned short`, 32-bit
  `unsigned long` and `uint64_t`. They are modelled as bounded naturals;
  every wrap-around the C code performs is written out with `%` where it
  happens. Bitwise OR is defined on naturals bit by bit, and the lemmas at
  the end show that it is plain addition when the operands share no set bit.
 */
module Bits {

  type u8 = x: int | 0 <= x < 0x100
  type u16 = x: int | 0 <= x < 0x1_0000
  type u32 = x: int | 0 <= x < 0x1_0000_0000
  type u64 = x: int | 0 <= x < 0x1_0000_0000_0000_0000

  const TWO_32: nat := 0x1_0000_0000
  const TWO_64: nat := 0x1_0000_0000_0000_0000

  /** 2^k */
  function Pow2(k: nat): (r: nat)
    ensures r >= 1
  {
    if k == 0 then 1 else 2 * Pow2(k - 1)
  }

  lemma {:induction false} Pow2Add(a: nat, b: nat)
    ensures Pow2(a + b) == Pow2(a) * Pow2(b)
  {
    if a > 0 {
      Pow2Add(a - 1, b);
      assert Pow2(a + b) == 2 * Pow2(a - 1 + b);
    }
  }

  /** The powers of two the register map and the sample packing use. */
  lemma Pow2Table()
    ensures Pow2(3) == 8 && Pow2(6) == 64 && Pow2(7) == 128 && Pow2(8) == 256
    ensures Pow2(10) == 0x400 && Pow2(12) == 0x1000 && Pow2(15) == 0x8000
    ensures Pow2(16) == 0x1_0000 && Pow2(18) == 0x4_0000 && Pow2(21) == 0x20_0000
    ensures Pow2(23) == 0x80_0000 && Pow2(24) == 0x100_0000 && Pow2(25) == 0x200_0000
    ensures Pow2(0) == 1 && Pow2(1) == 2 && Pow2(2) == 4 && Pow2(4) == 16 && Pow2(5) == 32
    ensures Pow2(31) == 0x8000_0000 && Pow2(32) == TWO_32
  {
    assert Pow2(1) == 0x2;
    assert Pow2(2) == 0x4;
    assert Pow2(3) == 0x8;
    assert Pow2(4) == 0x10;
    assert Pow2(5) == 0x20;
    assert Pow2(6) == 0x40;
    assert Pow2(7) == 0x80;
    assert Pow2(8) == 0x100;
    assert Pow2(9) == 0x200;
    assert Pow2(10) == 0x400;
    assert Pow2(11) == 0x800;
    assert Pow2(12) == 0x1000;
    assert Pow2(13) == 0x2000;
    assert Pow2(14) == 0x4000;
    assert Pow2(15) == 0x8000;
    assert Pow2(16) == 0x10000;
    assert Pow2(17) == 0x20000;
    assert Pow2(18) == 0x40000;
    assert Pow2(19) == 0x80000;
    assert Pow2(20) == 0x100000;
    assert Pow2(21) == 0x200000;
    assert Pow2(22) == 0x400000;
    assert Pow2(23) == 0x800000;
    assert Pow2(24) == 0x1000000;
    assert Pow2(25) == 0x2000000;
    assert Pow2(26) == 0x4000000;
    assert Pow2(27) == 0x8000000;
    assert Pow2(28) == 0x10000000;
    assert Pow2(29) == 0x20000000;
    assert Pow2(30) == 0x40000000;
    assert Pow2(31) == 0x80000000;
    assert Pow2(32) == 0x100000000;
  }

  lemma Pow2Split(k: nat, a: nat)
    requires a <= k
    ensures Pow2(k) == Pow2(a) * Pow2(k - a)
  {
    Pow2Add(a, k - a);
  }

  lemma {:induction false} Pow2Monotone(a: nat, b: nat)
    requires a <= b
    ensures Pow2(a) <= Pow2(b)
  {
    if a < b {
      Pow2Monotone(a, b - 1);
    }
  }

  /** Euclidean division is determined by quotient and remainder. */
  lemma DivModUnique(n: int, d: int, q: int, r: int)
    requires d > 0 && 0 <= r < d && n == q * d + r
    ensures n / d == q && n % d == r
  {
    var q', r' := n / d, n % d;
    assert n == q' * d + r';
    if q' > q {
      assert (q' - q) * d >= d by { MulAtLeast(q' - q, d); }
      assert false;
    } else if q' < q {
      assert (q - q') * d >= d by { MulAtLeast(q - q', d); }
      assert false;
    }
  }

  /** A number below the modulus is its own remainder. */
  lemma ModOfSmall(x: nat, m: nat)
    requires x < m
    ensures x % m == x
  {
    DivModUnique(x, m, 0, x);
  }

  lemma MulAtLeast(a: int, d: int)
    requires a >= 1 && d > 0
    ensures a * d >= d
  {}

  lemma MulCancelLess(x: int, y: int, a: int)
    requires a > 0 && x * a < y * a
    ensures x < y
  {
    if x >= y {
      MulNonNegative(x - y, a);
      assert false;
    }
  }

  lemma MulNonNegative(x: int, a: int)
    requires x >= 0 && a >= 0
    ensures x * a >= 0
  {}

  /** Dividing a natural by a positive number gives a natural. */
  lemma DivIsNat(a: nat, d: int)
    requires d > 0
    ensures a / d >= 0
  {
    var q, r := a / d, a % d;
    assert a == q * d + r;
    if q < 0 {
      MulAtLeast(-q, d);
      assert false;
    }
  }

  lemma DivDiv(w: nat, a: nat, b: nat)
    requires a > 0 && b > 0
    ensures w / a / b == w / (a * b)
  {
    var q1, r1 := w / a, w % a;
    var q2, r2 := q1 / b, q1 % b;
    assert w == q1 * a + r1;
    assert q1 == q2 * b + r2;
    assert a * r2 + r1 < a * b by {
      assert r2 <= b - 1;
      assert a * r2 <= a * (b - 1);
    }
    assert w == q2 * (a * b) + (a * r2 + r1);
    DivModUnique(w, a * b, q2, a * r2 + r1);
  }

  lemma ModMod(w: nat, a: nat, b: nat)
    requires a > 0 && b > 0
    ensures (w % (a * b)) % a == w % a
  {
    var q, r := w / (a * b), w % (a * b);
    assert w == q * (a * b) + r;
    var q', r' := r / a, r % a;
    assert r == q' * a + r';
    assert w == (q * b + q') * a + r';
    DivModUnique(w, a, q * b + q', r');
  }

  lemma DivMod(w: nat, a: nat, b: nat)
    requires a > 0 && b > 0
    ensures (w / a) % b == (w % (a * b)) / a
  {
    var q, r := w / (a * b), w % (a * b);
    assert w == q * (a * b) + r;
    var q', r' := r / a, r % a;
    assert r == q' * a + r';
    assert q' < b by {
      assert q' * a <= r < b * a;
      MulCancelLess(q', b, a);
    }
    assert w == (q * b + q') * a + r';
    DivModUnique(w, a, q * b + q', r');
    DivModUnique(q * b + q', b, q, q');
  }

  /** A word splits at positions u and u*s into three digits. */
  lemma SplitDigits(w: nat, u: nat, s: nat)
    requires u > 0 && s > 0
    ensures w == (w / (u * s)) * (u * s) + ((w / u) % s) * u + w % u
  {
    var q := w / u;
    assert w == q * u + w % u;
    assert q == (q / s) * s + q % s;
    DivDiv(w, u, s);
    Expand(q / s, s, q % s, u, w % u);
  }

  lemma Expand(a: int, s: int, c: int, u: int, b: int)
    ensures (a * s + c) * u + b == a * (u * s) + c * u + b
  {}

  /** Three digits below u, s and above reassemble into a word that reads them back. */
  lemma JoinDigits(a: nat, c: nat, b: nat, u: nat, s: nat)
    requires u > 0 && s > 0 && c < s && b < u
    ensures c * u + b < u * s
    ensures var r := a * (u * s) + c * u + b;
      && r % u == b && r / u == a * s + c
      && (r / u) % s == c && r / (u * s) == a
  {
    var r := a * (u * s) + c * u + b;
    MulNonNegative(s - c - 1, u);
    assert (s - c - 1) * u == s * u - c * u - u;
    Expand(a, s, c, u, b);
    DivModUnique(r, u, a * s + c, b);
    DivModUnique(a * s + c, s, a, c);
    DivDiv(r, u, s);
  }

  /** Replacing the part of v below its multiple of t keeps v under e*t. */
  lemma SameBlockBound(a: int, t: int, e: int, low: int, v: int, bound: int)
    requires t > 0 && 0 <= low < t && a * t <= v < bound && bound == t * e
    ensures a * t + low < bound
  {
    NextMultiple(a, e, t);
  }

  /** Multiples of t below e*t end at e*t at the latest. */
  lemma NextMultiple(a: int, e: int, t: int)
    requires t > 0 && a * t < e * t
    ensures (a + 1) * t <= e * t
  {
    MulCancelLess(a, e, t);
    MulNonNegative(e - (a + 1), t);
  }

  /** Bitwise OR of two naturals, one bit at a time from the least significant. */
  function BitOr(a: nat, b: nat): nat
    decreases a + b
  {
    if a == 0 then b
    else if b == 0 then a
    else 2 * BitOr(a / 2, b / 2) + (if a % 2 == 1 || b % 2 == 1 then 1 else 0)
  }

  /** No bit position is set in both `a` and `b`. */
  predicate NoCommonBits(a: nat, b: nat)
    decreases a + b
  {
    a == 0 || b == 0 || (!(a % 2 == 1 && b % 2 == 1) && NoCommonBits(a / 2, b / 2))
  }

  /** OR of operands with disjoint bits is their sum. */
  lemma {:induction false} OrOfDisjointIsSum(a: nat, b: nat)
    requires NoCommonBits(a, b)
    ensures BitOr(a, b) == a + b
    decreases a + b
  {
    if a != 0 && b != 0 {
      OrOfDisjointIsSum(a / 2, b / 2);
    }
  }

  /** OR of a multiple of 2^k and a number below 2^k is their sum. */
  lemma OrOfSeparated(hi: nat, lo: nat, k: nat)
    requires hi % Pow2(k) == 0 && lo < Pow2(k)
    ensures BitOr(hi, lo) == hi + lo
  {
    LowAndHighDisjoint(hi, lo, k);
    OrOfDisjointIsSum(hi, lo);
  }

  /** OR sets no bit at or above 2^k that neither operand has. */
  lemma {:induction false} BitOrBound(a: nat, b: nat, k: nat)
    requires a < Pow2(k) && b < Pow2(k)
    ensures BitOr(a, b) < Pow2(k)
    decreases k
  {
    if a != 0 && b != 0 {
      var p := Pow2(k - 1);
      assert Pow2(k) == 2 * p;
      BitOrBound(a / 2, b / 2, k - 1);
    }
  }

  /** A multiple of 2^k shares no bit with a number below 2^k. */
  lemma {:induction false} LowAndHighDisjoint(w: nat, c: nat, k: nat)
    requires w % Pow2(k) == 0 && c < Pow2(k)
    ensures NoCommonBits(w, c)
    decreases k
  {
    if k > 0 && w != 0 && c != 0 {
      var p := Pow2(k - 1);
      assert Pow2(k) == 2 * p;
      ModMod(w, 2, p);
      assert w % 2 == 0;
      assert (w / 2) % p == 0 by {
        DivMod(w, 2, p);
      }
      LowAndHighDisjoint(w / 2, c / 2, k - 1);
    }
  }

  /** Shifting one operand left by s is the same as shifting the other right. */
  lemma {:induction false} ShiftedDisjoint(w: nat, v: nat, c: nat, s: nat)
    requires v == w / Pow2(s) && NoCommonBits(v, c)
    ensures NoCommonBits(w, c * Pow2(s))
    decreases s
  {
    if s == 0 {
      assert Pow2(s) == 1;
      assert c * Pow2(s) == c;
      assert w / Pow2(s) == w;
    } else if w == 0 {
    } else if c == 0 {
      assert c * Pow2(s) == 0;
    } else {
      var h := c * Pow2(s - 1);
      ShiftUnfold(w, c, s);
      ShiftedDisjoint(w / 2, v, c, s - 1);
      DoubleDisjoint(w, h);
    }
  }

  lemma ShiftUnfold(w: nat, c: nat, s: nat)
    requires s > 0 && c > 0
    ensures c * Pow2(s) == 2 * (c * Pow2(s - 1))
    ensures c * Pow2(s - 1) > 0
    ensures (w / 2) / Pow2(s - 1) == w / Pow2(s)
  {
    var p := Pow2(s - 1);
    assert Pow2(s) == 2 * p;
    MulAtLeast(c, p);
    DivDiv(w, 2, p);
  }

  lemma DoubleDisjoint(w: nat, h: nat)
    requires h > 0 && NoCommonBits(w / 2, h)
    ensures NoCommonBits(w, 2 * h)
  {}
}
