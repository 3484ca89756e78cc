/** The bitwise operators of C, on unbounded two's-complement integers.

    `&`, `& ~` and `|` are defined one binary digit at a time, so nothing about
    masks is built into the definitions. The lemmas below show what the sources
    use them for: masking with a power of two is rounding, and each operator
    acts on every bit independently. */
module Bits {

  function Pow2(k: nat): (p: nat)
    ensures p >= 1
  {
    if k == 0 then 1 else 2 * Pow2(k - 1)
  }

  /** Bit `j` of `x`, counting from the least significant. */
  predicate Bit(x: int, j: nat)
    decreases j, x
  {
    if j == 0 then x % 2 == 1 else Bit(x / 2, j - 1)
  }

  /** `x & m` */
  function And(x: int, m: nat): nat
    decreases m, x
  {
    if m == 0 then 0
    else 2 * And(x / 2, m / 2) + if x % 2 == 1 && m % 2 == 1 then 1 else 0
  }

  /** `x & ~m` */
  function AndNot(x: int, m: nat): int
    decreases m, x
  {
    if m == 0 then x
    else 2 * AndNot(x / 2, m / 2) + if x % 2 == 1 && m % 2 == 0 then 1 else 0
  }

  /** `x | y` */
  function Or(x: nat, y: nat): nat
    decreases y, x
  {
    if y == 0 then x
    else 2 * Or(x / 2, y / 2) + if x % 2 == 1 || y % 2 == 1 then 1 else 0
  }

  /** `x << n` */
  function Shl(x: nat, n: nat): nat
    decreases n, x
  {
    if n == 0 then x else 2 * Shl(x, n - 1)
  }

  /** `x >> n` */
  function Shr(x: nat, n: nat): nat
    decreases n, x
  {
    if n == 0 then x else Shr(x / 2, n - 1)
  }

  /** `(x + m) & ~m`, the idiom that all the sources use to align upwards. */
  function RoundUp(x: int, m: nat): int { AndNot(x + m, m) }

  // ---------------------------------------------------------------- division

  lemma DivModUnique(x: int, d: int, q: int, r: int)
    requires 0 <= r < d && x == d * q + r
    ensures x / d == q && x % d == r
  {
    var e := x / d - q;
    assert d * e + x % d == r by {
      assert d * (x / d) + x % d == x;
      assert d * e == d * (x / d) - d * q;
    }
    assert e >= 1 ==> d * e >= d;
    assert e <= -1 ==> d * e <= -d;
  }

  lemma ModOfHalf(x: int, p: int)
    requires p > 0
    ensures x % (2 * p) == 2 * ((x / 2) % p) + x % 2
    ensures x / (2 * p) == (x / 2) / p
  {
    var q, r := (x / 2) / p, (x / 2) % p;
    assert x / 2 == p * q + r;
    assert (2 * p) * q == 2 * (p * q);
    DivModUnique(x, 2 * p, q, 2 * r + x % 2);
  }

  lemma ModOfMultiple(d: int, q: int)
    requires d > 0
    ensures (d * q) % d == 0
  {
    DivModUnique(d * q, d, q, 0);
  }

  lemma MultiplesAreApart(x: int, y: int, d: int)
    requires d > 0 && x % d == 0 && y % d == 0 && x < y
    ensures x + d <= y
  {
    var a, b := x / d, y / d;
    assert x == d * a && y == d * b;
    assert b <= a ==> d * b <= d * a;
    assert b > a ==> d * b >= d * (a + 1) == d * a + d;
  }

  lemma SumOfMultiples(x: int, y: int, d: int)
    requires d > 0 && x % d == 0 && y % d == 0
    ensures (x + y) % d == 0 && (x - y) % d == 0
  {
    var a, b := x / d, y / d;
    assert x == d * a && y == d * b;
    assert x + y == d * (a + b) && x - y == d * (a - b);
    ModOfMultiple(d, a + b);
    ModOfMultiple(d, a - b);
  }

  // ---------------------------------------------------------------- rounding

  lemma MaskStep(x: int, m: nat, half: nat, r: int)
    requires m > 0 && m / 2 == half && m % 2 == 1
    requires And(x / 2, half) == r && AndNot(x / 2, half) == x / 2 - r
    ensures And(x, m) == 2 * r + x % 2 && AndNot(x, m) == x - (2 * r + x % 2)
  {
  }

  lemma {:induction false} LowBitsAreRemainder(x: int, k: nat, p: nat)
    requires p == Pow2(k)
    ensures And(x, p - 1) == x % p && AndNot(x, p - 1) == x - x % p
    decreases k
  {
    if k == 0 {
    } else {
      var h := Pow2(k - 1);
      LowBitsAreRemainder(x / 2, k - 1, h);
      ModOfHalf(x, h);
      DivModUnique(2 * h - 1, 2, h - 1, 1);
      MaskStep(x, p - 1, h - 1, (x / 2) % h);
    }
  }

  /** Masking with a power of two is a remainder; masking with its complement
      rounds down, also for negative numbers. */
  lemma MaskIsModulus(x: int, k: nat)
    ensures And(x, Pow2(k) - 1) == x % Pow2(k)
    ensures AndNot(x, Pow2(k) - 1) == x - x % Pow2(k)
  {
    LowBitsAreRemainder(x, k, Pow2(k));
  }

  lemma RoundDown(s: int, p: int)
    requires p > 0
    ensures (s - s % p) % p == 0 && s - p < s - s % p <= s
  {
    assert s - s % p == p * (s / p);
    ModOfMultiple(p, s / p);
  }

  lemma LeastMultiple(x: int, p: int, r: int)
    requires p > 0 && r == x + p - 1 - (x + p - 1) % p
    ensures r % p == 0 && x <= r < x + p
    ensures forall y :: y % p == 0 && x <= y ==> r <= y
  {
    RoundDown(x + p - 1, p);
    forall y | y % p == 0 && x <= y
      ensures r <= y
    {
      if y < r { MultiplesAreApart(y, r, p); }
    }
  }

  /** The alignment idiom yields the least multiple that is not below `x`. */
  lemma RoundUpIsLeastMultiple(x: int, k: nat)
    ensures RoundUp(x, Pow2(k) - 1) % Pow2(k) == 0
    ensures x <= RoundUp(x, Pow2(k) - 1) < x + Pow2(k)
    ensures forall y :: y % Pow2(k) == 0 && x <= y ==> RoundUp(x, Pow2(k) - 1) <= y
  {
    MaskIsModulus(x + Pow2(k) - 1, k);
    LeastMultiple(x, Pow2(k), RoundUp(x, Pow2(k) - 1));
  }

  // ------------------------------------------------------------ bit by bit

  lemma {:induction false} NoBits(j: nat)
    ensures !Bit(0, j)
  {
    if j == 0 {
    } else {
      NoBits(j - 1);
    }
  }

  lemma {:induction false} AndBit(x: int, m: nat, j: nat)
    ensures Bit(And(x, m), j) <==> Bit(x, j) && Bit(m, j)
    decreases j
  {
    if m == 0 {
      NoBits(j);
    } else if j > 0 {
      AndBit(x / 2, m / 2, j - 1);
    }
  }

  lemma {:induction false} AndNotBit(x: int, m: nat, j: nat)
    ensures Bit(AndNot(x, m), j) <==> Bit(x, j) && !Bit(m, j)
    decreases j
  {
    if m == 0 {
      NoBits(j);
    } else if j > 0 {
      AndNotBit(x / 2, m / 2, j - 1);
    }
  }

  lemma {:induction false} OrBit(x: nat, y: nat, j: nat)
    ensures Bit(Or(x, y), j) <==> Bit(x, j) || Bit(y, j)
    decreases j
  {
    if y == 0 {
      NoBits(j);
    } else if j > 0 {
      OrBit(x / 2, y / 2, j - 1);
    }
  }

  lemma {:induction false} ShlBit(x: nat, n: nat, j: nat)
    ensures Bit(Shl(x, n), j) <==> j >= n && Bit(x, j - n)
    decreases n
  {
    if n == 0 || j == 0 {
    } else {
      ShlBit(x, n - 1, j - 1);
    }
  }

  lemma {:induction false} ShrBit(x: nat, n: nat, j: nat)
    ensures Bit(Shr(x, n), j) <==> Bit(x, j + n)
    decreases n
  {
    if n == 0 {
    } else {
      ShrBit(x / 2, n - 1, j);
    }
  }

  lemma {:induction false} ShrIsQuotient(x: nat, n: nat)
    ensures Shr(x, n) == x / Pow2(n)
    decreases n
  {
    if n == 0 {
    } else {
      ShrIsQuotient(x / 2, n - 1);
      ModOfHalf(x, Pow2(n - 1));
    }
  }

  /** `2^w - 1` has exactly the low `w` bits set. */
  lemma {:induction false} OnesBit(w: nat, j: nat)
    ensures Bit(Pow2(w) - 1, j) <==> j < w
    decreases w
  {
    if w == 0 {
      NoBits(j);
    } else {
      var h := Pow2(w - 1);
      DivModUnique(2 * h - 1, 2, h - 1, 1);
      if j > 0 { OnesBit(w - 1, j - 1); }
    }
  }

  /** Below `2^w`, the low `w` bits determine a number. */
  lemma {:induction false} BitsDetermine(x: nat, y: nat, w: nat)
    requires x < Pow2(w) && y < Pow2(w)
    requires forall j: nat :: j < w ==> Bit(x, j) == Bit(y, j)
    ensures x == y
    decreases w
  {
    if w == 0 {
    } else {
      assert Bit(x, 0) == Bit(y, 0);
      forall j: nat | j < w - 1
        ensures Bit(x / 2, j) == Bit(y / 2, j)
      {
        assert Bit(x, j + 1) == Bit(y, j + 1);
      }
      BitsDetermine(x / 2, y / 2, w - 1);
    }
  }
}
