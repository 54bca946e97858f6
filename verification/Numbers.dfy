/**
 Powers of two, division and the bitwise operators on natural numbers.
 */
module Numbers {
  function Pow2(n: nat): (r: nat)
    ensures r >= 1
  {
    if n == 0 then 1 else 2 * Pow2(n - 1)
  }

  lemma {:induction false} Pow2Add(a: nat, b: nat)
    ensures Pow2(a + b) == Pow2(a) * Pow2(b)
  {
    if a == 0 {
      assert Pow2(0) * Pow2(b) == Pow2(b);
    } else {
      Pow2Add(a - 1, b);
      assert Pow2(a + b) == 2 * Pow2(a - 1 + b);
      assert 2 * (Pow2(a - 1) * Pow2(b)) == (2 * Pow2(a - 1)) * Pow2(b);
    }
  }

  lemma {:induction false} Pow2Monotone(a: nat, b: nat)
    requires a <= b
    ensures Pow2(a) <= Pow2(b)
    decreases b - a
  {
    if a < b {
      Pow2Monotone(a + 1, b);
    }
  }

  lemma Pow2Strict(a: nat, b: nat)
    requires a < b
    ensures Pow2(a) < Pow2(b)
  {
    Pow2Monotone(a + 1, b);
  }

  lemma MulAssoc(x: int, y: int, z: int)
    ensures x * y * z == x * (y * z)
  {
  }

  lemma MulMonotone(x: int, y: int, z: int)
    requires x <= y && 0 <= z
    ensures x * z <= y * z
  {
  }

  lemma MulStrict(x: int, y: int, z: int)
    requires x < y && 0 < z
    ensures x * z < y * z
  {
  }

  /** A quotient and a remainder in range are the quotient and the remainder. */
  lemma DivModUnique(x: int, d: int, q: int, r: int)
    requires d > 0 && x == q * d + r && 0 <= r < d
    ensures x / d == q && x % d == r
  {
    var q', r' := x / d, x % d;
    assert x == q' * d + r';
    assert (q - q') * d == r' - r;
    if q > q' {
      MulMonotone(1, q - q', d);
      assert false;
    } else if q < q' {
      MulMonotone(1, q' - q, d);
      assert false;
    }
  }

  /** Adding a multiple of the modulus changes nothing. */
  lemma ModPlusMultiple(x: int, d: int, k: int)
    requires d > 0
    ensures (x + k * d) % d == x % d
  {
    var q, r := x / d, x % d;
    assert x + k * d == (q + k) * d + r;
    DivModUnique(x + k * d, d, q + k, r);
  }

  lemma DivPlusMultiple(x: int, d: int, k: int)
    requires d > 0
    ensures (x + k * d) / d == x / d + k
  {
    var q, r := x / d, x % d;
    assert x + k * d == (q + k) * d + r;
    DivModUnique(x + k * d, d, q + k, r);
  }

  lemma DivMonotone(x: int, y: int, d: int)
    requires x <= y && d > 0
    ensures x / d <= y / d
  {
    if x / d > y / d {
      MulMonotone(y / d + 1, x / d, d);
      assert false;
    }
  }

  lemma {:induction false} DivDiv(x: nat, a: nat, b: nat)
    requires a > 0 && b > 0
    ensures a * b > 0 && x / a / b == x / (a * b)
  {
    MulStrict(0, a, b);
    var y, r := x / a, x % a;
    var q, s := y / b, y % b;
    assert x == a * y + r && y == b * q + s;
    assert a * (b * q + s) == (a * b) * q + a * s;
    MulMonotone(s, b - 1, a);
    assert (b - 1) * a == a * b - a;
    DivModUnique(x, a * b, q, a * s + r);
  }

  // ------------------------------------------------------------------ bitwise or

  function BitOr(a: nat, b: nat): (r: nat) {
    if a == 0 && b == 0 then 0
    else (if a % 2 == 1 || b % 2 == 1 then 1 else 0) + 2 * BitOr(a / 2, b / 2)
  }

  lemma {:induction false} BitOrZero(a: nat)
    ensures BitOr(a, 0) == a && BitOr(0, a) == a
  {
    if a != 0 {
      BitOrZero(a / 2);
    }
  }

  /** Numbers with no bit in common combine to their sum. */
  lemma {:induction false} BitOrIsSum(x: nat, y: nat, n: nat)
    requires y < Pow2(n)
    ensures BitOr(x * Pow2(n), y) == x * Pow2(n) + y && BitOr(y, x * Pow2(n)) == x * Pow2(n) + y
  {
    if n == 0 {
      BitOrZero(x);
      assert x * Pow2(0) == x;
    } else {
      var z := x * Pow2(n - 1);
      assert x * Pow2(n) == 2 * z;
      BitOrIsSum(x, y / 2, n - 1);
    }
  }

  /** The low `n` bits and the others combine separately. */
  lemma {:induction false} BitOrSplit(x: nat, y: nat, a: nat, b: nat, n: nat)
    requires a < Pow2(n) && b < Pow2(n)
    ensures BitOr(x * Pow2(n) + a, y * Pow2(n) + b) == BitOr(x, y) * Pow2(n) + BitOr(a, b)
  {
    hide BitOr;
    if n == 0 {
      BitOrZero(0);
      assert x * Pow2(0) == x && y * Pow2(0) == y && BitOr(x, y) * Pow2(0) == BitOr(x, y);
    } else {
      var u, v := x * Pow2(n - 1), y * Pow2(n - 1);
      Doubled(x, n);
      Doubled(y, n);
      Doubled(BitOr(x, y), n);
      BitOrSplit(x, y, a / 2, b / 2, n - 1);
      BitOrDouble(u, v, a, b, BitOr(x, y) * Pow2(n - 1));
    }
  }

  lemma BitOrDouble(u: nat, v: nat, a: nat, b: nat, z: nat)
    requires BitOr(u + a / 2, v + b / 2) == z + BitOr(a / 2, b / 2)
    ensures BitOr(2 * u + a, 2 * v + b) == 2 * z + BitOr(a, b)
  {
    hide BitOr;
    BitOrHalves(2 * u + a, 2 * v + b);
    BitOrHalves(a, b);
    assert (2 * u + a) / 2 == u + a / 2 && (2 * v + b) / 2 == v + b / 2;
  }

  lemma Doubled(x: nat, n: nat)
    requires n > 0
    ensures x * Pow2(n) == 2 * (x * Pow2(n - 1))
  {
  }

  lemma BitOrHalves(a: nat, b: nat)
    ensures BitOr(a, b) == (if a % 2 == 1 || b % 2 == 1 then 1 else 0) + 2 * BitOr(a / 2, b / 2)
  {
  }

  lemma DivNonNegative(x: nat, d: nat)
    requires d > 0
    ensures x / d >= 0
  {
    DivModUnique(0, d, 0, 0);
    DivMonotone(0, x, d);
  }

  lemma {:induction false} BitOrBound(a: nat, b: nat, n: nat)
    requires a < Pow2(n) && b < Pow2(n)
    ensures BitOr(a, b) < Pow2(n)
  {
    if n > 0 {
      BitOrBound(a / 2, b / 2, n - 1);
    }
  }

  function BitXor(a: nat, b: nat): (r: nat) {
    if a == 0 && b == 0 then 0
    else (a + b) % 2 + 2 * BitXor(a / 2, b / 2)
  }

  lemma {:induction false} BitXorBound(a: nat, b: nat, n: nat)
    requires a < Pow2(n) && b < Pow2(n)
    ensures BitXor(a, b) < Pow2(n)
  {
    if n > 0 {
      BitXorBound(a / 2, b / 2, n - 1);
    }
  }

  lemma DivAtMost(x: nat, d: nat)
    requires d > 0
    ensures x / d <= x
  {
    MulMonotone(1, d, x);
    DivMonotone(x, x * d, d);
    DivModUnique(x * d, d, x, 0);
  }

  /** `v` is a number of exactly `n` bits. */
  ghost predicate HasBits(v: nat, n: nat) {
    if n == 0 then v == 0 else Pow2(n - 1) <= v < Pow2(n)
  }

  lemma BitsAreUnique(v: nat, m: nat, n: nat)
    requires HasBits(v, m) && HasBits(v, n)
    ensures m == n
  {
    if m < n {
      Pow2Monotone(m, n - 1);
      assert false;
    } else if n < m {
      Pow2Monotone(n, m - 1);
      assert false;
    }
  }
}
