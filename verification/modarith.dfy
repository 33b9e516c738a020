/** Modular arithmetic over the rolling-hash modulus.

    The source keeps the modulus in a global `long long BIG_PRIME`; here it is
    a parameter `m`, written M in comments. The source's tests are strict
    (`>` in madd, `a > b` in mdel), so results lie in [0, M] rather than
    [0, M): the value M itself stands for residue 0. Congruence is therefore the notion every contract is stated in. */
module ModArith {

  /** 2^63: the first value a signed 64-bit `long long` cannot hold. */
  const TwoTo63: int := 0x8000_0000_0000_0000

  /** The source's default modulus `BIG_PRIME`. */
  const BigPrime: int := 5003943032159437

  predicate InLongLong(x: int) {
    -TwoTo63 <= x < TwoTo63
  }

  /** What the source assumes of its modulus: large enough that every byte is a
      residue, small enough that `M * 256` does not overflow a `long long`. */
  predicate ValidModulus(m: int) {
    256 <= m && m * 256 < TwoTo63
  }

  lemma BigPrimeIsValid()
    ensures ValidModulus(BigPrime)
  {
  }

  /** x and y are congruent modulo m. */
  predicate Cong(x: int, y: int, m: int)
    requires m > 0
  {
    x % m == y % m
  }

  /** 256^e, the weight of a byte e places from the end of a window. */
  function Pow256(e: nat): nat
  {
    if e == 0 then 1 else 256 * Pow256(e - 1)
  }

  /** The representative in [1, m] of the class of x: the form both hash
      computations of the source produce. */
  function Canon(m: int, x: int): int
    requires m > 0
  {
    if x % m == 0 then m else x % m
  }

  // ---------------------------------------------------------------------
  // Euclidean-division facts the congruence proofs rest on.

  /** Euclidean division is unique: any decomposition x == q*m + r with
      r in [0, m) is the one `/` and `%` compute. */
  lemma DivModUnique(x: int, q: int, r: int, m: int)
    requires m > 0
    requires x == q * m + r
    requires 0 <= r < m
    ensures x % m == r
    ensures x / m == q
  {
    var q0, r0 := x / m, x % m;
    assert x == q0 * m + r0;
    var d := q - q0;
    assert d * m == r0 - r by {
      calc {
        d * m;
        q * m - q0 * m;
        (x - r) - (x - r0);
      }
    }
    if d >= 1 {
      assert d * m >= m by { MulAtLeast(d, m); }
      assert false;
    } else if d <= -1 {
      assert (-d) * m >= m by { MulAtLeast(-d, m); }
      assert false;
    }
  }

  lemma MulAtLeast(d: int, m: int)
    requires d >= 1
    requires m > 0
    ensures d * m >= m
  {
  }

  /** Adding a multiple of m does not change the residue. */
  lemma ModShift(x: int, q: int, m: int)
    requires m > 0
    ensures (x + q * m) % m == x % m
  {
    DivModUnique(x + q * m, x / m + q, x % m, m);
  }

  lemma CongAdd(a: int, b: int, c: int, d: int, m: int)
    requires m > 0
    requires Cong(a, b, m)
    requires Cong(c, d, m)
    ensures Cong(a + c, b + d, m)
  {
    ModShift(a % m + c % m, a / m + c / m, m);
    ModShift(b % m + d % m, b / m + d / m, m);
    assert a + c == (a % m + c % m) + (a / m + c / m) * m;
    assert b + d == (b % m + d % m) + (b / m + d / m) * m;
  }

  lemma CongNeg(a: int, b: int, m: int)
    requires m > 0
    requires Cong(a, b, m)
    ensures Cong(-a, -b, m)
  {
    ModShift(-a, a / m, m);
    ModShift(-b, b / m, m);
    assert -a + (a / m) * m == -(a % m);
    assert -b + (b / m) * m == -(b % m);
  }

  lemma CongMul(a: int, b: int, c: int, m: int)
    requires m > 0
    requires Cong(a, b, m)
    ensures Cong(a * c, b * c, m)
  {
    var r := a % m;
    assert a * c == r * c + ((a / m) * c) * m by {
      assert a == r + (a / m) * m;
    }
    assert b * c == r * c + ((b / m) * c) * m by {
      assert b == r + (b / m) * m;
    }
    ModShift(r * c, (a / m) * c, m);
    ModShift(r * c, (b / m) * c, m);
  }

  lemma SmallMod(x: int, m: int)
    requires 0 <= x < m
    ensures x % m == x
  {
  }

  /** Uniqueness of the canonical form: a value in [1, m] congruent to x IS
      Canon(m, x). This is what turns congruent hashes into equal integers. */
  lemma CanonUnique(m: int, h: int, x: int)
    requires m > 0
    requires 1 <= h <= m
    requires Cong(h, x, m)
    ensures h == Canon(m, x)
  {
  }

  // ---------------------------------------------------------------------
  // The source's primitives.

  /** C's `%` on signed integers: the quotient truncates toward zero, so the
      remainder takes the sign of the dividend. */
  function CRem(x: int, d: int): (r: int)
    requires d > 0
    ensures -d < r < d
    ensures x >= 0 ==> r >= 0
    ensures x <= 0 ==> r <= 0
    ensures Cong(r, x, d)
  {
    if x >= 0 then
      SmallMod(x % d, d);
      x % d
    else
      var q, s := (-x) / d, (-x) % d;
      assert -x == q * d + s && 0 <= s < d;
      ModShift(-s, -q, d);
      assert -s + (-q) * d == x;
      -s
  }

  /** `madd`: modular addition with the strict test `(a+b) > M`. */
  function MAdd(m: int, a: int, b: int): (r: int)
    requires ValidModulus(m)
    requires 0 <= a <= m && 0 <= b <= m
    ensures 0 <= r <= m
    ensures Cong(r, a + b, m)
    ensures a + b == m ==> r == m
    ensures r == 0 <==> a + b == 0
  {
    if a + b > m then
      ModShift(a + b, -1, m);
      a + b - m
    else a + b
  }

  /** `mdel`: modular subtraction with the strict test `a > b`. */
  function MDel(m: int, a: int, b: int): (r: int)
    requires ValidModulus(m)
    requires 0 <= a <= m && 0 <= b <= m
    ensures 0 <= r <= m
    ensures Cong(r, a - b, m)
    ensures a == b ==> r == m
    ensures r == 0 <==> a == 0 && b == m
  {
    if a > b then a - b
    else
      ModShift(a - b, 1, m);
      a + m - b
  }

  /** `mmul`: `(a*b) % M` with C's `%`; the product must not overflow. */
  function MMul(m: int, a: int, b: int): (r: int)
    requires ValidModulus(m)
    requires InLongLong(a * b)
    ensures -m < r < m
    ensures a * b >= 0 ==> 0 <= r
    ensures Cong(r, a * b, m)
    ensures 0 <= a * b < m ==> r == a * b
  {
    if 0 <= a * b < m then SmallMod(a * b, m); CRem(a * b, m)
    else CRem(a * b, m)
  }

  /** For a, b >= 0 with one at most 256 and the other at most m, the product
      stays inside a `long long`: the headroom the modulus bound buys. */
  lemma ByteProductFits(m: int, a: int, b: int)
    requires ValidModulus(m)
    requires 0 <= a <= m
    requires 0 <= b <= 256
    ensures 0 <= a * b <= m * 256
    ensures InLongLong(a * b)
    ensures InLongLong(b * a)
  {
  }

  /** One iteration of `power_calc`: multiplying the residue of 256^i by 256
      gives the residue of 256^(i+1). */
  lemma PowerStep(m: int, r: int, i: nat)
    requires ValidModulus(m)
    requires 0 <= r < m
    requires r == Pow256(i) % m
    ensures InLongLong(256 * r)
    ensures MMul(m, 256, r) == Pow256(i + 1) % m
  {
    ByteProductFits(m, r, 256);
    var p := Pow256(i);
    assert Pow256(i + 1) == p * 256;
    var r' := MMul(m, 256, r);
    assert 0 <= r' < m && r' % m == (256 * r) % m;
    SmallMod(r, m);
    CongMul(r, p, 256, m);
    assert (256 * r) % m == (p * 256) % m;
    SmallMod(r', m);
  }

  /** `power_calc`: 256^e mod M by e modular multiplications; 1 when e <= 0. */
  method PowerCalc(m: int, e: int) returns (r: int)
    requires ValidModulus(m)
    ensures 0 <= r < m
    ensures e <= 0 ==> r == 1
    ensures e >= 0 ==> r == Pow256(e) % m
  {
    r := 1;
    SmallMod(1, m);
    var i := 0;
    while i < e
      invariant 0 <= i
      invariant e >= 0 ==> i <= e
      invariant e <= 0 ==> i == 0 && r == 1
      invariant 0 <= r < m
      invariant r == Pow256(i) % m
    {
      ByteProductFits(m, r, 256);
      var r' := MMul(m, 256, r);
      PowerStep(m, r, i);
      r, i := r', i + 1;
    }
  }
}
