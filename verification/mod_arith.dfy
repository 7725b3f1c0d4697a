/**
 * Modular arithmetic over unbounded integers, as `math/big` provides it.
 *
 * `big.Int.Mod` is the Euclidean modulus, which is exactly Dafny's `%` on
 * `int` with a positive divisor, so every `Mod(x, p)` of the Go code is
 * written `x % p` here.  `big.Int.ModInverse` is modelled by `ModInverse`,
 * including its rule that a non-invertible operand is left unchanged.
 */
module ModArith {

  /** A positive multiple of a positive number is at least that number. */
  lemma MulAtLeast(k: int, d: int)
    requires k >= 1 && d > 0
    ensures k * d >= d
  {
    assert k * d == (k - 1) * d + d;
    assert (k - 1) * d >= 0;
  }

  /** Euclidean division has exactly one quotient and one remainder. */
  lemma DivModUnique(a: int, d: int, q: int, r: int)
    requires d > 0 && a == q * d + r && 0 <= r < d
    ensures a / d == q && a % d == r
  {
    var q', r' := a / d, a % d;
    assert a == q' * d + r';
    assert (q - q') * d == r' - r;
    if q > q' {
      MulAtLeast(q - q', d);
    } else if q < q' {
      MulAtLeast(q' - q, d);
    }
  }

  /** Adding a multiple of the modulus does not change the residue. */
  lemma ModShift(a: int, k: int, d: int)
    requires d > 0
    ensures (a + k * d) % d == a % d
  {
    assert a == (a / d) * d + a % d;
    assert a + k * d == (a / d + k) * d + a % d;
    DivModUnique(a + k * d, d, a / d + k, a % d);
  }

  /** A reduced value is its own residue. */
  lemma ModOfSmall(a: int, d: int)
    requires 0 <= a < d
    ensures a % d == a && a / d == 0
  {
    DivModUnique(a, d, 0, a);
  }

  /** Reducing a factor first does not change the residue of a product. */
  lemma ModMulLeft(a: int, b: int, d: int)
    requires d > 0
    ensures ((a % d) * b) % d == (a * b) % d
  {
    assert a == (a / d) * d + a % d;
    assert a * b == (a % d) * b + ((a / d) * b) * d;
    ModShift((a % d) * b, (a / d) * b, d);
  }

  /** Multiplication respects congruence. */
  lemma ModCongMul(a: int, b: int, c: int, d: int)
    requires d > 0 && a % d == b % d
    ensures (a * c) % d == (b * c) % d
  {
    ModMulLeft(a, c, d);
    ModMulLeft(b, c, d);
  }

  /** Addition respects congruence. */
  lemma ModCongAdd(a: int, b: int, c: int, d: int)
    requires d > 0 && a % d == b % d
    ensures (a + c) % d == (b + c) % d
  {
    assert a == (a / d) * d + a % d;
    assert b == (b / d) * d + b % d;
    ModShift(a % d + c, a / d, d);
    ModShift(b % d + c, b / d, d);
    assert a + c == (a % d + c) + (a / d) * d;
    assert b + c == (b % d + c) + (b / d) * d;
  }

  /** A value and its residue are congruent. */
  lemma ModIdempotent(a: int, d: int)
    requires d > 0
    ensures (a % d) % d == a % d
  {
    ModOfSmall(a % d, d);
  }

  /** A multiple of `d` leaves no remainder. */
  lemma MultipleMod(k: int, d: int)
    requires d > 0
    ensures (k * d) % d == 0
  {
    ModShift(0, k, d);
  }

  /** Reducing the right factor first does not change the residue of a product. */
  lemma ModMulRight(a: int, b: int, d: int)
    requires d > 0
    ensures (a * (b % d)) % d == (a * b) % d
  {
    ModMulLeft(b, a, d);
    assert a * (b % d) == (b % d) * a;
    assert a * b == b * a;
  }

  /** A residue differs from its value by a multiple of the modulus. */
  lemma ReducedDifference(a: int, q: int)
    requires q > 0
    ensures (a % q - a) % q == 0
  {
    assert a % q - a == -(a / q) * q;
    MultipleMod(-(a / q), q);
  }

  /** Reducing a subtrahend first does not change the residue of a difference. */
  lemma SubReduced(a: int, c: int, q: int)
    requires q > 0
    ensures (a - c % q) % q == (a - c) % q
  {
    assert a - c % q == (a - c) + (c / q) * q;
    ModShift(a - c, c / q, q);
  }

  /**
   * The extended Euclidean algorithm: `(g, s, t)` with `s*a + t*b == g`,
   * where `g` divides both `a` and `b` (lemma GcdDivides).
   */
  function ExtGcd(a: nat, b: nat): (r: (nat, int, int))
    ensures r.1 * a + r.2 * b == r.0
    ensures a > 0 || b > 0 ==> r.0 > 0
    decreases b
  {
    if b == 0 then (a, 1, 0)
    else
      var (g, s, t) := ExtGcd(b, a % b);
      assert a == (a / b) * b + a % b;
      assert t * a + (s - (a / b) * t) * b == s * b + t * (a % b);
      (g, t, s - (a / b) * t)
  }

  /** A common divisor of `b` and `a % b` divides `a`. */
  lemma DividesFromRemainder(a: nat, b: nat, g: int)
    requires b > 0 && g > 0 && b % g == 0 && (a % b) % g == 0
    ensures a % g == 0
  {
    var q, qb, qr := a / b, b / g, (a % b) / g;
    assert b == qb * g;
    assert a % b == qr * g;
    assert a == q * b + a % b;
    assert q * b == (q * qb) * g;
    assert a == (q * qb + qr) * g;
    MultipleMod(q * qb + qr, g);
  }

  /** The first component of ExtGcd is a common divisor of both operands. */
  lemma {:induction false} GcdDivides(a: nat, b: nat)
    requires a > 0 || b > 0
    ensures ExtGcd(a, b).0 > 0
    ensures a % ExtGcd(a, b).0 == 0 && b % ExtGcd(a, b).0 == 0
    decreases b
  {
    if b == 0 {
      MultipleMod(1, a);
      MultipleMod(0, a);
    } else {
      GcdDivides(b, a % b);
      DividesFromRemainder(a, b, ExtGcd(b, a % b).0);
    }
  }

  /** `g` has an inverse modulo `m` when its residue and `m` are coprime. */
  predicate Invertible(g: int, m: nat)
    requires m > 1
  {
    ExtGcd(g % m, m).0 == 1
  }

  /**
   * `new(big.Int).ModInverse(g, m)` as it behaves when the receiver is `g`
   * itself (the only way the curve code calls it): the canonical inverse when
   * one exists, and otherwise `g`, unchanged.
   */
  function ModInverse(g: int, m: nat): (r: int)
    requires m > 1
    ensures Invertible(g, m) ==> 0 <= r < m && (g * r) % m == 1
    ensures !Invertible(g, m) ==> r == g
  {
    var (d, s, t) := ExtGcd(g % m, m);
    if d != 1 then g
    else
      assert s * (g % m) + t * m == 1;
      ModShift(s * (g % m), t, m);
      ModOfSmall(1, m);
      ModMulLeft(s, g % m, m);
      ModMulLeft(g, s % m, m);
      assert (s % m) * (g % m) == (g % m) * (s % m);
      ModMulLeft(g % m, s, m);
      ModMulLeft(g % m, s % m, m);
      assert (g % m) * s == s * (g % m);
      assert ((g % m) * (s % m)) % m == ((s % m) * (g % m)) % m;
      ModMulLeft(s, g, m);
      assert (s % m) * g == g * (s % m);
      s % m
  }

  /** A factorisation of 1 into integers with a positive factor has that factor 1. */
  lemma UnitFactor(k: int, d: int)
    requires d > 0 && k * d == 1
    ensures d == 1
  {
    if k >= 1 {
      MulAtLeast(k, d);
    }
  }

  /** A common divisor of `a` and `m` that also divides `a * r - 1` modulo `m` is 1. */
  lemma CommonDivisorOfUnit(a: int, m: int, r: int, d: int)
    requires m > 1 && d > 0 && a % d == 0 && m % d == 0 && (a * r) % m == 1
    ensures d == 1
  {
    var qa, qm, q := a / d, m / d, (a * r) / m;
    assert a * r == q * m + 1;
    assert a == qa * d;
    assert m == qm * d;
    assert a * r == (qa * r) * d;
    assert q * m == (q * qm) * d;
    assert (qa * r - q * qm) * d == 1;
    UnitFactor(qa * r - q * qm, d);
  }

  /**
   * ModInverse's test is exact: any `r` with `g * r ≡ 1 (mod m)` makes `g`
   * Invertible (and ModInverse's contract gives the converse), so ModInverse
   * leaves its operand unchanged exactly when no inverse exists.
   */
  lemma InverseWitness(g: int, m: nat, r: int)
    requires m > 1 && (g * r) % m == 1
    ensures Invertible(g, m)
  {
    var a := g % m;
    GcdDivides(a, m);
    ModMulLeft(g, r, m);
    CommonDivisorOfUnit(a, m, r, ExtGcd(a, m).0);
  }

  /** Every residue class has at most one canonical inverse. */
  lemma InverseUnique(g: int, r1: int, r2: int, m: nat)
    requires m > 1
    requires 0 <= r1 < m && 0 <= r2 < m
    requires (g * r1) % m == 1 && (g * r2) % m == 1
    ensures r1 == r2
  {
    var a, b := g * r1, g * r2;
    ModOfSmall(1, m);
    ModCongMul(a, 1, r2, m);
    ModCongMul(b, 1, r1, m);
    Swap(g, r1, r2);
    ModOfSmall(r1, m);
    ModOfSmall(r2, m);
  }

  lemma Swap(g: int, x: int, y: int)
    ensures (g * x) * y == (g * y) * x
  {
  }

  /**
   * A quotient computed as `num * den^-1` really divides: `m * den ≡ num`
   * whenever `den` is invertible.
   */
  lemma SlopeLaw(num: int, den: int, m: int, q: nat)
    requires q > 1 && Invertible(den, q)
    requires m % q == (num * ModInverse(den, q)) % q
    ensures (m * den) % q == num % q
  {
    var inv := ModInverse(den, q);
    var prod := num * inv;
    ModCongMul(m, prod, den, q);
    Rotate(num, inv, den);
    ModOfSmall(1, q);
    var unit := den * inv;
    ModCongMul(unit, 1, num, q);
    assert unit * num == num * unit;
  }

  lemma Rotate(a: int, b: int, c: int)
    ensures (a * b) * c == a * (c * b)
  {
  }
}
