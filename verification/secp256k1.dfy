/**
 * secp256k1 group arithmetic as secp256k1.go computes it: affine points over
 * the prime field of SEC 2 version 2, section 2.4.1, with the pair (0, 0)
 * standing for the point at infinity; the chord-and-tangent addition; the
 * byte-wise double-and-add scalar multiplication; and the 33-byte compressed
 * encoding of SEC 1 version 2, section 2.3.3.
 *
 * `Add` and `Compressed` are the code as written; `AddCorrected` and
 * `CompressedPadded` repair the three defects those two carry, and the rest
 * of the model (scalar multiplication, public keys, fingerprints) is built on
 * the repaired versions.
 */
module Secp256k1 {
  import opened ModArith
  import opened BigEndian
  import opened Crypto

  /** The field prime p = 2^256 - 2^32 - 977. */
  const P: nat := 0xFFFFFFFFFFFFFFFFFFFFFFFFFFFFFFFFFFFFFFFFFFFFFFFFFFFFFFFEFFFFFC2F
  /** The order n of the generator. */
  const N: nat := 0xFFFFFFFFFFFFFFFFFFFFFFFFFFFFFFFEBAAEDCE6AF48A03BBFD25E8CD0364141
  const Gx: nat := 0x79BE667EF9DCBBAC55A06295CE870B07029BFCDB2DCE28D959F2815B16F81798
  const Gy: nat := 0x483ADA7726A3C4655DA4FBFC0E1108A8FD17B448A68554199C47D08FFB10D4B8

  /** The order is below the prime, and both fit in 32 bytes. */
  lemma OrderBelowPrime()
    ensures N < P < Pow256(32)
  {
    assert Pow256(2) == 0x1_0000;
    PowAdd(2, 2);
    PowAdd(4, 4);
    PowAdd(8, 8);
    PowAdd(16, 16);
    assert Pow256(32) == 0x1_0000_0000_0000_0000_0000_0000_0000_0000_0000_0000_0000_0000_0000_0000_0000_0000;
  }

  /** A coordinate pair as the Go code passes it around: two `*big.Int`s. */
  datatype Point = Point(x: nat, y: nat)

  /** The point at infinity, encoded as the pair (0, 0). */
  const Infinity: Point := Point(0, 0)
  const G: Point := Point(Gx, Gy)

  predicate IsInfinity(p0: Point) {
    p0.x == 0 && p0.y == 0
  }

  /** Both coordinates reduced modulo p. */
  predicate Canonical(p0: Point) {
    p0.x < P && p0.y < P
  }

  /** The group inverse (x, p - y). */
  function Negate(p0: Point): (r: Point)
    requires p0.y <= P
    ensures r.x == p0.x && (r.y + p0.y) % P == 0
  {
    MultipleMod(1, P);
    Point(p0.x, P - p0.y)
  }

  // ---------------------------------------------------------------------
  // The two slopes and the common tail of Secp256k1Add.

  /** The tangent slope 3*x0^2 / (2*y0) of the doubling branch. */
  function TangentSlope(x0: nat, y0: nat): (m: nat)
    ensures m < P
  {
    var denom := ModInverse((2 * y0) % P, P);
    ((((3 * x0) % P) * x0) % P * denom) % P
  }

  /** The chord slope (y0 - y1) / (x0 - x1) of the distinct-x branch. */
  function ChordSlope(x0: nat, y0: nat, x1: nat, y1: nat): (m: nat)
    ensures m < P
  {
    var denom := ModInverse(x0 - x1, P);
    ((y0 - y1) * denom) % P
  }

  /**
   * The third point where the line y = m*x + b meets the curve, reflected in
   * the x-axis, with the arithmetic taken modulo q (the field prime p in
   * every use).  Its y-coordinate is computed as q - ((m*x2 + b) mod q), so
   * it lies in (0, q].
   */
  function Reflected(q: nat, m: nat, x0: nat, x1: nat, b: int): (r: Point)
    requires q > 0
    ensures r.x < q && 0 < r.y <= q
  {
    var x2 := (m * m - x0 - x1) % q;
    var line := (m * x2 + b) % q;
    Point(x2, q - line)
  }

  /**
   * What Reflected computes: x ≡ m^2 - x0 - x1, y ≡ -(m*x + b), and y is the
   * non-canonical q exactly when the line value m*x + b is 0 modulo q.
   */
  lemma ReflectedLaw(q: nat, m: nat, x0: nat, x1: nat, b: int)
    requires q > 0
    ensures var r := Reflected(q, m, x0, x1, b);
            && (r.y == q <==> (m * r.x + b) % q == 0)
            && (r.x + x0 + x1 - m * m) % q == 0
            && (r.y + (m * r.x + b)) % q == 0
  {
    var mm := m * m;
    var x2 := (mm - x0 - x1) % q;
    var v := m * x2 + b;
    ReducedDifference(mm - x0 - x1, q);
    assert x2 + x0 + x1 - mm == x2 - (mm - x0 - x1);
    ResidueComplement(v, q);
    var r := Reflected(q, m, x0, x1, b);
    assert r.x == x2 && r.y == q - v % q;
  }

  /** q minus the residue of v is congruent to -v. */
  lemma ResidueComplement(v: int, q: nat)
    requires q > 0
    ensures (q - v % q + v) % q == 0
  {
    var d := v % q - v;
    ReducedDifference(v, q);
    assert d == (d / q) * q;
    assert -d == (-(d / q)) * q;
    MultipleMod(-(d / q), q);
    assert q - v % q + v == -d + 1 * q;
    ModShift(-d, 1, q);
  }

  /**
   * The doubling branch (the tangent at p0; its equations are TangentLaw).
   * The result's x is reduced and its y lies in (0, p].
   */
  function Tangent(p0: Point): (r: Point)
    ensures r.x < P && 0 < r.y <= P
  {
    var m := TangentSlope(p0.x, p0.y);
    var mx0 := (m * p0.x) % P;
    var b := (p0.y - mx0) % P;
    Reflected(P, m, p0.x, p0.x, b)
  }

  /**
   * The distinct-x branch (the chord through p0 and p1; its equations are
   * ChordLaw).  The result's x is reduced and its y lies in (0, p].
   */
  function Chord(p0: Point, p1: Point): (r: Point)
    ensures r.x < P && 0 < r.y <= P
  {
    var m := ChordSlope(p0.x, p0.y, p1.x, p1.y);
    var mx0 := (m * p0.x) % P;
    var b := (p0.y % P - mx0) % P;
    Reflected(P, m, p0.x, p1.x, b)
  }

  // ---------------------------------------------------------------------
  // Secp256k1Add, as written.

  /**
   * `Secp256k1Add` as written.  Infinity on either side returns a copy of the
   * other operand; the negation test compares y0 with n - y1 (the group
   * order, not the field prime); doubling a point with y = 0 gives infinity.
   */
  function Add(p0: Point, p1: Point): (r: Point)
    ensures IsInfinity(p0) ==> r == p1
    ensures !IsInfinity(p0) && IsInfinity(p1) ==> r == p0
    ensures !IsInfinity(p0) && !IsInfinity(p1) && p0.x == p1.x && p0.y == N - p1.y ==> r == Infinity
    ensures !IsInfinity(p0) && !IsInfinity(p1) && p0 == p1 && p0.y == 0 ==> r == Infinity
  {
    if IsInfinity(p0) then p1
    else if IsInfinity(p1) then p0
    else if p0.x == p1.x && p0.y == N - p1.y then Infinity
    else if p0.x == p1.x && p0.y == p1.y then
      if p0.y == 0 then Infinity else Tangent(p0)
    else Chord(p0, p1)
  }

  /**
   * The line through the reflected result: when b ≡ y0 - m*x0, the result
   * satisfies -y ≡ m*(x - x0) + y0, the line of slope m through (x0, y0).
   */
  lemma LineLaw(q: nat, m: nat, x0: nat, x1: nat, y0: int, b: int)
    requires q > 0 && b % q == (y0 - m * x0) % q
    ensures var r := Reflected(q, m, x0, x1, b);
            (r.y + m * (r.x - x0) + y0) % q == 0
  {
    var r := Reflected(q, m, x0, x1, b);
    ReflectedLaw(q, m, x0, x1, b);
    var mx, mx0 := m * r.x, m * x0;
    var u := r.y + mx;
    ModCongAdd(b, y0 - mx0, u, q);
    assert m * (r.x - x0) == mx - mx0;
    assert b + u == r.y + (mx + b);
    assert (y0 - mx0) + u == r.y + (mx - mx0) + y0;
  }

  /** The intercept the doubling branch computes puts p0 on the line. */
  lemma TangentLine(q: nat, m: nat, x0: nat, y0: nat)
    requires q > 0
    ensures var r := Reflected(q, m, x0, x0, (y0 - (m * x0) % q) % q);
            && (r.x + 2 * x0 - m * m) % q == 0
            && (r.y + m * (r.x - x0) + y0) % q == 0
  {
    var b := (y0 - (m * x0) % q) % q;
    SubReduced(y0, m * x0, q);
    ModIdempotent(y0 - m * x0, q);
    LineLaw(q, m, x0, x0, y0, b);
    ReflectedLaw(q, m, x0, x0, b);
  }

  /** The intercept the distinct-x branch computes puts p0 on the line. */
  lemma ChordLine(q: nat, m: nat, x0: nat, y0: nat, x1: nat)
    requires q > 0
    ensures var r := Reflected(q, m, x0, x1, (y0 % q - (m * x0) % q) % q);
            && (r.x + x0 + x1 - m * m) % q == 0
            && (r.y + m * (r.x - x0) + y0) % q == 0
  {
    var mx0 := m * x0;
    var b := (y0 % q - mx0 % q) % q;
    SubReduced(y0 % q, mx0, q);
    ModIdempotent(y0, q);
    ModCongAdd(y0 % q, y0, -mx0, q);
    ModIdempotent(y0 - mx0, q);
    LineLaw(q, m, x0, x1, y0, b);
    ReflectedLaw(q, m, x0, x1, b);
  }

  /** The doubling slope m solves m * 2*y0 ≡ 3*x0^2 when 2*y0 is invertible. */
  lemma TangentSlopeLaw(x0: nat, y0: nat)
    requires Invertible((2 * y0) % P, P)
    ensures (TangentSlope(x0, y0) * (2 * y0)) % P == (3 * x0 * x0) % P
  {
    var m := TangentSlope(x0, y0);
    var d := (2 * y0) % P;
    var inv := ModInverse(d, P);
    var s1 := (3 * x0) % P;
    var s2 := (s1 * x0) % P;
    var num := 3 * x0 * x0;
    ModMulLeft(3 * x0, x0, P);
    ModIdempotent(num, P);
    ModCongMul(s2, num, inv, P);
    ModIdempotent(s2 * inv, P);
    SlopeLaw(num, d, m, P);
    ModMulRight(m, 2 * y0, P);
  }

  /**
   * The doubling branch is the tangent construction: with m its slope (see
   * TangentSlopeLaw), x2 ≡ m^2 - 2*x0 and the result is the reflection of the
   * third point on the line of slope m through p0.
   */
  lemma TangentLaw(p0: Point)
    ensures var m := TangentSlope(p0.x, p0.y);
            var r := Tangent(p0);
            && (r.x + 2 * p0.x - m * m) % P == 0
            && (r.y + m * (r.x - p0.x) + p0.y) % P == 0
  {
    var m := TangentSlope(p0.x, p0.y);
    assert Tangent(p0) == Reflected(P, m, p0.x, p0.x, (p0.y - (m * p0.x) % P) % P);
    TangentLine(P, m, p0.x, p0.y);
  }

  /**
   * The distinct-x slope m solves m * (x0 - x1) ≡ y0 - y1 when x0 - x1 is
   * invertible.
   */
  lemma ChordSlopeLaw(x0: nat, y0: nat, x1: nat, y1: nat)
    requires Invertible(x0 - x1, P)
    ensures (ChordSlope(x0, y0, x1, y1) * (x0 - x1)) % P == (y0 - y1) % P
  {
    var m := ChordSlope(x0, y0, x1, y1);
    var q := (y0 - y1) * ModInverse(x0 - x1, P);
    ModIdempotent(q, P);
    SlopeLaw(y0 - y1, x0 - x1, m, P);
  }

  /**
   * With x0 == x1 the operand 0 has no inverse, ModInverse leaves it 0 and
   * the chord slope is 0.
   */
  lemma ChordSlopeZero(x0: nat, y0: nat, y1: nat)
    ensures ChordSlope(x0, y0, x0, y1) == 0
  {
    ZeroNotInvertible(P);
    var d := y0 - y1;
    assert d * 0 == 0;
  }

  /**
   * The distinct-x branch is the chord construction: x2 ≡ m^2 - x0 - x1 and
   * the result is the reflection of the third point on the line of slope m
   * through p0, with m the chord slope of ChordSlopeLaw.
   */
  lemma ChordLaw(p0: Point, p1: Point)
    ensures var m := ChordSlope(p0.x, p0.y, p1.x, p1.y);
            var r := Chord(p0, p1);
            && (r.x + p0.x + p1.x - m * m) % P == 0
            && (r.y + m * (r.x - p0.x) + p0.y) % P == 0
  {
    ChordLine(P, ChordSlope(p0.x, p0.y, p1.x, p1.y), p0.x, p0.y, p1.x);
  }

  /** Zero has no inverse; ModInverse then returns it unchanged. */
  lemma ZeroNotInvertible(m: nat)
    requires m > 1
    ensures !Invertible(0, m) && ModInverse(0, m) == 0
  {
    assert 0 % m == 0;
    assert ExtGcd(m, 0).0 == m;
    assert ExtGcd(0, m).0 == m;
  }

  // ---------------------------------------------------------------------
  // The repaired addition, used by everything built on top.

  /**
   * Secp256k1Add with the negation test made against p and the result's y
   * reduced into [0, p).
   */
  function AddCorrected(p0: Point, p1: Point): (r: Point)
    ensures IsInfinity(p0) ==> r == p1
    ensures !IsInfinity(p0) && IsInfinity(p1) ==> r == p0
  {
    if IsInfinity(p0) then p1
    else if IsInfinity(p1) then p0
    else if p0.x == p1.x && p0.y == P - p1.y then Infinity
    else if p0.x == p1.x && p0.y == p1.y then
      if p0.y == 0 then Infinity else Reduce(Tangent(p0))
    else Reduce(Chord(p0, p1))
  }

  function Reduce(r: Point): Point {
    Point(r.x, r.y % P)
  }

  /**
   * Where the as-written and the repaired additions agree.  For canonical
   * operands that neither negation test (against n or against p) catches,
   * the repaired sum is the as-written one with its y reduced, and the two
   * are equal whenever the as-written y is below p, that is whenever the
   * line value is not 0 (ReflectedLaw).  They differ on P + (-P), which the
   * as-written test misses (AddMissesNegation), on the off-curve pairs
   * with y0 = n - y1 that it sends to infinity, and on a zero line value
   * (AddNonCanonical).
   */
  lemma AddAgrees(p0: Point, p1: Point)
    requires Canonical(p0) && Canonical(p1)
    requires !(p0.x == p1.x && p0.y == N - p1.y) && !(p0.x == p1.x && p0.y == P - p1.y)
    ensures AddCorrected(p0, p1) == Reduce(Add(p0, p1))
    ensures Add(p0, p1).y < P ==> AddCorrected(p0, p1) == Add(p0, p1)
  {
    ModOfSmall(p0.y, P);
    ModOfSmall(p1.y, P);
    var a := Add(p0, p1);
    if a.y < P {
      ModOfSmall(a.y, P);
    }
  }

  /** With the test against p, P + (-P) is the point at infinity. */
  lemma AddCorrectedNegation(p0: Point)
    requires !IsInfinity(p0) && p0.y < P
    ensures AddCorrected(p0, Negate(p0)) == Infinity
  {
  }

  /** The repaired addition keeps coordinates canonical. */
  lemma AddCorrectedCanonical(p0: Point, p1: Point)
    requires Canonical(p0) && Canonical(p1)
    ensures Canonical(AddCorrected(p0, p1))
  {
  }

  /** As written, G + (-G) is not infinity: the test against n - y misses it. */
  lemma AddMissesNegation()
    ensures Add(G, Negate(G)) == Point(P - 2 * Gx, P - Gy)
    ensures Add(G, Negate(G)) != Infinity
  {
    ChordSlopeZero(Gx, Gy, P - Gy);
    ModOfSmall(P - 2 * Gx, P);
    assert (0 - Gx - Gx) % P == P - 2 * Gx by {
      ModShift(0 - Gx - Gx, 1, P);
    }
    ModOfSmall(Gy, P);
  }

  /** As written, the sum of two canonical points can have y == p. */
  lemma AddNonCanonical()
    ensures Canonical(Point(1, 3)) && Canonical(Point(2, 4))
    ensures Add(Point(1, 3), Point(2, 4)) == Point(P - 2, P)
  {
    var inv := P - 1;
    assert (-1 * inv) % P == 1 by {
      ModShift(1, -1, P);
      ModOfSmall(1, P);
    }
    InverseWitness(-1, P, inv);
    InverseUnique(-1, inv, ModInverse(-1, P), P);
    var m := ChordSlope(1, 3, 2, 4);
    assert m == ((3 - 4) * inv) % P;
    assert m == 1 by {
      ModShift(1, -1, P);
      ModOfSmall(1, P);
    }
    assert (1 - 1 - 2) % P == P - 2 by {
      ModShift(-2, 1, P);
      ModOfSmall(P - 2, P);
    }
    assert (3 % P - 1) % P == 2 by {
      ModOfSmall(3, P);
      ModOfSmall(2, P);
    }
    assert (1 * (P - 2) + 2) % P == 0 by {
      MultipleMod(1, P);
    }
  }

  // ---------------------------------------------------------------------
  // Secp256k1Mul and Secp256k1Pub.

  /**
   * The double-and-add result for scalar k, most significant bit first:
   * the reference the byte-wise loop of Mul is proved against.  Multiples
   * of a canonical point are canonical.
   */
  function ScalarMul(k: nat, p0: Point): (r: Point)
    ensures Canonical(p0) ==> Canonical(r)
  {
    if k == 0 then Infinity
    else
      var half := ScalarMul(k / 2, p0);
      var doubled := AddCorrected(half, half);
      if k % 2 == 1 then AddCorrected(doubled, p0) else doubled
  }

  /** One step of the ladder: appending bit `bit` to the scalar read so far. */
  lemma ScalarMulStep(v: nat, bit: nat, p0: Point)
    requires bit < 2
    ensures var d := AddCorrected(ScalarMul(v, p0), ScalarMul(v, p0));
            ScalarMul(2 * v + bit, p0) == if bit == 1 then AddCorrected(d, p0) else d
  {
    if v == 0 && bit == 0 {
      assert ScalarMul(0, p0) == Infinity;
    } else {
      assert (2 * v + bit) / 2 == v && (2 * v + bit) % 2 == bit;
    }
  }

  /** `v` shifted left by `j` bits. */
  function Shl(v: nat, j: nat): nat {
    if j == 0 then v else 2 * Shl(v, j - 1)
  }

  /**
   * `Secp256k1Mul`: starting from infinity, for each of the 8 * |k.Bytes()|
   * bits of k, most significant first, double the accumulator and add the
   * base point when the bit is 1.
   */
  method Mul(k: nat, p0: Point) returns (r: Point)
    ensures r == ScalarMul(k, p0)
  {
    r := Infinity;
    var bytes := MinimalBytes(k);
    var i := 0;
    while i < |bytes|
      invariant 0 <= i <= |bytes|
      invariant r == ScalarMul(BEValue(bytes[..i]), p0)
    {
      assert bytes[..i + 1][..i] == bytes[..i];
      r := MulByte(r, bytes[i], p0, BEValue(bytes[..i]), BEValue(bytes[..i + 1]));
      i := i + 1;
    }
    assert bytes[..i] == bytes;
  }

  /**
   * The inner loop of `Secp256k1Mul`: the eight bits of one byte of k, most
   * significant first, each a doubling followed by an addition of the base
   * point when the bit is set.
   */
  method MulByte(r0: Point, byteVal: byte, p0: Point, ghost acc: nat, ghost next: nat)
    returns (r: Point)
    requires r0 == ScalarMul(acc, p0) && next == acc * 256 + byteVal
    ensures r == ScalarMul(next, p0)
  {
    r := r0;
    var b: int := byteVal;
    ghost var v: nat := acc;
    var j := 0;
    while j < 8
      invariant 0 <= j <= 8 && 0 <= b < 256
      invariant v * 256 + b == Shl(next, j)
      invariant r == ScalarMul(v, p0)
    {
      var bit := b / 128;        // (0b10000000 & b) >> 7
      ShiftBit(b);
      b := (b * 2) % 256;        // b << 1 on a byte
      r := DoubleAndAdd(r, bit, p0, v);
      v := 2 * v + bit;
      j := j + 1;
    }
    ShlByte(next);
    DivModUnique(next * 256, 256, v, b);
    DivModUnique(next * 256, 256, next, 0);
  }

  /**
   * One bit of the ladder: double the accumulator, then add the base point
   * when the bit is 1; the scalar read so far becomes 2*v + bit.
   */
  method DoubleAndAdd(r0: Point, bit: nat, p0: Point, ghost v: nat) returns (r: Point)
    requires bit < 2 && r0 == ScalarMul(v, p0)
    ensures r == ScalarMul(2 * v + bit, p0)
  {
    ScalarMulStep(v, bit, p0);
    r := AddCorrected(r0, r0);
    if bit == 1 {
      r := AddCorrected(r, p0);
    }
  }

  /** Shifting a byte left moves its top bit out. */
  lemma ShiftBit(b: int)
    requires 0 <= b < 256
    ensures 0 <= b / 128 < 2 && b * 2 == (b / 128) * 256 + (b * 2) % 256
  {
    DivModUnique(b * 2, 256, b / 128, b * 2 - (b / 128) * 256);
  }

  lemma ShlByte(v: nat)
    ensures Shl(v, 8) == v * 256
  {
    assert Shl(v, 8) == 2 * Shl(v, 7) == 4 * Shl(v, 6) == 8 * Shl(v, 5) == 16 * Shl(v, 4);
    assert Shl(v, 4) == 2 * Shl(v, 3) == 4 * Shl(v, 2) == 8 * Shl(v, 1) == 16 * v;
  }

  /** Mul by 0 is infinity and Mul by 1 is the point itself. */
  lemma ScalarMulSmall(p0: Point)
    ensures ScalarMul(0, p0) == Infinity
    ensures ScalarMul(1, p0) == p0
  {
    assert ScalarMul(1, p0) == AddCorrected(AddCorrected(Infinity, Infinity), p0);
  }

  /** `Secp256k1Pub`: k times the generator, always a canonical point. */
  function Pub(k: nat): (r: Point)
    ensures Canonical(r)
  {
    ScalarMul(k, G)
  }

  lemma PubOfOne()
    ensures Pub(1) == G
  {
    ScalarMulSmall(G);
  }

  /** 2·G, the standard second multiple of the generator. */
  const TwoG: Point := Point(0xC6047F9441ED7D6D3045406E95C07CD85C778E4B8CEF3CA7ABAC09B95C709EE5,
                             0x1AE168FEA63DC339A3C58419466CEAEEF7F632653266D0E1236431A950CFE52A)

  /** The doubling denominator 2·Gy has the inverse below, so ModInverse returns it. */
  lemma DoublingInverse()
    ensures ModInverse((2 * Gy) % P, P) == 0xB7E31A064ED74D314DE79011C5F0A46AC155602353DC3D340FBEAEEC9767A6A6
  {
    var g := (2 * Gy) % P;
    var inv := 0xB7E31A064ED74D314DE79011C5F0A46AC155602353DC3D340FBEAEEC9767A6A6;
    assert g == 0x9075B4EE4D4788CABB49F7F81C221151FA2F68914D0AA833388FA11FF621A970;
    assert (g * inv) % P == 1;
    InverseWitness(g, P, inv);
    InverseUnique(g, inv, ModInverse(g, P), P);
  }

  lemma DoublingSlope()
    ensures TangentSlope(Gx, Gy) == 0xCB35B28428101A303EB9D1235992AC63F58857C2F631EE6936D3AEBBEDDCD1B1
  {
    DoublingInverse();
    SlopeProducts();
  }

  /** The products and remainders of the doubling slope at G, one step per clause. */
  lemma SlopeProducts()
    ensures (3 * Gx) % P == 0x6D3B337CED96330500E127C16B95211507D3F691896A7A8C0DD7841244E84A99
    ensures (0x6D3B337CED96330500E127C16B95211507D3F691896A7A8C0DD7841244E84A99 * Gx) % P
         == 0x8FF2B776AAF6D91942FD096D2F1F7FD9AA2F64BE71462131AA7F067E28FEF8AC
    ensures (0x8FF2B776AAF6D91942FD096D2F1F7FD9AA2F64BE71462131AA7F067E28FEF8AC
             * 0xB7E31A064ED74D314DE79011C5F0A46AC155602353DC3D340FBEAEEC9767A6A6) % P
         == 0xCB35B28428101A303EB9D1235992AC63F58857C2F631EE6936D3AEBBEDDCD1B1
  {
  }

  /** The doubling branch applied to G gives 2·G. */
  lemma TangentOfG()
    ensures Tangent(G) == TwoG
  {
    DoublingSlope();
    LineProducts();
  }

  /** The intercept, x and line value of the doubling at G, one step per clause. */
  lemma LineProducts()
    ensures (0xCB35B28428101A303EB9D1235992AC63F58857C2F631EE6936D3AEBBEDDCD1B1 * Gx) % P
         == 0x56B7252E424C518CA878A884D85C103B9FA2AB8718B6F8E11FC75F608D185A37
    ensures (Gy - 0x56B7252E424C518CA878A884D85C103B9FA2AB8718B6F8E11FC75F608D185A37) % P
         == 0xF183B548E45772D8B52C537735B4F86D5D7508C18DCE5B387C80712E6DF876B0
    ensures (0xCB35B28428101A303EB9D1235992AC63F58857C2F631EE6936D3AEBBEDDCD1B1
             * 0xCB35B28428101A303EB9D1235992AC63F58857C2F631EE6936D3AEBBEDDCD1B1 - Gx - Gx) % P
         == TwoG.x
    ensures (0xCB35B28428101A303EB9D1235992AC63F58857C2F631EE6936D3AEBBEDDCD1B1 * TwoG.x
             + 0xF183B548E45772D8B52C537735B4F86D5D7508C18DCE5B387C80712E6DF876B0) % P
         == P - TwoG.y
  {
  }

  /** G + G, as written and repaired, is the standard 2·G. */
  lemma AddOfGG()
    ensures Add(G, G) == TwoG
    ensures AddCorrected(G, G) == TwoG
  {
    TangentOfG();
    ModOfSmall(TwoG.y, P);
  }

  lemma PubOfTwo()
    ensures Pub(2) == TwoG
  {
    ScalarMulSmall(G);
    assert Pub(2) == AddCorrected(ScalarMul(1, G), ScalarMul(1, G));
    AddOfGG();
  }

  // ---------------------------------------------------------------------
  // Secp256k1Compressed, identifiers and fingerprints.

  function Prefix(p0: Point): byte {
    if p0.y % 2 == 0 then 2 else 3
  }

  /**
   * `Secp256k1Compressed` as written: the parity byte, then x's minimal
   * big-endian bytes copied from index 1 (at most 32 of them), then zeros.
   */
  function Compressed(p0: Point): (r: seq<byte>)
    ensures |r| == 33
    ensures r[0] == 2 <==> p0.y % 2 == 0
    ensures r[0] == 3 <==> p0.y % 2 == 1
  {
    var xb := MinimalBytes(p0.x);
    var n := if |xb| < 32 then |xb| else 32;
    [Prefix(p0)] + xb[..n] + Zeros(32 - n)
  }

  /**
   * Where `Compressed` puts x: its bytes start at index 1 and are followed,
   * not preceded, by zeros, so bytes 1..32 read as x * 256^(32 - |x.Bytes()|)
   * rather than x.
   */
  lemma CompressedLayout(p0: Point)
    requires p0.x < Pow256(32)
    ensures var xb := MinimalBytes(p0.x);
            && |xb| <= 32
            && Compressed(p0)[1..] == xb + Zeros(32 - |xb|)
            && BEValue(Compressed(p0)[1..]) == p0.x * Pow256(32 - |xb|)
  {
    MinimalBytesFit(p0.x, 32);
    CompressedTail(p0);
  }

  lemma CompressedTail(p0: Point)
    requires |MinimalBytes(p0.x)| <= 32
    ensures var xb := MinimalBytes(p0.x);
            && Compressed(p0)[1..] == xb + Zeros(32 - |xb|)
            && BEValue(Compressed(p0)[1..]) == p0.x * Pow256(32 - |xb|)
  {
    var xb := MinimalBytes(p0.x);
    var z := Zeros(32 - |xb|);
    assert Compressed(p0)[1..] == xb + z;
    BEValueAppend(xb, z);
    ZerosValue(32 - |xb|);
  }

  /**
   * As written, x = 1 is encoded as the byte 1 followed by 31 zeros, which
   * reads back as 256^31; the padded encoding reads back as 1.
   */
  lemma CompressedDropsPadding()
    ensures Compressed(Point(1, 2))[1..] == [1] + Zeros(31)
    ensures BEValue(Compressed(Point(1, 2))[1..]) == Pow256(31)
    ensures BEValue(CompressedPadded(Point(1, 2))[1..]) == 1
    ensures Compressed(Point(1, 2)) != CompressedPadded(Point(1, 2))
  {
    assert MinimalBytes(1) == [1] by {
      assert MinimalBytes(0) == [];
    }
    CompressedTail(Point(1, 2));
    assert BEValue([1]) == 1;
    OneBelowPow(32);
    ModOfSmall(1, Pow256(32));
    OneBelowPow(31);
  }

  lemma OneBelowPow(n: nat)
    requires n > 0
    ensures 1 < Pow256(n)
  {
    PowMonotone(1, n);
  }

  /** The compressed encoding with x left-padded to exactly 32 bytes. */
  function CompressedPadded(p0: Point): (r: seq<byte>)
    ensures |r| == 33
    ensures r[0] == 2 <==> p0.y % 2 == 0
    ensures r[0] == 3 <==> p0.y % 2 == 1
    ensures BEValue(r[1..]) == p0.x % Pow256(32)
  {
    var r := [Prefix(p0)] + FixedBytes(p0.x, 32);
    assert r[1..] == FixedBytes(p0.x, 32);
    FixedBytesValue(p0.x, 32);
    r
  }

  /** Every x below 2^256 can be read back from the padded encoding. */
  lemma CompressedPaddedRoundTrip(p0: Point)
    requires p0.x < Pow256(32)
    ensures BEValue(CompressedPadded(p0)[1..]) == p0.x
  {
    ModOfSmall(p0.x, Pow256(32));
  }

  /**
   * Where the as-written and the padded encodings agree: for x below 2^256
   * they coincide exactly when x is 0 or has a full 32-byte `Bytes()`, that
   * is x >= 256^31; every other x (about one key in 256) is encoded
   * differently.
   */
  lemma CompressedAgrees(p0: Point)
    requires p0.x < Pow256(32)
    ensures Compressed(p0) == CompressedPadded(p0) <==> p0.x == 0 || Pow256(31) <= p0.x
  {
    SameTailSameEncoding(p0);
    if p0.x == 0 {
      CompressedZero(p0);
    } else if Pow256(31) <= p0.x {
      CompressedFull(p0);
    } else {
      CompressedShortDiffers(p0);
    }
  }

  /** Both encodings start with the same parity byte, so they agree exactly when their tails do. */
  lemma SameTailSameEncoding(p0: Point)
    ensures Compressed(p0) == CompressedPadded(p0) <==> Compressed(p0)[1..] == FixedBytes(p0.x, 32)
  {
  }

  lemma CompressedZero(p0: Point)
    requires p0.x == 0
    ensures Compressed(p0)[1..] == FixedBytes(p0.x, 32)
  {
    CompressedTail(p0);
    ZerosValue(32);
    FixedBytesOfValue(Zeros(32));
  }

  lemma CompressedFull(p0: Point)
    requires Pow256(31) <= p0.x < Pow256(32)
    ensures Compressed(p0)[1..] == FixedBytes(p0.x, 32)
  {
    var xb := MinimalBytes(p0.x);
    MinimalBytesFit(p0.x, 32);
    MinimalBytesFit(p0.x, 31);
    CompressedTail(p0);
    assert Compressed(p0)[1..] == xb;
    FixedBytesOfValue(xb);
  }

  /** Below 256^31 (and above 0) the as-written tail reads as a larger number than x. */
  lemma CompressedShortDiffers(p0: Point)
    requires 0 < p0.x < Pow256(31)
    ensures Compressed(p0)[1..] != FixedBytes(p0.x, 32)
  {
    CompressedShortValue(p0);
    PowMonotone(31, 32);
    FixedBytesValue(p0.x, 32);
    ModOfSmall(p0.x, Pow256(32));
  }

  lemma CompressedShortValue(p0: Point)
    requires 0 < p0.x < Pow256(31)
    ensures BEValue(Compressed(p0)[1..]) > p0.x
  {
    var xb := MinimalBytes(p0.x);
    MinimalBytesFit(p0.x, 31);
    CompressedTail(p0);
    OneBelowPow(32 - |xb|);
    ScaledAbove(p0.x, Pow256(32 - |xb|));
  }

  lemma ScaledAbove(x: int, w: int)
    requires x > 0 && w > 1
    ensures x * w > x
  {
  }

  /**
   * `Secp256k1Compressed`'s buffer: a fresh 33-byte slice, 0x03 at index 0,
   * `copy(result[1:], x.Bytes())`, then 0x02 when y is even.
   */
  method Compress(p0: Point) returns (r: seq<byte>)
    ensures r == Compressed(p0)
  {
    var result := new byte[33](_ => 0);
    result[0] := 3;
    var xBytes := MinimalBytes(p0.x);
    var count := if |xBytes| < 32 then |xBytes| else 32;
    var k := 0;
    while k < count
      invariant 0 <= k <= count
      invariant result[0] == 3
      invariant forall t :: 0 <= t < k ==> result[1 + t] == xBytes[t]
      invariant forall t :: 1 + k <= t < 33 ==> result[t] == 0
    {
      result[1 + k] := xBytes[k];
      k := k + 1;
    }
    if p0.y % 2 == 0 {
      result[0] := 2;
    }
    r := result[..];
    assert r == Compressed(p0);
  }

  /** `Secp256k1Identifier`: RIPEMD160(SHA256(compressed public key of k)). */
  function Identifier(h: Hashes, k: nat): (r: seq<byte>)
    ensures |r| == 20
  {
    h.ripemd160(h.sha256(CompressedPadded(Pub(k))))
  }

  /** `Secp256k1Fingerprint`: the first four bytes of the identifier. */
  function Fingerprint(h: Hashes, k: nat): (r: seq<byte>)
    ensures |r| == 4 && r == Identifier(h, k)[..4]
  {
    Identifier(h, k)[..4]
  }
}
