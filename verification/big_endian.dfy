/**
 * Byte strings and their big-endian reading, the conversions `math/big`
 * performs with `SetBytes`, `Bytes` and `binary.BigEndian.AppendUint32`.
 */
module BigEndian {
  import opened ModArith

  type byte = b: int | 0 <= b < 256
  type uint32 = i: int | 0 <= i < 0x1_0000_0000

  function Pow256(n: nat): (r: nat)
    ensures r > 0
  {
    if n == 0 then 1 else 256 * Pow256(n - 1)
  }

  /** `new(big.Int).SetBytes(s)`: the unsigned big-endian value of `s`. */
  function BEValue(s: seq<byte>): (v: nat)
    ensures v < Pow256(|s|)
  {
    if s == [] then 0 else BEValue(s[..|s| - 1]) * 256 + s[|s| - 1]
  }

  /** `big.Int.Bytes()`: the shortest big-endian encoding, empty for zero. */
  function MinimalBytes(v: nat): (r: seq<byte>)
    ensures BEValue(r) == v
    ensures r == [] <==> v == 0
    ensures r != [] ==> r[0] != 0
  {
    if v == 0 then []
    else
      var r := MinimalBytes(v / 256) + [v % 256];
      assert r[..|r| - 1] == MinimalBytes(v / 256);
      r
  }

  /** The `n`-byte big-endian encoding of `v` modulo 256^n. */
  function FixedBytes(v: nat, n: nat): (r: seq<byte>)
    ensures |r| == n
  {
    if n == 0 then [] else FixedBytes(v / 256, n - 1) + [v % 256]
  }

  /** `binary.BigEndian.AppendUint32`'s four bytes. */
  function Ser32(i: uint32): (r: seq<byte>)
    ensures |r| == 4 && BEValue(r) == i
  {
    FixedBytesValue(i, 4);
    FixedBytes(i, 4)
  }

  function Zeros(n: nat): (r: seq<byte>)
    ensures |r| == n && forall k :: 0 <= k < n ==> r[k] == 0
  {
    seq(n, _ => 0)
  }

  /** Reading a concatenation: the prefix is shifted past the suffix. */
  lemma {:induction false} BEValueAppend(a: seq<byte>, b: seq<byte>)
    ensures BEValue(a + b) == BEValue(a) * Pow256(|b|) + BEValue(b)
    decreases |b|
  {
    if b == [] {
      assert a + b == a;
    } else {
      var b' := b[..|b| - 1];
      assert (a + b)[..|a + b| - 1] == a + b';
      BEValueAppend(a, b');
      Regroup(BEValue(a), Pow256(|b'|), BEValue(b'), b[|b| - 1]);
    }
  }

  lemma Regroup(x: int, q: int, y: int, z: int)
    ensures (x * q + y) * 256 + z == x * (256 * q) + (y * 256 + z)
  {
  }

  /** Leading zero bytes do not change the value. */
  lemma BEValueZeros(n: nat, s: seq<byte>)
    ensures BEValue(Zeros(n) + s) == BEValue(s)
  {
    BEValueAppend(Zeros(n), s);
    ZerosValue(n);
  }

  lemma {:induction false} ZerosValue(n: nat)
    ensures BEValue(Zeros(n)) == 0
  {
    if n > 0 {
      assert Zeros(n)[..n - 1] == Zeros(n - 1);
      ZerosValue(n - 1);
    }
  }

  /** The shortest encoding fits in `n` bytes exactly when the value is below 256^n. */
  lemma {:induction false} MinimalBytesFit(v: nat, n: nat)
    ensures |MinimalBytes(v)| <= n <==> v < Pow256(n)
  {
    if v != 0 && n > 0 {
      MinimalBytesFit(v / 256, n - 1);
    } else if v != 0 {
      assert |MinimalBytes(v)| > 0;
    }
    if |MinimalBytes(v)| <= n {
      PowMonotone(|MinimalBytes(v)|, n);
    }
  }

  lemma {:induction false} PowMonotone(a: nat, b: nat)
    requires a <= b
    ensures Pow256(a) <= Pow256(b)
    decreases b
  {
    if a < b {
      PowMonotone(a, b - 1);
    }
  }

  /** Powers of 256 add their exponents. */
  lemma {:induction false} PowAdd(a: nat, b: nat)
    ensures Pow256(a + b) == Pow256(a) * Pow256(b)
    decreases b
  {
    if b > 0 {
      PowAdd(a, b - 1);
      assert Pow256(a + b) == 256 * Pow256(a + b - 1);
    }
  }

  /** The fixed-width encoding keeps exactly the value modulo 256^n. */
  lemma {:induction false} FixedBytesValue(v: nat, n: nat)
    ensures BEValue(FixedBytes(v, n)) == v % Pow256(n)
  {
    if n == 0 {
      MultipleMod(v, 1);
    } else {
      var r := FixedBytes(v, n);
      assert r[..n - 1] == FixedBytes(v / 256, n - 1);
      FixedBytesValue(v / 256, n - 1);
      ModLowByte(v, Pow256(n - 1));
    }
  }

  /** Reducing modulo 256 * q keeps the low byte and reduces the rest modulo q. */
  lemma ModLowByte(v: nat, q: nat)
    requires q > 0
    ensures v % (256 * q) == ((v / 256) % q) * 256 + v % 256
  {
    var hi, top := (v / 256) % q, (v / 256) / q;
    assert v / 256 == top * q + hi;
    assert v == (v / 256) * 256 + v % 256;
    Regroup(top, q, hi, v % 256);
    assert hi * 256 <= (q - 1) * 256;
    DivModUnique(v, 256 * q, top, hi * 256 + v % 256);
  }

  /** The last `n` bytes of `s` hold its value modulo 256^n. */
  lemma BEValueSuffix(s: seq<byte>, n: nat)
    requires n <= |s|
    ensures BEValue(s[|s| - n..]) == BEValue(s) % Pow256(n)
  {
    var hi, lo := s[..|s| - n], s[|s| - n..];
    assert s == hi + lo;
    BEValueAppend(hi, lo);
    DivModUnique(BEValue(s), Pow256(n), BEValue(hi), BEValue(lo));
  }

  /** A byte string is the fixed-width encoding of its own value at its own width. */
  lemma {:induction false} FixedBytesOfValue(s: seq<byte>)
    ensures FixedBytes(BEValue(s), |s|) == s
  {
    if s != [] {
      var init, last := s[..|s| - 1], s[|s| - 1];
      FixedBytesOfValue(init);
      DivModUnique(BEValue(s), 256, BEValue(init), last);
      assert s == init + [last];
    }
  }
}
