/**
 * The entropy helpers of entropy.go: turning dice rolls into base-b digit
 * strings, and turning a base-b number into a fixed number of entropy bytes.
 * Strings are sequences of runes, as Go's `range` over a string yields them.
 */
module Entropy {
  import opened Results
  import opened ModArith
  import opened BigEndian

  // ---------------------------------------------------------------------
  // DiceToBase

  datatype DiceError = InvalidSymbol(symbol: char)

  /** Go's conversion of an `int` to `rune`: the low 32 bits as a signed value. */
  function Int32Wrap(v: int): (r: int)
    ensures -0x8000_0000 <= r < 0x8000_0000 && (r - v) % 0x1_0000_0000 == 0
  {
    var m := v % 0x1_0000_0000;
    ReducedDifference(v, 0x1_0000_0000);
    if m >= 0x8000_0000 then
      ModShift(m - v, -1, 0x1_0000_0000);
      m - 0x1_0000_0000
    else m
  }

  /** Go's `uint` arithmetic: results modulo 2^64. */
  function Uint64Wrap(v: int): (r: nat)
    ensures r < 0x1_0000_0000_0000_0000 && (r - v) % 0x1_0000_0000_0000_0000 == 0
  {
    ReducedDifference(v, 0x1_0000_0000_0000_0000);
    v % 0x1_0000_0000_0000_0000
  }

  /** The highest accepted symbol, `'0' + rune(base)` in 32-bit rune arithmetic. */
  function Highest(base: int): int {
    Int32Wrap('0' as int + Int32Wrap(base))
  }

  /** A die face DiceToBase accepts: from '1' up to '0' + base. */
  predicate Accepted(x: char, base: int) {
    '1' <= x && x as int <= Highest(base)
  }

  /** The face equal to `uint('0') + uint(base)` becomes '0'; every other face is kept. */
  function MapFace(x: char, base: int): char {
    if x as int == Uint64Wrap('0' as int + base) then '0' else x
  }

  /**
   * `DiceToBase(s, base)`: the first rejected face ends the conversion with
   * an error naming it; otherwise every face is mapped into the output.
   */
  method DiceToBase(s: string, base: int) returns (r: Result<string, DiceError>)
    ensures r.Ok? <==> forall k :: 0 <= k < |s| ==> Accepted(s[k], base)
    ensures r.Ok? ==> |r.value| == |s| && forall k :: 0 <= k < |s| ==> r.value[k] == MapFace(s[k], base)
    ensures r.Err? ==> exists j :: && 0 <= j < |s| && !Accepted(s[j], base)
                                  && r.error == InvalidSymbol(s[j])
                                  && forall k :: 0 <= k < j ==> Accepted(s[k], base)
  {
    var builder: string := [];
    var i := 0;
    while i < |s|
      invariant 0 <= i <= |s| && |builder| == i
      invariant forall k :: 0 <= k < i ==> Accepted(s[k], base) && builder[k] == MapFace(s[k], base)
    {
      var x := s[i];
      if x < '1' || x as int > Highest(base) {
        return Err(InvalidSymbol(x));
      }
      if x as int == Uint64Wrap('0' as int + base) {
        x := '0';
      }
      builder := builder + [x];
      i := i + 1;
    }
    return Ok(builder);
  }

  /** For any base that fits a rune, the 32- and 64-bit conversions change nothing. */
  lemma NoWrap(base: int)
    requires 0 <= base <= 0x7FFF_FFFF - '0' as int
    ensures Highest(base) == '0' as int + base
    ensures Uint64Wrap('0' as int + base) == '0' as int + base
  {
    ModOfSmall(base, 0x1_0000_0000);
    ModOfSmall('0' as int + base, 0x1_0000_0000);
    ModOfSmall('0' as int + base, 0x1_0000_0000_0000_0000);
  }

  /**
   * For such a base an accepted face f (from 1 to base) becomes the digit
   * f mod base, so the output digits lie in '0' .. '0' + base - 1.
   */
  lemma FaceDigit(x: char, base: int)
    requires 1 <= base <= 0x7FFF_FFFF - '0' as int && Accepted(x, base)
    ensures MapFace(x, base) as int - '0' as int == (x as int - '0' as int) % base
    ensures '0' <= MapFace(x, base) && MapFace(x, base) as int < '0' as int + base
  {
    NoWrap(base);
    var f := x as int - '0' as int;
    if f == base {
      MultipleMod(1, base);
    } else {
      ModOfSmall(f, base);
    }
  }

  /** The output of a successful conversion consists of base-`base` digits only. */
  lemma DiceOutputDigits(s: string, base: int, out: string)
    requires 1 <= base <= 0x7FFF_FFFF - '0' as int
    requires |out| == |s| && forall k :: 0 <= k < |s| ==> Accepted(s[k], base) && out[k] == MapFace(s[k], base)
    ensures forall k :: 0 <= k < |out| ==> '0' <= out[k] && out[k] as int < '0' as int + base
  {
    forall k | 0 <= k < |out|
      ensures '0' <= out[k] && out[k] as int < '0' as int + base
    {
      FaceDigit(s[k], base);
    }
  }

  // ---------------------------------------------------------------------
  // StringToEntropyRaw

  datatype EntropyError = InvalidInput

  /**
   * The value of one digit in `big.Int.SetString` with an explicit base:
   * letters are case-blind up to base 36; above it the upper-case letters
   * continue from 36.  None when the character is not a digit below `base`.
   */
  function DigitValue(c: char, base: nat): (r: Option<nat>)
    ensures r.Some? ==> r.value < base
  {
    var v: int :=
      if '0' <= c <= '9' then c as int - '0' as int
      else if 'a' <= c <= 'z' then c as int - 'a' as int + 10
      else if 'A' <= c <= 'Z' then
        (if base <= 36 then c as int - 'A' as int + 10 else c as int - 'A' as int + 36)
      else base;
    if v < base then Some(v) else None
  }

  /**
   * The value of a run of digits, most significant first: defined exactly
   * when every character is a digit below `base`.
   */
  function DigitsValue(s: string, base: nat): (r: Option<nat>)
    ensures r.Some? <==> forall k :: 0 <= k < |s| ==> DigitValue(s[k], base).Some?
  {
    if s == [] then Some(0)
    else
      match (DigitsValue(s[..|s| - 1], base), DigitValue(s[|s| - 1], base))
      case (Some(hi), Some(d)) => Some(hi * base + d)
      case _ => None
  }

  /**
   * `new(big.Int).SetString(s, base)` for a base from 2 to 62: an optional
   * sign, then at least one digit; no prefix and no underscores.
   */
  function ParseInt(s: string, base: nat): (r: Option<int>)
    requires 2 <= base <= 62
    ensures var signed := |s| > 0 && (s[0] == '+' || s[0] == '-');
            && (r.Some? <==> (|s| > (if signed then 1 else 0)
                              && forall k :: (if signed then 1 else 0) <= k < |s| ==> DigitValue(s[k], base).Some?))
            && (r.Some? && signed && s[0] == '-' ==> r.value <= 0)
            && (r.Some? && !(signed && s[0] == '-') ==> r.value >= 0)
  {
    var signed := |s| > 0 && (s[0] == '+' || s[0] == '-');
    var digits := if signed then s[1..] else s;
    if digits == [] then None
    else
      match DigitsValue(digits, base)
      case None => None
      case Some(v) =>
        var n: int := if signed && s[0] == '-' then -(v as int) else v;
        Some(n)
  }

  function Abs(v: int): nat {
    if v < 0 then -v else v
  }

  /**
   * Left-pad `b` with zeros up to `required` bytes, then keep its last
   * `required` bytes: the value modulo 256^required.
   */
  function LastBytes(b: seq<byte>, required: nat): (r: seq<byte>)
    ensures |r| == required && BEValue(r) == BEValue(b) % Pow256(required)
  {
    var padded := if |b| < required then Zeros(required - |b|) + b else b;
    assert BEValue(padded) == BEValue(b) by {
      if |b| < required {
        BEValueZeros(required - |b|, b);
      }
    }
    BEValueSuffix(padded, required);
    padded[|padded| - required..]
  }

  /**
   * `StringToEntropyRaw(s, base, bits)`: the magnitude of the parsed number
   * as big-endian bytes, left-padded with zeros or cut to its last bits/8
   * bytes.
   */
  function StringToEntropyRaw(s: string, base: nat, bits: nat): (r: Result<seq<byte>, EntropyError>)
    requires 2 <= base <= 62
    ensures r.Ok? <==> ParseInt(s, base).Some?
    ensures r.Ok? ==> |r.value| == bits / 8
    ensures r.Ok? ==> BEValue(r.value) == Abs(ParseInt(s, base).value) % Pow256(bits / 8)
  {
    match ParseInt(s, base)
    case None => Err(InvalidInput)
    case Some(n) => Ok(LastBytes(MinimalBytes(Abs(n)), bits / 8))
  }

  /**
   * When the number fits in bits/8 bytes nothing is lost: the result is its
   * fixed-width big-endian encoding and reads back as the number's magnitude.
   */
  lemma EntropyKeepsValue(s: string, base: nat, bits: nat)
    requires 2 <= base <= 62 && ParseInt(s, base).Some?
    requires Abs(ParseInt(s, base).value) < Pow256(bits / 8)
    ensures StringToEntropyRaw(s, base, bits) == Ok(FixedBytes(Abs(ParseInt(s, base).value), bits / 8))
    ensures BEValue(StringToEntropyRaw(s, base, bits).value) == Abs(ParseInt(s, base).value)
  {
    var v := Abs(ParseInt(s, base).value);
    var out := StringToEntropyRaw(s, base, bits).value;
    ModOfSmall(v, Pow256(bits / 8));
    FixedBytesOfValue(out);
  }

  /** Two strings of the same length and value are equal. */
  lemma SameValueSameBytes(a: seq<byte>, b: seq<byte>)
    requires |a| == |b| && BEValue(a) == BEValue(b)
    ensures a == b
  {
    FixedBytesOfValue(a);
    FixedBytesOfValue(b);
  }

  /** The symbol of digit `d` below 62: 0-9, then a-z, then A-Z. */
  function DigitSymbol(d: nat): char
    requires d < 62
  {
    if d < 10 then ('0' as int + d) as char
    else if d < 36 then ('a' as int + d - 10) as char
    else ('A' as int + d - 36) as char
  }

  /** Dividing by a base of at least 2 makes a number of at least that base smaller. */
  lemma DivDecreases(v: nat, base: nat)
    requires 2 <= base <= v
    ensures 0 < v / base < v && v == (v / base) * base + v % base
  {
    var q := v / base;
    assert v == q * base + v % base;
    assert q != 0;
    assert q * base >= q * 2;
  }

  /** The digits of `v` in base `base`, most significant first, with at least one digit. */
  function Digits(v: nat, base: nat): (r: string)
    requires 2 <= base <= 62
    ensures |r| > 0
    decreases v
  {
    if v < base then [DigitSymbol(v)]
    else
      DivDecreases(v, base);
      Digits(v / base, base) + [DigitSymbol(v % base)]
  }

  /** Each digit symbol is read back as its digit by SetString's rules. */
  lemma DigitSymbolValue(d: nat, base: nat)
    requires 2 <= base <= 62 && d < base
    ensures DigitValue(DigitSymbol(d), base) == Some(d)
  {
  }

  /** Reading the digits of `v` back gives `v`. */
  lemma {:induction false} DigitsRoundTrip(v: nat, base: nat)
    requires 2 <= base <= 62
    ensures DigitsValue(Digits(v, base), base) == Some(v)
    decreases v
  {
    if v < base {
      DigitSymbolValue(v, base);
      DigitsSnoc([], DigitSymbol(v), 0, v, base);
      assert Digits(v, base) == [] + [DigitSymbol(v)];
      assert 0 * base + v == v;
    } else {
      var q, d := v / base, v % base;
      DivDecreases(v, base);
      DigitsRoundTrip(q, base);
      DigitSymbolValue(d, base);
      var hi := Digits(q, base);
      assert Digits(v, base) == hi + [DigitSymbol(d)];
      DigitsSnoc(hi, DigitSymbol(d), q, d, base);
    }
  }

  /** Appending one digit shifts the value read so far by one place. */
  lemma DigitsSnoc(s: string, c: char, hi: nat, d: nat, base: nat)
    requires DigitsValue(s, base) == Some(hi) && DigitValue(c, base) == Some(d)
    ensures DigitsValue(s + [c], base) == Some(hi * base + d)
  {
    assert (s + [c])[..|s|] == s;
  }

  /**
   * Every natural number written in digits is accepted by the parser, and
   * its entropy bytes are the number's last bits/8 bytes.
   */
  lemma ParseDigits(v: nat, base: nat, bits: nat)
    requires 2 <= base <= 62
    ensures ParseInt(Digits(v, base), base) == Some(v)
    ensures StringToEntropyRaw(Digits(v, base), base, bits).Ok?
    ensures StringToEntropyRaw(Digits(v, base), base, bits).value == FixedBytes(v, bits / 8)
  {
    var s := Digits(v, base);
    DigitsRoundTrip(v, base);
    assert s[0] != '+' && s[0] != '-' by {
      DigitsNoSign(v, base);
    }
    var out := StringToEntropyRaw(s, base, bits).value;
    FixedBytesValue(v, bits / 8);
    SameValueSameBytes(out, FixedBytes(v, bits / 8));
  }

  /** Digit strings carry no sign. */
  lemma {:induction false} DigitsNoSign(v: nat, base: nat)
    requires 2 <= base <= 62
    ensures Digits(v, base)[0] != '+' && Digits(v, base)[0] != '-'
    decreases v
  {
    if v >= base {
      DivDecreases(v, base);
      DigitsNoSign(v / base, base);
    }
  }
}
