/**
 * Base58Check as encoding.go computes it: the input followed by the first
 * four bytes of SHA256(SHA256(input)), read as one unsigned big-endian
 * number and written in base 58 over the Bitcoin alphabet, most significant
 * digit first.  Unlike the usual Bitcoin convention, leading zero bytes are
 * not written as '1's: the number alone is encoded.
 */
module Base58 {
  import opened Results
  import opened BigEndian
  import opened Crypto

  /**
   * The Bitcoin alphabet, "123456789ABCDEFGHJKLMNPQRSTUVWXYZabcdefghijkmnopqrstuvwxyz",
   * written as its six runs of consecutive characters (0, O, I and l omitted).
   */
  const Alphabet: string :=
    "123456789" + "ABCDEFGH" + "JKLMN" + "PQRSTUVWXYZ" + "abcdefghijk" + "mnopqrstuvwxyz"

  /** The base-58 digits of `v`, most significant first; empty for zero. */
  function Encode(v: nat): (r: string)
    ensures r == [] <==> v == 0
  {
    if v == 0 then [] else Encode(v / 58) + [Symbol(v % 58)]
  }

  /** The symbol of digit `d`, by the alphabet's character ranges. */
  function Symbol(d: nat): char
    requires d < 58
  {
    if d < 9 then ('1' as int + d) as char
    else if d < 17 then ('A' as int + d - 9) as char
    else if d < 22 then ('J' as int + d - 17) as char
    else if d < 33 then ('P' as int + d - 22) as char
    else if d < 44 then ('a' as int + d - 33) as char
    else ('m' as int + d - 44) as char
  }

  /** The alphabet is the six character ranges of Symbol, in order. */
  lemma AlphabetRanges()
    ensures |Alphabet| == 58
    ensures forall d :: 0 <= d < 58 ==> Alphabet[d] == Symbol(d)
  {
    forall d | 0 <= d < 58
      ensures Alphabet[d] == Symbol(d)
    {
      if d < 9 {
        assert Alphabet[d] == ('1' as int + d) as char;
      } else if d < 17 {
        assert Alphabet[d] == ('A' as int + d - 9) as char;
      } else if d < 22 {
        assert Alphabet[d] == ('J' as int + d - 17) as char;
      } else if d < 33 {
        assert Alphabet[d] == ('P' as int + d - 22) as char;
      } else if d < 44 {
        assert Alphabet[d] == ('a' as int + d - 33) as char;
      } else {
        assert Alphabet[d] == ('m' as int + d - 44) as char;
      }
    }
  }

  /** The value of one alphabet character, by the alphabet's character ranges. */
  function DigitOf(c: char): Option<nat> {
    if '1' <= c <= '9' then Some(c as nat - '1' as nat)
    else if 'A' <= c <= 'H' then Some(c as nat - 'A' as nat + 9)
    else if 'J' <= c <= 'N' then Some(c as nat - 'J' as nat + 17)
    else if 'P' <= c <= 'Z' then Some(c as nat - 'P' as nat + 22)
    else if 'a' <= c <= 'k' then Some(c as nat - 'a' as nat + 33)
    else if 'm' <= c <= 'z' then Some(c as nat - 'm' as nat + 44)
    else None
  }

  /** Reading a base-58 string back; None when a character is outside the alphabet. */
  function Decode(s: string): Option<nat> {
    if s == [] then Some(0)
    else
      match (Decode(s[..|s| - 1]), DigitOf(s[|s| - 1]))
      case (Some(hi), Some(d)) => Some(hi * 58 + d)
      case _ => None
  }

  /** Every alphabet position decodes to itself, so no character repeats. */
  lemma DigitOfAlphabet(d: nat)
    requires d < 58
    ensures DigitOf(Symbol(d)) == Some(d)
  {
  }

  /** The characters DigitOf accepts are exactly the alphabet's. */
  lemma DigitIffAlphabet(c: char)
    ensures DigitOf(c).Some? <==> c in Alphabet
  {
    if DigitOf(c).Some? {
      var d := DigitOf(c).value;
      assert d < 58 && Symbol(d) == c;
      AlphabetAt(d);
    } else if c in Alphabet {
      var d :| 0 <= d < 58 && Alphabet[d] == c;
      AlphabetAt(d);
      assert false;
    }
  }

  /** Every character of an encoding is a digit. */
  lemma {:induction false} EncodeDigits(v: nat)
    ensures forall k :: 0 <= k < |Encode(v)| ==> DigitOf(Encode(v)[k]).Some?
  {
    if v > 0 {
      EncodeDigits(v / 58);
      DigitOfAlphabet(v % 58);
    }
  }

  /** Every character of an encoding belongs to the alphabet. */
  lemma EncodeInAlphabet(v: nat)
    ensures forall k :: 0 <= k < |Encode(v)| ==> Encode(v)[k] in Alphabet
  {
    EncodeDigits(v);
    forall k | 0 <= k < |Encode(v)|
      ensures Encode(v)[k] in Alphabet
    {
      DigitIffAlphabet(Encode(v)[k]);
    }
  }

  /** Base-58 encoding loses nothing: decoding gives the value back. */
  lemma {:induction false} DecodeEncode(v: nat)
    ensures Decode(Encode(v)) == Some(v)
  {
    if v > 0 {
      DecodeEncode(v / 58);
      DigitOfAlphabet(v % 58);
      DecodeSnoc(Encode(v / 58), Symbol(v % 58), v / 58, v % 58);
    }
  }

  /** Appending one digit to a decodable string shifts its value by one place. */
  lemma DecodeSnoc(s: string, c: char, hi: nat, d: nat)
    requires Decode(s) == Some(hi) && DigitOf(c) == Some(d)
    ensures Decode(s + [c]) == Some(hi * 58 + d)
  {
    assert (s + [c])[..|s|] == s;
  }

  /** A non-empty encoding never starts with the zero digit '1'. */
  lemma {:induction false} EncodeNoLeadingOne(v: nat)
    requires v > 0
    ensures Encode(v)[0] != '1'
  {
    if v / 58 > 0 {
      EncodeNoLeadingOne(v / 58);
    } else {
      DigitOfAlphabet(v % 58);
    }
  }

  function Pow58(n: nat): (r: nat)
    ensures r > 0
  {
    if n == 0 then 1 else 58 * Pow58(n - 1)
  }

  /**
   * The encoding has exactly as many characters as the value has base-58
   * digits: one per division of the loop.
   */
  lemma {:induction false} EncodeLength(v: nat)
    ensures v < Pow58(|Encode(v)|)
    ensures v > 0 ==> Pow58(|Encode(v)| - 1) <= v
  {
    if v > 0 {
      var q := v / 58;
      EncodeLength(q);
      assert v == q * 58 + v % 58;
      assert |Encode(v)| == |Encode(q)| + 1;
    }
  }

  /** Two values with the same encoding are equal. */
  lemma EncodeInjective(v: nat, w: nat)
    requires Encode(v) == Encode(w)
    ensures v == w
  {
    DecodeEncode(v);
    DecodeEncode(w);
  }

  /** The input followed by its four checksum bytes. */
  function Checksummed(h: Hashes, input: seq<byte>): (r: seq<byte>)
    ensures |r| == |input| + 4 && r[..|input|] == input
    ensures r[|input|..] == h.sha256(h.sha256(input))[..4]
  {
    input + h.sha256(h.sha256(input))[..4]
  }

  /** What `Base58Check(input)` returns. */
  function Base58CheckOf(h: Hashes, input: seq<byte>): string {
    Encode(BEValue(Checksummed(h, input)))
  }

  /**
   * The Base58Check string carries the checksummed bytes' value exactly, uses
   * only alphabet characters, and never begins with '1' (so leading zero
   * bytes of the input are not represented).
   */
  lemma Base58CheckDecodes(h: Hashes, input: seq<byte>)
    ensures var s := Base58CheckOf(h, input);
            && Decode(s) == Some(BEValue(Checksummed(h, input)))
            && (forall k :: 0 <= k < |s| ==> s[k] in Alphabet)
            && (s != [] ==> s[0] != '1')
  {
    var v := BEValue(Checksummed(h, input));
    DecodeEncode(v);
    EncodeInAlphabet(v);
    if v > 0 {
      EncodeNoLeadingOne(v);
    }
  }

  function Reverse(s: string): (r: string)
    ensures |r| == |s|
  {
    seq(|s|, k requires 0 <= k < |s| => s[|s| - 1 - k])
  }

  /**
   * `Base58Check`: divide by 58 collecting the remainders' symbols, least
   * significant first, into a builder; then reverse the collected runes.
   */
  method Base58Check(h: Hashes, input: seq<byte>) returns (s: string)
    ensures s == Base58CheckOf(h, input)
  {
    var bytes := input + h.sha256(h.sha256(input))[..4];
    var n := BEValue(bytes);
    var builder: string := [];
    while n > 0
      invariant Encode(BEValue(bytes)) == Encode(n) + Reverse(builder)
    {
      var c := Alphabet[n % 58];
      AlphabetAt(n % 58);
      EncodeStep(n, builder);
      builder := builder + [c];
      n := n / 58;
    }
    var runes := new char[|builder|](k requires 0 <= k < |builder| => builder[k]);
    assert runes[..] == builder;
    ReverseInPlace(runes);
    s := runes[..];
  }

  lemma AlphabetAt(d: nat)
    requires d < 58
    ensures Alphabet[d] == Symbol(d)
  {
    AlphabetRanges();
  }

  /** One division step moves the lowest digit from the number to the reversed builder. */
  lemma EncodeStep(n: nat, builder: string)
    requires n > 0
    ensures Encode(n) + Reverse(builder) == Encode(n / 58) + Reverse(builder + [Symbol(n % 58)])
  {
    assert Reverse(builder + [Symbol(n % 58)]) == [Symbol(n % 58)] + Reverse(builder);
  }

  /** The swap loop: `runes[i], runes[j] = runes[j], runes[i]` with i and j converging. */
  method ReverseInPlace(runes: array<char>)
    modifies runes
    ensures runes[..] == Reverse(old(runes[..]))
  {
    ghost var orig := runes[..];
    var n := runes.Length;
    if n == 0 {
      return;
    }
    var i, j := 0, n - 1;
    while i < j
      invariant 0 <= i <= j + 1 <= n && i + j == n - 1
      invariant forall k :: 0 <= k < i ==> runes[k] == orig[n - 1 - k]
      invariant forall k :: j < k < n ==> runes[k] == orig[n - 1 - k]
      invariant forall k :: i <= k <= j ==> runes[k] == orig[k]
    {
      runes[i], runes[j] := runes[j], runes[i];
      i, j := i + 1, j - 1;
    }
  }
}
