/**
 * `hex_to_bin` of 1forMe1ForYou/decode.py: a sample written in hexadecimal becomes a
 * binary string of four bits per digit, leading zeros kept.
 */
module Hex {
  import opened Bits

  predicate IsHexDigit(c: char)
  {
    ('0' <= c <= '9') || ('a' <= c <= 'f') || ('A' <= c <= 'F')
  }

  predicate HexDigits(h: string)
  {
    forall i :: 0 <= i < |h| ==> IsHexDigit(h[i])
  }

  /** A well-formed sample: at least one digit, and hexadecimal digits only. */
  predicate IsHexString(h: string)
  {
    |h| > 0 && HexDigits(h)
  }

  function DigitValue(c: char): (d: nat)
    requires IsHexDigit(c)
    ensures d < 16
  {
    if '0' <= c <= '9' then c as int - '0' as int
    else if 'a' <= c <= 'f' then c as int - 'a' as int + 10
    else c as int - 'A' as int + 10
  }

  /** The unsigned value of a hexadecimal string, as `int(h, 16)` reads it. */
  function HexValue(h: string): (v: nat)
    requires HexDigits(h)
    ensures v < Pow2(4 * |h|)
  {
    if |h| == 0 then 0
    else
      var v := HexValue(h[..|h| - 1]);
      Pow2Plus4(4 * (|h| - 1));
      16 * v + DigitValue(h[|h| - 1])
  }

  /** Python's `bin(n)[2:]`: the shortest binary spelling of `n` ("0" for zero). */
  function Binary(n: nat): (b: string)
    ensures IsBits(b) && |b| >= 1
    ensures BinValue(b) == n
  {
    if n < 2 then [if n == 0 then '0' else '1']
    else
      var b := Binary(n / 2) + [if n % 2 == 0 then '0' else '1'];
      assert b[..|b| - 1] == Binary(n / 2);
      b
  }

  /** Below 2^k, the shortest spelling fits in `k` bits (for `k` at least one). */
  lemma {:induction false} BinaryFits(n: nat, k: nat)
    requires k >= 1 && n < Pow2(k)
    ensures |Binary(n)| <= k
  {
    if n >= 2 {
      assert k >= 2;
      BinaryFits(n / 2, k - 1);
    }
  }

  /** Python's `s.zfill(width)` for a string with no sign: pad on the left with '0'. */
  function ZFill(s: string, width: nat): string
  {
    if |s| >= width then s else Zeros(width - |s|) + s
  }

  /** `zfill` keeps the string at the end and fills up to the width with '0' in front. */
  lemma ZFillPads(s: string, width: nat)
    ensures |ZFill(s, width)| == if |s| >= width then |s| else width
    ensures ZFill(s, width)[|ZFill(s, width)| - |s|..] == s
    ensures forall i :: 0 <= i < |ZFill(s, width)| - |s| ==> ZFill(s, width)[i] == '0'
  {
  }

  /**
   * `hex_to_bin(h)`: exactly four bits per hexadecimal digit, only '0' and '1',
   * holding the value of `h`.
   */
  function HexToBin(h: string): (b: string)
    requires IsHexString(h)
    ensures |b| == 4 * |h|
    ensures IsBits(b)
    ensures BinValue(b) == HexValue(h)
  {
    var v := HexValue(h);
    BinaryFits(v, 4 * |h|);
    BinValueZeroPadded(4 * |h| - |Binary(v)|, Binary(v));
    ZFill(Binary(v), 4 * |h|)
  }

  /**
   * The padding is what makes the conversion a fixed-width one: `HexToBin(h)` is the
   * only string of `4 * |h|` bits whose value is that of `h`.
   */
  lemma HexToBinUnique(h: string, b: string)
    requires IsHexString(h)
    requires IsBits(b) && |b| == 4 * |h| && BinValue(b) == HexValue(h)
    ensures b == HexToBin(h)
  {
    BinValueInjective(b, HexToBin(h));
  }

  /** Digit by digit conversion: `hex_to_bin` of each digit alone, laid side by side. */
  function Nibbles(h: string): string
    requires HexDigits(h)
  {
    if |h| == 0 then [] else Nibbles(h[..|h| - 1]) + HexToBin([h[|h| - 1]])
  }

  /** A single digit converts to four bits holding its value. */
  lemma DigitBits(c: char)
    requires IsHexDigit(c)
    ensures |HexToBin([c])| == 4 && IsBits(HexToBin([c]))
    ensures BinValue(HexToBin([c])) == DigitValue(c)
  {
    assert [c][..0] == [];
  }

  /** Four more bits multiply the value so far by 16 and add theirs. */
  lemma AppendNibble(a: string, b: string)
    requires IsBits(a) && IsBits(b) && |b| == 4
    ensures IsBits(a + b)
    ensures BinValue(a + b) == 16 * BinValue(a) + BinValue(b)
  {
    BinValueAppend(a, b);
    Pow2Plus4(0);
  }

  lemma {:induction false} NibblesValue(h: string)
    requires HexDigits(h)
    ensures |Nibbles(h)| == 4 * |h|
    ensures IsBits(Nibbles(h)) && BinValue(Nibbles(h)) == HexValue(h)
  {
    if |h| > 0 {
      var front, c := h[..|h| - 1], h[|h| - 1];
      NibblesValue(front);
      var nf, nl := Nibbles(front), HexToBin([c]);
      assert Nibbles(h) == nf + nl;
      DigitBits(c);
      AppendNibble(nf, nl);
    }
  }

  /**
   * Each hexadecimal digit converts on its own: `hex_to_bin(h)` is the conversions of
   * its digits side by side, so digit `i` owns bits `4 * i` to `4 * i + 3`.
   */
  lemma HexToBinIsNibbles(h: string)
    requires IsHexString(h)
    ensures HexToBin(h) == Nibbles(h)
  {
    NibblesValue(h);
    HexToBinUnique(h, Nibbles(h));
  }
}
