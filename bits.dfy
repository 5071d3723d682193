/**
 * Binary strings as Python writes them: sequences of the characters '0' and '1',
 * most significant bit first.
 */
module Bits {

  function Pow2(k: nat): (r: nat)
    ensures r >= 1
  {
    if k == 0 then 1 else 2 * Pow2(k - 1)
  }

  lemma {:induction false} Pow2Monotone(a: nat, b: nat)
    requires a <= b
    ensures Pow2(a) <= Pow2(b)
  {
    if a < b {
      Pow2Monotone(a, b - 1);
    }
  }

  function Min(a: int, b: int): int
  {
    if a <= b then a else b
  }

  predicate IsBit(c: char)
  {
    c == '0' || c == '1'
  }

  predicate IsBits(s: string)
  {
    forall i :: 0 <= i < |s| ==> IsBit(s[i])
  }

  /** `k` copies of '0', the padding `str.zfill` puts in front of a string. */
  function Zeros(k: nat): (z: string)
  {
    seq(k, _ => '0')
  }

  /**
   * The unsigned value of a binary string read most significant bit first, which is
   * what Python's `int(s, 2)` returns for such a string. A string of `n` bits is
   * below 2^n.
   */
  function BinValue(s: string): (v: nat)
    requires IsBits(s)
    ensures v < Pow2(|s|)
  {
    if |s| == 0 then 0
    else 2 * BinValue(s[..|s| - 1]) + (if s[|s| - 1] == '1' then 1 else 0)
  }

  lemma ShiftStep(x: int, p: int, y: int, bit: int)
    ensures 2 * (x * p + y) + bit == x * (2 * p) + (2 * y + bit)
  {
  }

  /** Four more bits, one more hexadecimal digit: sixteen times as many values. */
  lemma Pow2Plus4(k: nat)
    ensures Pow2(k + 4) == 16 * Pow2(k)
  {
    assert Pow2(k + 4) == 2 * Pow2(k + 3) == 4 * Pow2(k + 2) == 8 * Pow2(k + 1);
  }

  /** Reading `a + b` is reading `a`, shifting it past `b`, and adding `b`. */
  lemma {:induction false} BinValueAppend(a: string, b: string)
    requires IsBits(a) && IsBits(b)
    ensures IsBits(a + b)
    ensures BinValue(a + b) == BinValue(a) * Pow2(|b|) + BinValue(b)
  {
    if |b| == 0 {
      assert a + b == a;
    } else {
      var b' := b[..|b| - 1];
      assert (a + b)[..|a + b| - 1] == a + b';
      assert (a + b)[|a + b| - 1] == b[|b| - 1];
      BinValueAppend(a, b');
      ShiftStep(BinValue(a), Pow2(|b'|), BinValue(b'), if b[|b| - 1] == '1' then 1 else 0);
    }
  }

  /** Leading zeros do not change the value of a binary string. */
  lemma {:induction false} BinValueZeroPadded(k: nat, s: string)
    requires IsBits(s)
    ensures IsBits(Zeros(k) + s)
    ensures BinValue(Zeros(k) + s) == BinValue(s)
  {
    ZerosValue(k);
    BinValueAppend(Zeros(k), s);
  }

  lemma {:induction false} ZerosValue(k: nat)
    ensures IsBits(Zeros(k)) && BinValue(Zeros(k)) == 0
  {
    if k > 0 {
      assert Zeros(k)[..k - 1] == Zeros(k - 1);
      ZerosValue(k - 1);
    }
  }

  /** Two binary strings of the same width with the same value are the same string. */
  lemma {:induction false} BinValueInjective(a: string, b: string)
    requires IsBits(a) && IsBits(b) && |a| == |b|
    requires BinValue(a) == BinValue(b)
    ensures a == b
  {
    if |a| > 0 {
      var n := |a| - 1;
      var x, y := if a[n] == '1' then 1 else 0, if b[n] == '1' then 1 else 0;
      assert 2 * BinValue(a[..n]) + x == 2 * BinValue(b[..n]) + y;
      assert x == y;
      BinValueInjective(a[..n], b[..n]);
      assert a == a[..n] + [a[n]] && b == b[..n] + [b[n]];
    }
  }
}
