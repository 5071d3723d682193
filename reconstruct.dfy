/**
 * `reconstruct_flag` of 1forMe1ForYou/decode.py: classify every bit position against a
 * threshold, then read the classified bits eight at a time.
 */
module Reconstruct {
  import opened Wrappers
  import opened Bits
  import opened BitFrequencies

  type Positive = n: int | n > 0 witness 1

  /** The threshold `t` as the exact fraction `num / den`. */
  datatype Threshold = Threshold(num: int, den: Positive)

  /** The source's default threshold, 0.51. */
  const DefaultThreshold: Threshold := Threshold(51, 100)

  /** `bit_freq.get(p, 0)`: a position missing from the table has frequency 0. */
  function Lookup(table: map<nat, Frac>, p: nat): (f: Frac)
    ensures p in table ==> f == table[p]
    ensures p !in table ==> f.num == 0 && f.den > 0
  {
    if p in table then table[p] else Frac(0, 1)
  }

  /** `freq > t`, compared exactly. */
  predicate Above(f: Frac, t: Threshold)
  {
    f.num * t.den > t.num * f.den
  }

  /** `freq < 1 - t`, compared exactly. */
  predicate Below(f: Frac, t: Threshold)
  {
    f.num * t.den < (t.den - t.num) * f.den
  }

  /** The classification of one position: '1' above `t`, else '0' below `1 - t`, else '?'. */
  function Classify(f: Frac, t: Threshold): (c: char)
    ensures IsFlagChar(c)
    ensures c == '1' <==> Above(f, t)
    ensures c == '0' <==> !Above(f, t) && Below(f, t)
    ensures c == '?' <==> !Above(f, t) && !Below(f, t)
  {
    if Above(f, t) then '1' else if Below(f, t) then '0' else '?'
  }

  predicate IsFlagChar(c: char)
  {
    c == '0' || c == '1' || c == '?'
  }

  predicate IsFlagBits(s: string)
  {
    forall i :: 0 <= i < |s| ==> IsFlagChar(s[i])
  }

  /** The list `flag_bits` once the classification loop has run over `totalBits` positions. */
  function Classification(table: map<nat, Frac>, totalBits: nat, t: Threshold): (bits: string)
    ensures |bits| == totalBits && IsFlagBits(bits)
  {
    seq(totalBits, p requires 0 <= p => Classify(Lookup(table, p), t))
  }

  /** One group of classified bits: undetermined when it holds a '?', else its binary value. */
  function DecodeGroup(g: string): (r: Option<nat>)
    requires IsFlagBits(g)
    ensures r == None <==> '?' in g
    ensures r.Some? ==> r.value < Pow2(|g|)
  {
    if '?' in g then None
    else
      assert IsBits(g) by {
        forall i | 0 <= i < |g| ensures IsBit(g[i]) {
          assert g[i] != '?';
        }
      }
      Some(BinValue(g))
  }

  /** The outputs of the grouping loop over `bits`, eight bits at a time from the front. */
  function Groups(bits: string): (r: seq<Option<nat>>)
    requires IsFlagBits(bits)
    ensures |bits| <= 8 * |r| < |bits| + 8
    decreases |bits|
  {
    if |bits| == 0 then []
    else if |bits| <= 8 then [DecodeGroup(bits)]
    else [DecodeGroup(bits[..8])] + Groups(bits[8..])
  }

  /** Group `k` holds bits `8 * k` up to `8 * k + 7`, cut short at the end of `bits`. */
  function GroupSlice(bits: string, k: nat): (g: string)
    requires 8 * k <= |bits|
    ensures IsFlagBits(bits) ==> IsFlagBits(g)
  {
    bits[8 * k..Min(8 * k + 8, |bits|)]
  }

  lemma GroupSliceShift(bits: string, k: nat)
    requires |bits| > 8 && 0 < k && 8 * k <= |bits|
    ensures GroupSlice(bits[8..], k - 1) == GroupSlice(bits, k)
  {
    var rest, lo, hi := bits[8..], 8 * k, Min(8 * k + 8, |bits|);
    assert Min(8 * (k - 1) + 8, |rest|) == hi - 8;
    var a, b := rest[lo - 8..hi - 8], bits[lo..hi];
    assert |a| == |b|;
    forall i | 0 <= i < |a| ensures a[i] == b[i] {
      assert a[i] == rest[lo - 8 + i] == bits[lo + i];
    }
  }

  /** There is one group per eight bits, the last one possibly shorter. */
  lemma {:induction false} GroupsCount(bits: string)
    requires IsFlagBits(bits)
    ensures |Groups(bits)| == (|bits| + 7) / 8
  {
    if |bits| > 8 {
      GroupsCount(bits[8..]);
    }
  }

  /**
   * There are ceil(|bits| / 8) groups, and group `k` is the decoding of the slice
   * `bits[8 * k : 8 * k + 8]`.
   */
  lemma {:induction false} GroupsShape(bits: string)
    requires IsFlagBits(bits)
    ensures |Groups(bits)| == (|bits| + 7) / 8
    ensures forall k :: 0 <= k < |Groups(bits)| ==>
      8 * k < |bits| && Groups(bits)[k] == DecodeGroup(GroupSlice(bits, k))
  {
    if |bits| > 8 {
      var rest := bits[8..];
      GroupsShape(rest);
      var g := Groups(bits);
      assert g == [DecodeGroup(bits[..8])] + Groups(rest);
      assert |g| == 1 + (|rest| + 7) / 8 == (|bits| + 7) / 8;
      forall k | 0 <= k < |Groups(bits)|
        ensures 8 * k < |bits| && Groups(bits)[k] == DecodeGroup(GroupSlice(bits, k))
      {
        if k > 0 {
          assert g[k] == Groups(rest)[k - 1];
          GroupSliceShift(bits, k);
        } else {
          assert GroupSlice(bits, 0) == bits[..8];
        }
      }
    } else if |bits| > 0 {
      assert GroupSlice(bits, 0) == bits;
    }
  }

  /**
   * `reconstruct_flag(bit_freq, total_bits, t)` with the output read as byte values:
   * `None` where the source prints '?'.
   */
  method ReconstructFlag(bitFreq: map<nat, Frac>, totalBits: nat, t: Threshold)
    returns (flag: seq<Option<nat>>)
    ensures flag == Groups(Classification(bitFreq, totalBits, t))
  {
    var flagBits := new char[totalBits](_ => '0');
    for bitPos := 0 to totalBits
      invariant forall p :: 0 <= p < bitPos ==> flagBits[p] == Classify(Lookup(bitFreq, p), t)
    {
      var freq := Lookup(bitFreq, bitPos);
      if Above(freq, t) {
        flagBits[bitPos] := '1';
      } else if Below(freq, t) {
        flagBits[bitPos] := '0';
      } else {
        flagBits[bitPos] := '?';
      }
    }
    var bits := flagBits[..];
    assert bits == Classification(bitFreq, totalBits, t);
    flag := GroupBytes(bits);
  }

  /**
   * The grouping loop of `reconstruct_flag`: for `i = 0, 8, 16, ...` below the length,
   * the slice `flag_bits[i:i+8]` becomes undetermined or a byte value.
   */
  method GroupBytes(flagBits: string) returns (bytesList: seq<Option<nat>>)
    requires IsFlagBits(flagBits)
    ensures bytesList == Groups(flagBits)
  {
    var totalBits := |flagBits|;
    bytesList := [];
    var i := 0;
    while i < totalBits
      invariant i == 8 * |bytesList| < totalBits + 8
      invariant forall k :: 0 <= k < |bytesList| ==>
        8 * k < totalBits && bytesList[k] == DecodeGroup(GroupSlice(flagBits, k))
    {
      var byte := flagBits[i..Min(i + 8, totalBits)];
      assert byte == GroupSlice(flagBits, |bytesList|);
      ghost var done := bytesList;
      if '?' in byte {
        bytesList := bytesList + [None];
      } else {
        assert IsBits(byte) by {
          forall c | 0 <= c < |byte| ensures IsBit(byte[c]) {
            assert byte[c] != '?';
          }
        }
        bytesList := bytesList + [Some(BinValue(byte))];
      }
      assert bytesList == done + [DecodeGroup(byte)];
      i := i + 8;
    }
    GroupsShape(flagBits);
    assert |bytesList| == (totalBits + 7) / 8;
  }

  // ---------------------------------------------------------------------------
  // What the classification means

  /** The default threshold is 0.51, strictly between one half and one. */
  lemma DefaultThresholdValue()
    ensures Level(DefaultThreshold) == 0.51
    ensures 2 * DefaultThreshold.num > DefaultThreshold.den > DefaultThreshold.num
  {
  }

  /** The frequency `f` as a real number. */
  function Ratio(f: Frac): real
    requires f.den > 0
  {
    f.num as real / f.den as real
  }

  /** The threshold as a real number. */
  function Level(t: Threshold): real
  {
    t.num as real / t.den as real
  }

  /** For positive denominators, `a / b > c / d` exactly when `a * d > c * b`. */
  lemma CrossMultiply(a: int, b: int, c: int, d: int)
    requires b > 0 && d > 0
    ensures (a as real / b as real > c as real / d as real) <==> a * d > c * b
  {
    var x, y := a as real / b as real, c as real / d as real;
    assert a as real == x * b as real;
    assert c as real == y * d as real;
    assert (a * d) as real == x * (b as real * d as real);
    assert (c * b) as real == y * (b as real * d as real);
  }

  lemma Complement(a: int, b: int)
    requires b > 0
    ensures 1.0 - a as real / b as real == (b - a) as real / b as real
  {
    var x, y := a as real, b as real;
    calc {
      (b - a) as real / b as real;
      (y - x) / y;
      y / y - x / y;
      1.0 - x / y;
    }
  }

  /**
   * The integer comparisons are the source's floating-point ones done exactly:
   * '1' when the frequency exceeds `t`, '0' when it is not above `t` and below `1 - t`,
   * '?' otherwise, so a frequency equal to `t` or to `1 - t` is unknown.
   */
  lemma ClassifyMeaning(f: Frac, t: Threshold)
    requires f.den > 0
    ensures Above(f, t) <==> Ratio(f) > Level(t)
    ensures Below(f, t) <==> Ratio(f) < 1.0 - Level(t)
    ensures Classify(f, t) == '1' <==> Ratio(f) > Level(t)
    ensures Classify(f, t) == '0' <==> !(Ratio(f) > Level(t)) && Ratio(f) < 1.0 - Level(t)
    ensures Classify(f, t) == '?' <==> 1.0 - Level(t) <= Ratio(f) <= Level(t)
  {
    CrossMultiply(f.num, f.den, t.num, t.den);
    CrossMultiply(t.den - t.num, t.den, f.num, f.den);
    Complement(t.num, t.den);
  }

  /**
   * For `t > 1/2` the '1' band and the '0' band do not meet, so the order of the two
   * tests does not matter: a position is '0' exactly when it is below `1 - t`.
   */
  lemma BandsDisjoint(f: Frac, t: Threshold)
    requires f.den > 0 && 2 * t.num > t.den
    ensures !(Above(f, t) && Below(f, t))
    ensures Classify(f, t) == '0' <==> Below(f, t)
  {
    ClassifyMeaning(f, t);
    assert Level(t) > 0.5 by {
      CrossMultiply(t.num, t.den, 1, 2);
    }
  }

  /** A frequency of exactly one half is unknown for every threshold of one half or more. */
  lemma EvenSplitUnknown(f: Frac, t: Threshold)
    requires f.den > 0 && 2 * f.num == f.den
    requires 2 * t.num >= t.den
    ensures Classify(f, t) == '?'
  {
    var n, x := f.num, t.den - 2 * t.num;
    NonPositiveProduct(n, x);
    assert n * t.den - t.num * f.den == n * x;
    assert n * t.den - (t.den - t.num) * f.den == -(n * x);
  }

  lemma NonPositiveProduct(n: nat, x: int)
    requires x <= 0
    ensures n * x <= 0
  {
  }

  /**
   * Raising the threshold only widens the unknown band [1 - t, t]: a position unknown
   * under `t1` stays unknown under any `t2 >= t1`.
   */
  lemma UnknownWidens(f: Frac, t1: Threshold, t2: Threshold)
    requires f.den > 0
    requires Level(t1) <= Level(t2)
    ensures Classify(f, t1) == '?' ==> Classify(f, t2) == '?'
  {
    ClassifyMeaning(f, t1);
    ClassifyMeaning(f, t2);
  }

  /** Every fraction in the table has a positive denominator. */
  predicate WellFormed(table: map<nat, Frac>)
  {
    forall p :: p in table ==> table[p].den > 0
  }

  /** The number of '?' in a classified bit string. */
  function CountUnknown(bits: string): nat
  {
    if |bits| == 0 then 0
    else CountUnknown(bits[..|bits| - 1]) + (if bits[|bits| - 1] == '?' then 1 else 0)
  }

  /** Raising the threshold never decreases the number of positions classified unknown. */
  lemma {:induction false} UnknownCountMonotone(table: map<nat, Frac>, totalBits: nat, t1: Threshold, t2: Threshold)
    requires WellFormed(table)
    requires Level(t1) <= Level(t2)
    ensures CountUnknown(Classification(table, totalBits, t1)) <= CountUnknown(Classification(table, totalBits, t2))
  {
    if totalBits > 0 {
      var n := totalBits - 1;
      assert Classification(table, totalBits, t1)[..n] == Classification(table, n, t1);
      assert Classification(table, totalBits, t2)[..n] == Classification(table, n, t2);
      UnknownCountMonotone(table, n, t1, t2);
      UnknownWidens(Lookup(table, n), t1, t2);
    }
  }

  /**
   * A position set in exactly half of the samples is unknown at any threshold of one
   * half or more, so the byte that holds it is undetermined.
   */
  lemma EvenSplitGroup(table: map<nat, Frac>, totalBits: nat, t: Threshold, p: nat)
    requires p < totalBits && Lookup(table, p).den > 0 && 2 * Lookup(table, p).num == Lookup(table, p).den
    requires 2 * t.num >= t.den
    ensures p / 8 < |Groups(Classification(table, totalBits, t))|
    ensures Groups(Classification(table, totalBits, t))[p / 8] == None
  {
    var bits := Classification(table, totalBits, t);
    EvenSplitUnknown(Lookup(table, p), t);
    GroupsShape(bits);
    var k := p / 8;
    assert GroupSlice(bits, k)[p - 8 * k] == bits[p] == '?';
  }
}
