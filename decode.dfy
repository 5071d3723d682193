/**
 * The driver of 1forMe1ForYou/decode.py: the samples are the stripped non-blank lines
 * of the input, the width comes from the first sample, and the flag is reconstructed
 * with the default threshold.
 */
module Decode {
  import opened Wrappers
  import opened Bits
  import opened Hex
  import opened BitFrequencies
  import opened Reconstruct

  /** The characters Python's `str.strip()` removes: those for which `str.isspace()` holds. */
  predicate IsSpace(c: char)
  {
    var n := c as int;
    (9 <= n <= 13) || (28 <= n <= 32) || n == 0x85 || n == 0xA0 || n == 0x1680
    || (0x2000 <= n <= 0x200A) || n == 0x2028 || n == 0x2029 || n == 0x202F
    || n == 0x205F || n == 0x3000
  }

  /** The usual blanks are white space, and white space never holds a hexadecimal digit. */
  lemma SpaceIsNotHex(c: char)
    ensures c == ' ' || c == '\t' || c == '\n' || c == '\r' ==> IsSpace(c)
    ensures IsSpace(c) ==> !IsHexDigit(c)
  {
  }

  /** `s.lstrip()`: the suffix of `s` left after dropping its leading white space. */
  function StripStart(s: string): (r: string)
    ensures |r| <= |s| && r == s[|s| - |r|..]
    ensures forall i :: 0 <= i < |s| - |r| ==> IsSpace(s[i])
    ensures r == [] || !IsSpace(r[0])
  {
    if |s| > 0 && IsSpace(s[0]) then StripStart(s[1..]) else s
  }

  /** `s.rstrip()`: the prefix of `s` left after dropping its trailing white space. */
  function StripEnd(s: string): (r: string)
    ensures |r| <= |s| && r == s[..|r|]
    ensures forall i :: |r| <= i < |s| ==> IsSpace(s[i])
    ensures r == [] || !IsSpace(r[|r| - 1])
  {
    if |s| > 0 && IsSpace(s[|s| - 1]) then StripEnd(s[..|s| - 1]) else s
  }

  /** `r` is `s` from index `i` on, with only white space around it. */
  predicate TrimmedAt(s: string, r: string, i: int)
  {
    0 <= i <= |s| - |r| && r == s[i..i + |r|]
    && (forall k :: 0 <= k < i ==> IsSpace(s[k]))
    && (forall k :: i + |r| <= k < |s| ==> IsSpace(s[k]))
  }

  /** `s.strip()`: white space dropped at both ends; nothing is left of an all-blank line. */
  function Strip(s: string): (r: string)
    ensures |r| <= |s|
    ensures r == [] || (!IsSpace(r[0]) && !IsSpace(r[|r| - 1]))
    ensures r == [] <==> forall i :: 0 <= i < |s| ==> IsSpace(s[i])
  {
    var r := StripEnd(StripStart(s));
    assert r != [] ==> r[0] == StripStart(s)[0];
    r
  }

  /** What `Strip` leaves is the middle of the line, with only white space cut off around it. */
  lemma StripTrims(s: string)
    ensures exists i :: TrimmedAt(s, Strip(s), i)
  {
    var u := StripStart(s);
    var r := StripEnd(u);
    var i := |s| - |u|;
    assert r == s[i..i + |r|];
    assert forall k :: i + |r| <= k < |s| ==> IsSpace(s[k]) by {
      forall k | i + |r| <= k < |s| ensures IsSpace(s[k]) {
        assert s[k] == u[k - i];
      }
    }
    assert r == Strip(s) && TrimmedAt(s, r, i);
  }

  /** A line that is already stripped and not blank. */
  predicate Clean(s: string)
  {
    s != [] && !IsSpace(s[0]) && !IsSpace(s[|s| - 1])
  }

  lemma StripClean(s: string)
    requires Clean(s)
    ensures Strip(s) == s
  {
  }

  /** The input format: every line, once stripped, is blank or a string of hexadecimal digits. */
  predicate HexLines(lines: seq<string>)
  {
    forall k :: 0 <= k < |lines| ==> HexDigits(Strip(lines[k]))
  }

  /**
   * The comprehension of `load_hex_outputs`: every line stripped, blank lines dropped,
   * order kept.
   */
  function LoadSamples(lines: seq<string>): (samples: seq<string>)
    ensures |samples| <= |lines|
    ensures forall k :: 0 <= k < |samples| ==> Clean(samples[k])
  {
    if |lines| == 0 then []
    else
      var s, rest := Strip(lines[0]), LoadSamples(lines[1..]);
      if s == [] then rest
      else
        StripIsClean(lines[0]);
        ConsClean(s, rest);
        [s] + rest
  }

  lemma StripIsClean(l: string)
    requires Strip(l) != []
    ensures Clean(Strip(l))
  {
  }

  lemma ConsClean(s: string, rest: seq<string>)
    requires Clean(s) && forall k :: 0 <= k < |rest| ==> Clean(rest[k])
    ensures forall k :: 0 <= k < |[s] + rest| ==> Clean(([s] + rest)[k])
  {
    forall k | 0 < k < |[s] + rest| ensures Clean(([s] + rest)[k]) {
      assert ([s] + rest)[k] == rest[k - 1];
    }
  }

  /** Loading lines in the input format gives well-formed samples only. */
  lemma {:induction false} LoadSamplesHex(lines: seq<string>)
    requires HexLines(lines)
    ensures AllHex(LoadSamples(lines))
  {
    if |lines| > 0 {
      assert HexLines(lines[1..]) by {
        forall k | 0 <= k < |lines| - 1 ensures HexDigits(Strip(lines[1..][k])) {
          assert lines[1..][k] == lines[k + 1];
        }
      }
      LoadSamplesHex(lines[1..]);
      var s, rest := Strip(lines[0]), LoadSamples(lines[1..]);
      assert HexDigits(s);
      if s != [] {
        assert LoadSamples(lines) == [s] + rest;
        forall j | 0 <= j < |[s] + rest| ensures IsHexString(([s] + rest)[j]) {
          if j > 0 {
            assert ([s] + rest)[j] == rest[j - 1];
          }
        }
      }
    }
  }

  /** Nothing is loaded exactly when every line is blank. */
  lemma {:induction false} LoadSamplesEmpty(lines: seq<string>)
    ensures LoadSamples(lines) == [] <==> forall k :: 0 <= k < |lines| ==> Strip(lines[k]) == []
  {
    if |lines| > 0 {
      LoadSamplesEmpty(lines[1..]);
      assert forall k :: 0 < k < |lines| ==> lines[1..][k - 1] == lines[k];
    }
  }

  /** Loading keeps the order of the lines: a line read last adds its stripped form last, if any. */
  lemma {:induction false} LoadSamplesAppend(lines: seq<string>, l: string)
    ensures LoadSamples(lines + [l]) == LoadSamples(lines) + (if Strip(l) == [] then [] else [Strip(l)])
  {
    if |lines| == 0 {
      assert lines + [l] == [l];
      assert [l][1..] == [];
    } else {
      assert (lines + [l])[0] == lines[0];
      assert (lines + [l])[1..] == lines[1..] + [l];
      LoadSamplesAppend(lines[1..], l);
    }
  }

  /** Lines that are already clean come through unchanged; so loading is idempotent. */
  lemma {:induction false} LoadSamplesKeepsClean(lines: seq<string>)
    requires forall k :: 0 <= k < |lines| ==> Clean(lines[k])
    ensures LoadSamples(lines) == lines
  {
    if |lines| > 0 {
      StripClean(lines[0]);
      LoadSamplesKeepsClean(lines[1..]);
    }
  }

  lemma LoadSamplesIdempotent(lines: seq<string>)
    ensures LoadSamples(LoadSamples(lines)) == LoadSamples(lines)
  {
    LoadSamplesKeepsClean(LoadSamples(lines));
  }

  /** The reason a run produces no flag. */
  datatype DecodeError = NoSamples

  /** Every sample is the same string. */
  predicate Uniform(samples: seq<string>)
  {
    forall j :: 0 <= j < |samples| ==> samples[j] == samples[0]
  }

  /** With identical samples every position is counted in all of them or in none. */
  lemma {:induction false} CountOnesUniform(samples: seq<string>, s: string, p: nat)
    requires IsHexString(s) && forall j :: 0 <= j < |samples| ==> samples[j] == s
    ensures AllHex(samples)
    ensures CountOnes(samples, p) == if OneAt(s, p) == 1 then |samples| else 0
  {
    if |samples| > 0 {
      CountOnesUniform(samples[..|samples| - 1], s, p);
    }
  }

  lemma PositiveProduct(n: nat, x: int)
    requires n > 0 && x > 0
    ensures n * x > 0
  {
  }

  /** A position that is '1' in every sample is classified '1' for any threshold below 1. */
  lemma AlwaysOne(n: nat, t: Threshold)
    requires n > 0 && t.num < t.den
    ensures Classify(Frac(n, n), t) == '1'
  {
    var x := t.den - t.num;
    PositiveProduct(n, x);
    assert n * t.den - t.num * n == n * x;
  }

  /** With identical samples, position `p` is classified as the converted sample has it. */
  lemma IdenticalSamplesPosition(samples: seq<string>, t: Threshold, p: nat)
    requires |samples| > 0 && AllHex(samples) && Uniform(samples)
    requires 0 <= t.num < t.den && p < |HexToBin(samples[0])|
    ensures Classify(Lookup(FrequencyTable(samples), p), t) == HexToBin(samples[0])[p]
  {
    var s, table, n := samples[0], FrequencyTable(samples), |samples|;
    CountOnesUniform(samples, s, p);
    if HexToBin(s)[p] == '1' {
      assert Lookup(table, p) == Frac(n, n);
      AlwaysOne(n, t);
    } else {
      assert Lookup(table, p).num == 0;
    }
  }

  /**
   * Identical samples: every frequency is 0 or 1, so for a threshold in [0, 1) no
   * position is unknown and the classified bits are the converted sample itself.
   */
  lemma IdenticalSamplesClassify(samples: seq<string>, t: Threshold)
    requires |samples| > 0 && AllHex(samples) && Uniform(samples)
    requires 0 <= t.num < t.den
    ensures forall p :: p in FrequencyTable(samples) ==>
      FrequencyTable(samples)[p].num == FrequencyTable(samples)[p].den
    ensures Classification(FrequencyTable(samples), 4 * |samples[0]|, t) == HexToBin(samples[0])
  {
    var s, table := samples[0], FrequencyTable(samples);
    var b := HexToBin(s);
    forall p | p in table ensures table[p].num == table[p].den {
      CountOnesUniform(samples, s, p);
    }
    forall p | 0 <= p < |b| ensures Classify(Lookup(table, p), t) == b[p] {
      IdenticalSamplesPosition(samples, t, p);
    }
    assert Classification(table, 4 * |s|, t) == b;
  }

  /** A string of plain bits decodes to a byte value in every group. */
  lemma AllGroupsDetermined(b: string)
    requires IsBits(b)
    ensures IsFlagBits(b)
    ensures forall k :: 0 <= k < |Groups(b)| ==>
      8 * k < |b| && Groups(b)[k] == Some(BinValue(GroupSlice(b, k)))
  {
    GroupsShape(b);
    forall k | 0 <= k < |Groups(b)|
      ensures Groups(b)[k] == Some(BinValue(GroupSlice(b, k)))
    {
      assert '?' !in GroupSlice(b, k) by {
        forall i | 0 <= i < |GroupSlice(b, k)| ensures GroupSlice(b, k)[i] != '?' {
          assert GroupSlice(b, k)[i] == b[8 * k + i];
        }
      }
    }
  }

  /**
   * The flag `main` reconstructs from the loaded samples: the frequency table over the
   * width of the first sample, classified at the default threshold 0.51, grouped.
   */
  function Flag(samples: seq<string>): (r: seq<Option<nat>>)
    requires |samples| > 0 && AllHex(samples)
    ensures |r| == (|samples[0]| + 1) / 2
  {
    Groups(Classification(FrequencyTable(samples), 4 * |samples[0]|, DefaultThreshold))
  }

  /** Every determined entry of the flag is a byte value, a valid argument of `chr`. */
  lemma FlagBytes(samples: seq<string>)
    requires |samples| > 0 && AllHex(samples)
    ensures forall k :: 0 <= k < |Flag(samples)| && Flag(samples)[k].Some? ==> Flag(samples)[k].value < 256
  {
    var bits := Classification(FrequencyTable(samples), 4 * |samples[0]|, DefaultThreshold);
    GroupsShape(bits);
    Pow2Plus4(0);
    Pow2Plus4(4);
    forall k | 0 <= k < |Flag(samples)| && Flag(samples)[k].Some?
      ensures Flag(samples)[k].value < 256
    {
      Pow2Monotone(|GroupSlice(bits, k)|, 8);
    }
  }

  /** With identical samples, the flag is the byte values of the converted sample. */
  lemma FlagOfIdenticalSamples(samples: seq<string>)
    requires |samples| > 0 && AllHex(samples) && Uniform(samples)
    ensures Flag(samples) == Groups(HexToBin(samples[0]))
    ensures forall k :: 0 <= k < |Flag(samples)| ==>
      8 * k < 4 * |samples[0]| && Flag(samples)[k] == Some(BinValue(GroupSlice(HexToBin(samples[0]), k)))
  {
    IdenticalSamplesClassify(samples, DefaultThreshold);
    AllGroupsDetermined(HexToBin(samples[0]));
  }

  /**
   * `main`: no flag when no sample is left after loading; otherwise the flag of the
   * loaded samples.
   */
  method DecodeFlag(lines: seq<string>) returns (r: Result<seq<Option<nat>>, DecodeError>)
    requires HexLines(lines)
    ensures r.Err? <==> forall k :: 0 <= k < |lines| ==> Strip(lines[k]) == []
    ensures LoadSamples(lines) == [] ==> r == Err(NoSamples)
    ensures LoadSamples(lines) != [] ==> AllHex(LoadSamples(lines)) && r == Ok(Flag(LoadSamples(lines)))
  {
    LoadSamplesHex(lines);
    LoadSamplesEmpty(lines);
    var hexOutputs := LoadSamples(lines);
    if |hexOutputs| == 0 {
      return Err(NoSamples);
    }
    var firstBin := HexToBin(hexOutputs[0]);
    var totalBits := |firstBin|;
    var bitFrequencies := CollectBitFrequencies(hexOutputs);
    var flag := ReconstructFlag(bitFrequencies, totalBits, DefaultThreshold);
    r := Ok(flag);
  }
}
