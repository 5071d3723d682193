/**
 * `collect_bit_frequencies` of 1forMe1ForYou/decode.py: for every bit position, the
 * fraction of samples that have a '1' there. Fractions are kept exact, as a count of
 * samples over the number of samples.
 */
module BitFrequencies {
  import opened Bits
  import opened Hex

  /** The exact fraction `num / den`, the value `count / total` stands for. */
  datatype Frac = Frac(num: nat, den: nat)

  predicate AllHex(samples: seq<string>)
  {
    forall j :: 0 <= j < |samples| ==> IsHexString(samples[j])
  }

  /** 1 when the converted sample `h` has a '1' at position `p`, else 0. */
  function OneAt(h: string, p: nat): nat
    requires IsHexString(h)
  {
    var b := HexToBin(h);
    if p < |b| && b[p] == '1' then 1 else 0
  }

  /** How many of `samples` have a '1' at position `p` once converted; at most all of them. */
  function CountOnes(samples: seq<string>, p: nat): (c: nat)
    requires AllHex(samples)
    ensures c <= |samples|
  {
    if |samples| == 0 then 0
    else CountOnes(samples[..|samples| - 1], p) + OneAt(samples[|samples| - 1], p)
  }

  /** The widest converted sample. */
  function MaxWidth(samples: seq<string>): nat
  {
    if |samples| == 0 then 0
    else
      var w := MaxWidth(samples[..|samples| - 1]);
      if 4 * |samples[|samples| - 1]| > w then 4 * |samples[|samples| - 1]| else w
  }

  /** No sample has a '1' beyond the widest sample. */
  lemma {:induction false} CountOnesBeyondWidth(samples: seq<string>, p: nat)
    requires AllHex(samples) && p >= MaxWidth(samples)
    ensures CountOnes(samples, p) == 0
  {
    if |samples| > 0 {
      CountOnesBeyondWidth(samples[..|samples| - 1], p);
    }
  }

  /**
   * The table `collect_bit_frequencies(samples)` returns. A position is present exactly
   * when some sample has a '1' there, and then its fraction is that count over the
   * number of samples, a value in (0, 1].
   */
  function FrequencyTable(samples: seq<string>): (table: map<nat, Frac>)
    requires AllHex(samples)
    ensures forall p: nat :: p in table <==> CountOnes(samples, p) > 0
    ensures forall p :: p in table ==>
      table[p].num == CountOnes(samples, p) && table[p].den == |samples|
    ensures forall p :: p in table ==> 0 < table[p].num <= table[p].den
  {
    var w := MaxWidth(samples);
    var table := map p: nat | p < w && CountOnes(samples, p) > 0 :: Frac(CountOnes(samples, p), |samples|);
    assert forall p: nat | CountOnes(samples, p) > 0 :: p < w by {
      forall p: nat | CountOnes(samples, p) > 0 ensures p < w {
        if p >= w { CountOnesBeyondWidth(samples, p); }
      }
    }
    table
  }

  /** A dictionary lookup with 0 for a missing key, as `defaultdict(int)` gives. */
  function Get(counts: map<nat, nat>, p: nat): (c: nat)
    ensures p in counts ==> c == counts[p]
    ensures p !in counts ==> c == 0
  {
    if p in counts then counts[p] else 0
  }

  /**
   * The two loops of `collect_bit_frequencies`: count the '1's per position over all
   * samples, then turn each count into a fraction of the number of samples.
   */
  method CollectBitFrequencies(samples: seq<string>) returns (bitFreq: map<nat, Frac>)
    requires AllHex(samples)
    ensures bitFreq == FrequencyTable(samples)
  {
    var counts: map<nat, nat> := map[];
    var total := |samples|;
    for j := 0 to |samples|
      invariant forall p: nat :: Get(counts, p) == CountOnes(samples[..j], p)
      invariant forall p :: p in counts ==> counts[p] > 0
    {
      ghost var done := samples[..j];
      assert AllHex(done);
      var binStr := HexToBin(samples[j]);
      for i := 0 to |binStr|
        invariant forall p: nat ::
          Get(counts, p) == CountOnes(done, p) + (if p < i then OneAt(samples[j], p) else 0)
        invariant forall p :: p in counts ==> counts[p] > 0
      {
        if binStr[i] == '1' {
          counts := counts[i := Get(counts, i) + 1];
        }
      }
      CountOnesStep(samples, j);
    }
    assert samples[..|samples|] == samples;

    bitFreq := map[];
    var pending := counts.Keys;
    while pending != {}
      invariant pending <= counts.Keys
      invariant bitFreq.Keys == counts.Keys - pending
      invariant forall p :: p in bitFreq ==> bitFreq[p] == Frac(counts[p], total)
      decreases pending
    {
      var p :| p in pending;
      bitFreq := bitFreq[p := Frac(counts[p], total)];
      pending := pending - {p};
    }
    TableFromCounts(samples, counts, bitFreq);
  }

  /** Counting one more sample adds its bit at every position. */
  lemma CountOnesStep(samples: seq<string>, j: nat)
    requires AllHex(samples) && j < |samples|
    ensures forall p: nat ::
      CountOnes(samples[..j + 1], p) == CountOnes(samples[..j], p) + OneAt(samples[j], p)
  {
    assert samples[..j + 1][..j] == samples[..j];
  }

  /** A table built from exact per-position counts is the frequency table. */
  lemma TableFromCounts(samples: seq<string>, counts: map<nat, nat>, bitFreq: map<nat, Frac>)
    requires AllHex(samples)
    requires forall p: nat :: Get(counts, p) == CountOnes(samples, p)
    requires forall p :: p in counts ==> counts[p] > 0
    requires bitFreq.Keys == counts.Keys
    requires forall p :: p in bitFreq ==> bitFreq[p] == Frac(counts[p], |samples|)
    ensures bitFreq == FrequencyTable(samples)
  {
    var table := FrequencyTable(samples);
    SameKeys(samples, counts, table);
    forall p | p in bitFreq ensures bitFreq[p] == table[p] {
      assert Get(counts, p) == counts[p];
    }
  }

  lemma SameKeys(samples: seq<string>, counts: map<nat, nat>, table: map<nat, Frac>)
    requires AllHex(samples) && table == FrequencyTable(samples)
    requires forall p: nat :: Get(counts, p) == CountOnes(samples, p)
    requires forall p :: p in counts ==> counts[p] > 0
    ensures counts.Keys == table.Keys
  {
    forall p: nat ensures p in counts <==> p in table {
      assert Get(counts, p) == CountOnes(samples, p);
    }
  }
}
