# Bit-frequency flag decoder, modelled in Dafny

`1forMe1ForYou/decode.py` rebuilds a flag from many noisy observations of it. Each
observation (a *sample*) is a line of hexadecimal digits. The decoder runs in three
stages:

1. `hex_to_bin` turns a sample into a binary string of four bits per digit. Leading
   zeros are kept, so bit positions line up across samples.
2. `collect_bit_frequencies` counts, per bit position, how many samples hold a `1`
   there. Then it divides each count by the number of samples.
3. `reconstruct_flag` classifies each position against a threshold `t` (default 0.51).
   Above `t` is `1`; otherwise below `1 - t` is `0`; anything else is unknown (`?`).
   It then reads the classified bits eight at a time, most significant bit first. A
   group holding a `?` is undetermined; any other group is its binary value.

`main` loads the stripped, non-blank lines of a file. It stops with an error when none
are left. Otherwise it takes the width from the first sample and runs the three stages.

The model has six modules, one file each:

- `Wrappers` (`wrappers.dfy`): `Option` and `Result`.
- `Bits` (`bits.dfy`): binary strings and their MSB-first value (`int(s, 2)`).
- `Hex` (`hex.dfy`): the pure conversion `hex_to_bin`.
- `BitFrequencies` (`frequencies.dfy`): `collect_bit_frequencies` as a method with the
  source's loops. A `map<nat, nat>` of counts is updated sample by sample and bit by
  bit. A second loop over its keys then builds the table of fractions. The method is
  proved equal to the specification function `FrequencyTable`.
- `Reconstruct` (`reconstruct.dfy`): `reconstruct_flag` as a method. The
  classification loop writes into an `array<char>` initialised to `'0'`, as
  `flag_bits` is. The stepped grouping loop appends to a sequence. Both loops are
  proved against the functions `Classification` and `Groups`.
- `Decode` (`decode.dfy`): the line filter of `load_hex_outputs`, and `main` as
  `DecodeFlag`.

Modelling choices:

- A frequency is the exact fraction `Frac(count, total)`, not a float. A threshold is
  the exact fraction `Threshold(num, den)`. `freq > t` is `count * den > num * total`,
  and `freq < 1 - t` is `count * den < (den - num) * total`.
  `Reconstruct.ClassifyMeaning` proves these equal the comparisons on real numbers.
- A classified bit is a character `'0'`, `'1'` or `'?'`, as in the source. So one
  `BinValue` reads both converted samples and byte groups.
- The output is a `seq<Option<nat>>`: `None` where the source prints `?`, else the
  byte's integer value. A determined byte 0x3F also prints as `?`, so a string could
  not tell the two apart.
- The source handles samples of different widths without complaint, and so does the
  model. The counts use each sample's own width; `main` takes `total_bits` from the
  first sample. Only the identical-samples property assumes anything about widths.
- A short final group arises when `total_bits` is not a multiple of 8, which happens
  for a first sample with an odd number of digits. One could treat that group as
  undetermined. The code instead parses the shorter slice as a smaller integer, and
  the model follows the code: `DecodeGroup` of a short group with no `?` is its value,
  below `2^length`.
- A threshold's denominator is a positive integer (`Reconstruct.Positive`), so no
  threshold can flip the sense of a comparison.

## Model

| member | source | states |
|---|---|---|
| `Bits.BinValue` | 1forMe1ForYou/decode.py:64 | `int(byte, 2)` of an `n`-bit string is below 2^n, so a full group is at most 255 |
| `Hex.DigitValue` | 1forMe1ForYou/decode.py:9 | each hexadecimal digit (either case) has a value below 16 |
| `Hex.HexValue` | 1forMe1ForYou/decode.py:9 | `int(h, 16)` of `L` digits is below 2^(4L), so it fits the padded width |
| `Hex.Binary` | 1forMe1ForYou/decode.py:9 | `bin(n)[2:]` is a non-empty string of '0'/'1' whose value is `n` |
| `Hex.ZFillPads` | 1forMe1ForYou/decode.py:9 | `zfill(width)` keeps the string at the end and fills it up to `width` characters with '0' in front; a string already that long is unchanged |
| `Hex.BinaryFits` | 1forMe1ForYou/decode.py:8-9 | a value below 2^k has a binary spelling of at most `k` bits, so `zfill` only pads |
| `Hex.HexToBin` | 1forMe1ForYou/decode.py:5-9 | the result has exactly 4·len(h) characters, all '0' or '1', and its MSB-first value equals the hexadecimal value of `h` |
| `Hex.HexToBinUnique` | 1forMe1ForYou/decode.py:5-9 | `hex_to_bin(h)` is the only 4·len(h)-bit string with the value of `h` |
| `Hex.HexToBinIsNibbles` | 1forMe1ForYou/decode.py:5-9 | `hex_to_bin(h)` is the conversions of its single digits side by side, so digit `i` owns bits 4i..4i+3 |
| `BitFrequencies.Get` | 1forMe1ForYou/decode.py:23-30 | reading the `defaultdict(int)` gives the stored count for a present key and 0 for a missing one |
| `BitFrequencies.CountOnes` | 1forMe1ForYou/decode.py:26-30 | the number of samples with a '1' at a position is at most the number of samples |
| `BitFrequencies.CountOnesBeyondWidth` | 1forMe1ForYou/decode.py:28-30 | no position at or beyond the widest sample is ever counted |
| `BitFrequencies.CountOnesStep` | 1forMe1ForYou/decode.py:26-30 | counting one more sample adds exactly that sample's bit at every position |
| `BitFrequencies.FrequencyTable` | 1forMe1ForYou/decode.py:21-36 | a position is in the table iff some sample has a '1' there; its entry is that count over the number of samples, a fraction in (0, 1] |
| `BitFrequencies.CollectBitFrequencies` | 1forMe1ForYou/decode.py:21-36 | the counting loops and the division loop produce exactly `FrequencyTable(samples)` |
| `BitFrequencies.TableFromCounts` | 1forMe1ForYou/decode.py:32-34 | dividing exact per-position counts by the total yields the frequency table, with the same keys |
| `Reconstruct.DefaultThresholdValue` | 1forMe1ForYou/decode.py:38 | the default threshold is exactly 0.51, strictly between one half and one |
| `Reconstruct.Lookup` | 1forMe1ForYou/decode.py:48 | `bit_freq.get(p, 0)`: the stored frequency for a position in the table, and frequency 0 for a missing one |
| `Reconstruct.Classify` | 1forMe1ForYou/decode.py:49-54 | the result is '1' iff above t; '0' iff not above t and below 1 − t; '?' iff neither, so exactly one of the three |
| `Reconstruct.Classification` | 1forMe1ForYou/decode.py:45-54 | the classified list has one entry per position in [0, total_bits), each '0', '1' or '?' |
| `Reconstruct.ClassifyMeaning` | 1forMe1ForYou/decode.py:47-54 | a position is '1' iff freq > t; '0' iff not above t and freq < 1 − t; '?' iff 1 − t ≤ freq ≤ t, so frequencies equal to t or 1 − t are unknown |
| `Reconstruct.BandsDisjoint` | 1forMe1ForYou/decode.py:49-52 | for t > 1/2 no frequency is both above t and below 1 − t, so '0' is exactly "below 1 − t" |
| `Reconstruct.EvenSplitUnknown` | 1forMe1ForYou/decode.py:49-54 | a frequency of exactly 1/2 is unknown at every threshold of 1/2 or more |
| `Reconstruct.UnknownWidens` | 1forMe1ForYou/decode.py:49-54 | a position unknown at threshold t1 stays unknown at any t2 ≥ t1 |
| `Reconstruct.UnknownCountMonotone` | 1forMe1ForYou/decode.py:45-54 | raising the threshold never decreases the number of positions classified unknown |
| `Reconstruct.DecodeGroup` | 1forMe1ForYou/decode.py:59-64 | a group is undetermined iff it contains '?'; otherwise its value is below 2^(group length) |
| `Reconstruct.Groups` | 1forMe1ForYou/decode.py:57-66 | the groups cover the bit list with fewer than 8 bits to spare: 8·(groups − 1) < total_bits ≤ 8·groups |
| `Reconstruct.GroupsCount` | 1forMe1ForYou/decode.py:58 | the stepped range yields ceil(total_bits / 8) groups |
| `Reconstruct.GroupsShape` | 1forMe1ForYou/decode.py:57-66 | the output has ceil(total_bits / 8) entries; entry k decodes the slice `flag_bits[8k:8k+8]`, cut short at the end |
| `Reconstruct.GroupBytes` | 1forMe1ForYou/decode.py:56-66 | the stepped grouping loop produces exactly `Groups(flag_bits)` |
| `Reconstruct.ReconstructFlag` | 1forMe1ForYou/decode.py:38-66 | starting from all '0', the loop sets position p to the classification of `bit_freq.get(p, 0)` alone; the output is `Groups` of that list |
| `Reconstruct.EvenSplitGroup` | 1forMe1ForYou/decode.py:45-62 | a position set in exactly half the samples makes its byte undetermined at any threshold of 1/2 or more |
| `Decode.SpaceIsNotHex` | 1forMe1ForYou/decode.py:15 | space, tab, newline and carriage return are white space to `str.strip`, and no white space character is a hexadecimal digit |
| `Decode.StripStart` | 1forMe1ForYou/decode.py:15 | what is left is a suffix of the line; everything dropped is white space; it does not start with white space |
| `Decode.StripEnd` | 1forMe1ForYou/decode.py:15 | what is left is a prefix of the line; everything dropped is white space; it does not end with white space |
| `Decode.Strip` | 1forMe1ForYou/decode.py:15 | a stripped line has no white space at either end, and it is empty iff the line is all white space |
| `Decode.StripTrims` | 1forMe1ForYou/decode.py:15 | a stripped line is the contiguous middle part of the line, and everything before and after it is white space |
| `Decode.LoadSamples` | 1forMe1ForYou/decode.py:15 | no more samples than lines, each non-empty and stripped |
| `Decode.LoadSamplesEmpty` | 1forMe1ForYou/decode.py:15 | nothing is loaded iff every line is blank once stripped |
| `Decode.LoadSamplesAppend` | 1forMe1ForYou/decode.py:15 | a further line adds its stripped form at the end if that is non-empty, and nothing otherwise, so samples keep the order of their lines |
| `Decode.LoadSamplesHex` | 1forMe1ForYou/decode.py:15 | when every stripped line is blank or hexadecimal digits, every loaded sample is a non-empty hexadecimal string |
| `Decode.LoadSamplesKeepsClean` | 1forMe1ForYou/decode.py:15 | lines that are already stripped and non-blank come through unchanged and in order |
| `Decode.LoadSamplesIdempotent` | 1forMe1ForYou/decode.py:15 | loading the loaded samples again changes nothing |
| `Decode.CountOnesUniform` | 1forMe1ForYou/decode.py:26-30 | with identical samples a position is counted in all of them or in none |
| `Decode.AlwaysOne` | 1forMe1ForYou/decode.py:49-50 | frequency 1 is classified '1' for every threshold below 1 |
| `Decode.IdenticalSamplesPosition` | 1forMe1ForYou/decode.py:26-54 | with identical samples and 0 ≤ t < 1, every position is classified as the converted sample has it |
| `Decode.IdenticalSamplesClassify` | 1forMe1ForYou/decode.py:26-54 | with identical samples every frequency is 0 or 1; for 0 ≤ t < 1 no position is unknown and the classified bits are the converted sample |
| `Decode.AllGroupsDetermined` | 1forMe1ForYou/decode.py:58-64 | groups of a plain bit string are all determined; each is the value of its slice |
| `Decode.Flag` | 1forMe1ForYou/decode.py:81-88 | the flag has one entry per two hexadecimal digits of the first sample, rounded up |
| `Decode.FlagBytes` | 1forMe1ForYou/decode.py:58-64 | every determined entry of the flag is below 256, a byte value for `chr` |
| `Decode.FlagOfIdenticalSamples` | 1forMe1ForYou/decode.py:81-88 | for identical samples the flag is the byte values of the converted sample: every entry determined, entry k the value of bits 8k..8k+7 |
| `Decode.DecodeFlag` | 1forMe1ForYou/decode.py:74-88 | for input whose stripped lines are blank or hexadecimal, an error iff every line is blank once stripped, which is when no sample is left after loading; otherwise the flag of the loaded samples over the first sample's width at threshold 0.51 |

## Left out

- File reading, `open`, the `FileNotFoundError` message, `sys.argv` checks, `sys.exit`
  and `print` are I/O. `DecodeFlag` takes the file's lines as a parameter and returns a
  `Result` in place of the exit.
- Floating-point division and comparison are replaced by exact fractions. The model
  does not capture double rounding at a frequency that lies within rounding error of
  `t` or `1 - t`.
- `chr` and the text encoding of bytes 128 and above. The model stops at the integer
  value of each byte.
- `int(h, 16)` is more lenient than plain hexadecimal digits. It also accepts a leading
  `+` or `-`, a `0x` prefix, underscores between digits, surrounding white space, and
  decimal digits from other scripts (`int('٣', 16)` is 3). It raises `ValueError` on
  anything else. A negative sample makes `hex_to_bin` return a string that is not bits:
  `bin` of a negative value starts with `-0b`, so `[2:]` keeps a `b`. The model requires
  each sample to be a non-empty string of the ASCII digits `0-9`, `a-f` and `A-F`
  (`IsHexString`). It models none of these other inputs and not the exception.
- `collect_bit_frequencies` divides in place in one `defaultdict`. The model's division
  loop writes a second map, because counts and fractions have different types here.
  The final table is the same.
- Splitting the file into lines, including Python's newline translation, happens
  before the model. The lines arrive already split.
- The unused `binascii` import.
