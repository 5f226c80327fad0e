# Systematic single-error-correcting binary codes

This project models a small program that builds and uses a Hamming-type
linear code `(n, k)` over GF(2). The program

- checks the Hamming, Singleton and Varshamov-Gilbert bounds for the
  parameters;
- builds a systematic generator matrix `G = [I_k | A]`, whose rows of `A`
  are the first `k` non-zero `r`-bit vectors (`r = n - k`) that are not
  unit vectors;
- derives the parity-check matrix `H = [A^T | I_r]`;
- encodes an information word as the GF(2) sum of the selected rows of `G`;
- decodes a received word by syndrome: the first column of `H` equal to a
  non-zero syndrome is taken as the error position and flipped.

Bits are `int` values 0 and 1, as in the original lists, and matrices are
sequences of rows. The modules follow the program's functions:

- `Bits` holds the GF(2) vocabulary: the dot product, XOR, columns, unit
  vectors and binary representations.
- `Bounds` models `check_bounds`.
- `Generator` models `generate_G`. It also proves what its enumeration
  contains and how many vectors it yields.
- `ParityCheck` models `get_H_from_G`. It proves that `G H^T = 0` and that
  the columns of `H` are distinct and non-zero.
- `Encoder` models `encode`.
- `Decoder` models `decode`.
- `Pipeline` models the part of `main` that chains these calls for `d = 3`.
  It proves that any single error, or none, is corrected.

## Model

| member | source | states |
|---|---|---|
| Bounds.CheckBounds | Code_Python_H.py:2-14 | all three verdicts are false when `n <= k`; otherwise Hamming holds iff `n + 1 <= 2^r`, Singleton iff `r >= d - 1`, Varshamov-Gilbert iff `sum_{i < d-1} C(n-1, i) < 2^r` |
| Bounds.HammingBoundExact | Code_Python_H.py:8 | `2^k <= 2^n / (1 + n)` is equivalent to `n + 1 <= 2^(n-k)` |
| Bounds.VgSumForDistanceThree | Code_Python_H.py:12 | for `d = 3` the Varshamov-Gilbert sum `C(n-1, 0) + C(n-1, 1)` equals `n` |
| Bounds.BoundsForDistanceThree | Code_Python_H.py:2-14 | for `d = 3` the Hamming and Varshamov-Gilbert verdicts agree, and all three hold iff `r >= 2` and `n + 1 <= 2^r` |
| Bounds.CheckBoundsExamples | Code_Python_H.py:2-14 | `(7, 4)` passes all bounds, `(7, 5)` passes only Singleton, `(5, 5)` passes none |
| Bits.ValueOfToBits | Code_Python_H.py:23 | the `r`-digit binary representation of `v < 2^r` denotes `v` again |
| Bits.ToBitsInjective | Code_Python_H.py:22-24 | distinct integers below `2^r` get distinct vectors |
| Bits.ToBitsIsBits | Code_Python_H.py:23 | every digit is 0 or 1 |
| Bits.WeightOfToBits | Code_Python_H.py:27 | counting the 1s of the vector counts the 1 bits of the integer |
| Bits.PopCountIsZero | Code_Python_H.py:22 | only 0 has no 1 bits among the integers below `2^r` |
| Bits.DotXor | Code_Python_H.py:85 | the syndrome dot product is linear: the dot with `a XOR b` is the sum of the dots, mod 2 |
| Bits.DotUnit | Code_Python_H.py:85 | the dot with a unit vector picks out one entry |
| Bits.FlipIsXor | Code_Python_H.py:99 | on a binary word, flipping bit `p` adds the unit vector `e_p` |
| Bits.FlipFlip | Code_Python_H.py:99 | flipping the same bit twice restores the word |
| Generator.GenerateG | Code_Python_H.py:15-41 | `None` iff `r < 2`; otherwise `k` rows of length `n`, row `i` being `e_i` followed by the `i`-th non-basis vector, so the left block is `I_k` |
| Generator.AllVectors | Code_Python_H.py:21-24 | entry `t` of the list is the `r`-bit vector of `t + 1`, for all `2^r - 1` non-zero integers |
| Generator.DropBasis | Code_Python_H.py:26-30 | filtering on the count of 1s yields exactly the non-basis vectors, in ascending order |
| Generator.Assemble | Code_Python_H.py:33-40 | row `i` of the result is `e_i` of length `k` followed by `A[i]` |
| Generator.NonBasisCount | Code_Python_H.py:21-30 | the filtered list has exactly `2^r - 1 - r` vectors |
| Generator.CountUnitAll | Code_Python_H.py:26-30 | exactly `r` of the integers below `2^r` have a single 1 bit |
| Generator.NonBasisBelowEntries | Code_Python_H.py:21-30 | every kept vector is the representation of an integer `1 <= v < 2^r` whose weight is not 1 |
| Generator.NonBasisBelowAscending | Code_Python_H.py:21-30 | the kept vectors ascend strictly as integers |
| Generator.NonBasisBelowComplete | Code_Python_H.py:21-30 | every integer `1 <= v < 2^r` of weight other than 1 has its vector kept |
| Generator.SelectedRows | Code_Python_H.py:32 | the rows of `A` have weight at least 2, ascend strictly, are pairwise distinct, and are the first `k` eligible vectors |
| Generator.NonBasisOfThree | Code_Python_H.py:21-32 | for `r = 3` the rows of `A` are `011, 101, 110, 111` |
| ParityCheck.GetHFromG | Code_Python_H.py:42-68 | `H` has `n - k` rows of length `n`, `H[i][j] = G[j][k + i]` for `j < k`, and `I_r` on the right |
| ParityCheck.GeneratedIsSystematic | Code_Python_H.py:15-41 | the generator built is binary and systematic `[I_k | A]` |
| ParityCheck.ParityFormIsBinary | Code_Python_H.py:42-68 | `H` built from a binary `G` is binary |
| ParityCheck.GeneratorOrthogonal | Code_Python_H.py:42-68 | every row of `G` has dot product 0 with every row of `H` |
| ParityCheck.ColumnsDistinctNonZero | Code_Python_H.py:54-67 | when the rows of `A` are distinct with weight at least 2, the `n` columns of `H` are non-zero and pairwise distinct |
| Encoder.Encode | Code_Python_H.py:69-76 | the codeword is the GF(2) sum of the rows `G[i]` with `u[i] = 1` |
| Encoder.CombinationPrefix | Code_Python_H.py:69-76 | with a systematic `G`, the first `k` bits of the sum over a prefix of `u` are that prefix, then zeros |
| Encoder.EncodedSystematic | Code_Python_H.py:100-101 | the first `k` bits of the codeword of a binary `u` are `u` |
| Encoder.EncodedSyndromeZero | Code_Python_H.py:69-86 | every codeword has dot product 0 with every row of `H` |
| Decoder.Decode | Code_Python_H.py:77-102 | the syndrome is `received * H^T`; the position is `None` iff the syndrome is zero or matches no column, otherwise the first matching column; the info bits are the first `k` bits of the word after flipping that position |
| Decoder.SingleErrorSyndrome | Code_Python_H.py:80-95 | flipping bit `p` of a word with zero syndrome makes the syndrome equal column `p` of `H` |
| Pipeline.BoundsGate | Code_Python_H.py:119-131 | the bound check for `d = 3` passes iff `r >= 2` and there are at least `k` non-basis vectors for `A` |
| Pipeline.GeneratedColumns | Code_Python_H.py:89-95 | for the generator built, the columns of `H` are non-zero and pairwise distinct, so a single error matches one column only |
| Pipeline.Transmit | Code_Python_H.py:119-161 | after the bounds pass, encoding `u` and flipping at most one bit, the decoder reports exactly the flipped position, a zero syndrome iff nothing was flipped, and returns `u` |

## Left out

- `print_matrix` and the input, output and exception handling of `main`
  are not modelled. `Pipeline.Transmit` takes the information word and the
  channel's error position as parameters. No output is produced.
- A received word from `main` that differs from the codeword in two or
  more bits is not modelled. `Decoder.Decode` still states what is
  returned for any received word.
- Bounds.CheckBounds: computes the Hamming bound exactly as
  `2^k * (1 + n) <= 2^n`. The original divides in floating point. Its
  verdict equals the exact comparison until the quotient leaves the double
  range; from `n = 1035` on it raises an overflow error instead of
  returning.
- Bounds.CheckBounds: `n` and `k` are natural numbers and the unused
  correction capability `t` is dropped. `math.comb` becomes the recursive
  `Binomial`.
- Generator.GenerateG: requires `n + 1 <= 2^r` whenever `r >= 2`. This is
  the exact Hamming bound. Without it the original indexes past the end of
  `A` and raises an error; `main` never calls it then.
- ParityCheck.GetHFromG: requires `k <= n`, exactly `k` rows, and rows of
  length exactly `n`. The original also accepts longer rows, ignores rows
  past the first `k` when it transposes `A`, and, for `n < k`, returns an
  empty matrix. `main` always passes the `k x n` matrix it built.
- Encoder.Encode: requires `u` of length `k`, `k` rows, and rows of length
  exactly `n`. The original also accepts longer lists.
- Decoder.Decode: requires `k <= n`, a received word of length `n` and `H`
  of `n - k` rows of length `n`. The original also accepts longer lists and
  reads only their first entries; for `k > n` it returns the first `k`
  received bits, an empty syndrome and no position. `main` rejects
  `n <= k` before decoding.
