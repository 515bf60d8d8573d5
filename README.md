# In-place radix-2 FFTs over a prime field

This project models the two in-place radix-2 decimation-in-time FFTs of
lambdaworks' `math/src/fft/fft_iterative.rs` and proves them correct.

- **`in_place_nr_2radix_fft`** takes its input in natural order and leaves the
  output in bit-reversed order. Its twiddles are the first `n / 2` powers of a
  primitive `n`-th root of unity, in bit-reversed order.
- **`in_place_rn_2radix_fft`** takes a bit-reversed input and leaves the output
  in natural order. Its twiddles are the same powers in natural order,
  `twiddles[e] == w^e`.

The reference for both is the test-side `dft`, the product of the input with
the DFT matrix. The model proves the same relations the tests check by
sampling, and proves them for every power-of-two length:

- NR followed by the bit-reverse permutation is the DFT;
- the bit-reverse permutation followed by RN is the DFT;
- the DFT is the coefficient polynomial evaluated at the powers of the root.

Modules, one file each:

- `Arith` (`arith.dfy`): small facts of integer arithmetic.
- `Field` (`field.dfy`): the field elements, integers modulo the prime
  `2^64 - 2^32 + 1`, with `Add`, `Sub`, `Mul`, `Neg` and `Pow` and the ring laws
  the proofs use.
- `BitReversal` (`bit_reversal.dfy`): powers of two, `Log2`, the bit reversal
  of an index, and the bit-reverse permutation of a sequence.
- `Fourier` (`dft.dfy`): the reference transform. `Dft` is the sum the test
  computes, `DftByMatrix` is its row-by-column loop, and `Evaluate` is
  polynomial evaluation. This module also holds decimation: the subsequences
  `x[s], x[s + stride], ...` that one radix-2 step splits a transform into.
- `FftIterative` (`fft_iterative.dfy`): the loop shape and each stage of both
  algorithms, written as functions of the previous contents.
  - `NrStage` and `RnStage` are one pass of the outer loop.
  - `NrFft` and `RnFft` are all the passes.
  - Lemmas cover where each butterfly lands and how far a stage has got.
- `InPlaceFft` (`in_place_fft.dfy`): the algorithms themselves, as methods on
  an `array`, with the same loops and counters as the source. Each method is
  proved to leave exactly the stage functions' result in the array. The two
  FFTs are also proved to compute the transform when they get the twiddles
  they expect.
- `FftCorrectness` (`fft_correctness.dfy`): the stage invariants and the
  correctness theorems.
  - NR: after the stages that produced `groupCount` groups of `groupSize`,
    element `offset` of group `g` is the decimation of the input at `offset`
    with stride `groupSize`. That decimation is evaluated at `w^(groupSize * r)`,
    where `r` is `g` bit-reversed.
  - RN: element `offset` of block `b` is the decimation at `b` bit-reversed,
    evaluated at `w^(groupSize * offset)`.

## Model

| member | source | states |
|---|---|---|
| InPlaceFft.InPlaceNr2RadixFft | math/src/fft/fft_iterative.rs:15-47 | Leaves `NrFft(old input)` in the array. With bit-reversed twiddles of a primitive `n`-th root `w`, that is `Dft(old input, w)` in bit-reversed order. A one-element input is left unchanged. The outer loop runs exactly `log2(n)` times. |
| InPlaceFft.NrPass | math/src/fft/fft_iterative.rs:30-43 | One pass of the group loop and the butterfly loop leaves exactly `NrStage` of the old contents, one twiddle `twiddles[group]` per group. |
| InPlaceFft.Butterfly | math/src/fft/fft_iterative.rs:37-41 | Writes `a + w*b` at `i` and `a - w*b` at `j`, and changes nothing else in the array. |
| InPlaceFft.InPlaceRn2RadixFft | math/src/fft/fft_iterative.rs:62-92 | Leaves `RnFft(old input)` in the array. With natural twiddles of a primitive `n`-th root `w`, that is the DFT of the bit-reverse permutation of the old input, in natural order. A one-element input is left unchanged. The outer loop runs exactly `log2(n)` times. |
| InPlaceFft.RnPass | math/src/fft/fft_iterative.rs:75-88 | One pass with `step_to_next`/`step_to_last` leaves exactly `RnStage` of the old contents. Group `group` uses the twiddle at `group * group_size / 2`. |
| FftIterative.ButterflyOn | math/src/fft/fft_iterative.rs:82-86 | The butterfly on a sequence keeps the length, writes `a + w*b` and `a - w*b` at the two positions, and leaves every other position unchanged. |
| FftIterative.NextStageShape | math/src/fft/fft_iterative.rs:44-45 | While `group_count < n`, the group size is even and at least 2. Doubling the count and halving the size keeps `count * size == n`, with both powers of two. |
| FftIterative.LastStageShape | math/src/fft/fft_iterative.rs:28 | When the loop exits, `group_count == n` and `group_size == 1`. |
| FftIterative.HalfShape | math/src/fft/fft_iterative.rs:30-34 | A stage has `n / 2` butterflies, and every NR group index, which is also its twiddle index, is below `n / 2`. |
| FftIterative.NrStageBounds | math/src/fft/fft_iterative.rs:34-38 | Every index an NR stage reads is in bounds: the twiddle `p / group_size` and the partner `p ± group_size / 2`. |
| FftIterative.RnStageBounds | math/src/fft/fft_iterative.rs:81-83 | Every index an RN stage reads is in bounds: the partner `p ± group_count` and the twiddle index below `n / 2`. |
| FftIterative.RnTwiddleIndexBound | math/src/fft/fft_iterative.rs:81 | The RN twiddle index `group * group_size / 2` equals `group * (group_size / 2)` and is below `n / 2`. |
| FftIterative.RnButterflyCount | math/src/fft/fft_iterative.rs:76-80 | `i = group + l * step_to_next` stays within `group..=group + step_to_last` exactly when `l < group_size / 2`. |
| FftIterative.NrButterflyAt | math/src/fft/fft_iterative.rs:36-41 | NR butterfly `i` of `group` gives the stage's values at `i` and at `i + group_size / 2`. Both indices and the twiddle index are in bounds. |
| FftIterative.RnButterflyAt | math/src/fft/fft_iterative.rs:80-86 | RN butterfly `l` of `group` gives the stage's values at `group + l * 2 * group_count` and `group_count` further on. The indices are in bounds. |
| FftIterative.RnDoneStep | math/src/fft/fft_iterative.rs:80-86 | Each RN butterfly rewrites exactly two positions that no earlier butterfly of the stage touched, so every position is rewritten once per stage. |
| FftIterative.NrPartialStep | math/src/fft/fft_iterative.rs:36-42 | One NR butterfly extends the stage by one position. Positions not yet reached keep their old values. |
| FftIterative.RnPartialStep | math/src/fft/fft_iterative.rs:80-87 | One RN butterfly extends the stage by one butterfly. Positions not yet reached keep their old values. |
| FftIterative.NrPartialEnds | math/src/fft/fft_iterative.rs:30-43 | Before the group loop nothing is rewritten. After it, the array is exactly `NrStage` of the old contents. |
| FftIterative.RnPartialEnds | math/src/fft/fft_iterative.rs:79-88 | Before the group loop nothing is rewritten. After it, the array is exactly `RnStage` of the old contents. |
| FftCorrectness.NrStagePreserves | math/src/fft/fft_iterative.rs:28-46 | One NR stage turns the invariant for `count` groups of `size` into the invariant for `2 * count` groups of `size / 2`. |
| FftCorrectness.NrPairStep | math/src/fft/fft_iterative.rs:37-41 | The two outputs of an NR butterfly of `group` satisfy the next stage's invariant in groups `2 * group` and `2 * group + 1`. |
| FftCorrectness.RnStagePreserves | math/src/fft/fft_iterative.rs:75-91 | One RN stage turns the invariant for `count` groups of `size` into the invariant for `2 * count` groups of `size / 2`. |
| FftCorrectness.RnPairStep | math/src/fft/fft_iterative.rs:82-86 | The two outputs of an RN butterfly satisfy the next stage's invariant at `offset` and `offset + group_count`. |
| FftCorrectness.ButterflyPoints | math/src/fft/fft_iterative.rs:37-38 | For a primitive root, a butterfly's twiddle `z` gives the previous stage's point `z * z`, and `-z` is the twiddle of the partner group. |
| FftCorrectness.DecimatedButterfly | math/src/fft/fft_iterative.rs:24-26 | Halving the stride of a decimation is one butterfly. Its values at `z` and `-z` are `u + z*v` and `u - z*v` of the two decimations at twice the stride, evaluated at `z * z`. |
| FftCorrectness.NrFftIsBitReversedDft | math/src/fft/fft_iterative.rs:3-6 | With bit-reversed twiddles of a primitive root, NR's output is the DFT in bit-reversed order. |
| FftCorrectness.NrThenBitReverseIsDft | math/src/fft/fft_iterative.rs:126-136 | NR followed by the bit-reverse permutation equals `dft(input)`. |
| FftCorrectness.BitReverseThenRnIsDft | math/src/fft/fft_iterative.rs:143-154 | The bit-reverse permutation followed by RN, with natural twiddles, equals `dft(input)`. |
| Fourier.DftByMatrix | math/src/fft/fft_iterative.rs:158-177 | The row-by-column loop, reading `w^((row*col) mod n)` from a table of the first `n` powers, returns exactly `Dft(input, w)`. |
| Fourier.DftIsEvaluation | math/src/fft/fft_iterative.rs:182-191 | Row `row` of the DFT is the coefficient polynomial evaluated at `w^row`. |
| Fourier.EvaluateButterfly | math/src/fft/fft_iterative.rs:24 | `p(z) = pe(z^2) + z*po(z^2)` and `p(-z) = pe(z^2) - z*po(z^2)`: the identity behind `(a + wb, a - wb)`. |
| BitReversal.BitReversePermuteInvolution | math/src/fft/fft_iterative.rs:134 | Applying the bit-reverse permutation twice gives back the input. NR's bit-reversed output is therefore undone by the permutation the test applies. |

## Left out

- The field is fixed as the integers modulo `2^64 - 2^32 + 1`, in canonical form. The generic `FieldElement<F>` over any `IsTwoAdicField`, the test field `U64TestField` and Montgomery or other representations are not modelled. The proofs use only ring laws.
- Twiddle and root generation (`get_twiddles`, `get_powers_of_primitive_root`, `RootsConfig`) is not part of this model. Its results are preconditions:
  - `BitReversedTwiddles`: `twiddles[j] == w^rev(j)` over `n / 2` entries;
  - `NaturalTwiddles`: `twiddles[e] == w^e`;
  - `IsPrimitiveRoot`: `w^n == 1` and `w^(n/2) == -1`;
  - for `DftByMatrix`, a table of the first `n` powers.
- `in_place_bit_reverse_permute` and `log2` are not part of this model. They appear only as the specification functions `BitReversal.BitReversePermute` and `BitReversal.Log2`.
- `Polynomial::evaluate` appears only as the specification function `Fourier.Evaluate`.
- The proptest strategies (lines 107-121) generate random inputs and are not modelled. The lemmas hold for all inputs instead.
- InPlaceFft.InPlaceNr2RadixFft and InPlaceFft.InPlaceRn2RadixFft require the length to be a power of two and `|twiddles| >= n / 2`. The source documents the first requirement (lines 6 and 52) and goes out of bounds without the second. The model does not describe the source's behaviour on other lengths (including the empty input) or on shorter twiddle slices.
- Fourier.DftByMatrix does not model the test's `log2(n).unwrap()`, which panics when `n` is not a power of two. It takes the table of powers as a parameter instead.
- `usize` arithmetic is unbounded in the model. For the power-of-two lengths modelled, every index stays below `n`, so no overflow arises.
- Each FFT's stage loop body is split into a pass method (`NrPass`, `RnPass`) and a `Butterfly` method. The loops, counters and order of writes are those of the source.
