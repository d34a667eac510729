# array-splitter in Dafny

A model of the `ArraySplitter` utility (`array-splitter/src/ArraySplitter.cpp`).
It decides whether an array can be cut into `k` contiguous, non-empty parts with
equal sums, and produces those parts. It covers the integral instantiations
(`int` and `long long` elements) of its four static operations:

- `validateInput`: `k` must be positive and the array must have at least `k` elements.
- `calculateTotalSum`: accumulates the elements in a `long long`. Before each addition
  it checks that the addition would stay in range, and raises an overflow otherwise.
- `canSplitIntoKParts`: answers `false` for invalid input and for a total that `k`
  does not divide. Otherwise it scans left to right with a running sum. The running
  sum resets each time it equals `total / k`, and the scan stops at the k-th hit.
  The answer is whether `k` hits occurred.
- `splitIntoKParts`: the same scan, which also collects the elements of each part.
  Invalid input, an overflow, an indivisible total and fewer than `k` hits are raised
  as errors, in that order.

Layout:

- `sums.dfy` (module `Sums`): the sum and concatenation of integer sequences.
- `greedy_scan.dfy` (module `GreedyScan`): the scan as recursive functions.
  - `FirstHit` reads one segment with a running sum.
  - `Greedy` lists the segments the scan closes.
  - The main theorem, `GreedyDecidesPartition`: `k` divides the total and the scan
    closes `k` segments of `total / k` exactly when the input can be cut into `k`
    contiguous, non-empty parts of equal sum that cover all of it. Elements after the k-th segment are dropped, and they then sum
    to zero.
- `array_splitter.dfy` (module `ArraySplitter`):
  - the error kinds and `long long` range;
  - C++ truncating `/` and `%`;
  - the outcome functions `TotalSum`, `CanSplitOutcome` and `SplitOutcome`;
  - the source's loops as methods proved equal to those functions;
  - lemmas saying what the outcomes mean.
- `scenarios.dfy` (module `Scenarios`): the repository's test cases, and a few edge
  cases, as lemmas about the model.

Exceptions become `Result` values: `Err(InvalidInput)`, `Err(Overflow)`,
`Err(SplitImpossible)`. The input vector is a read-only `seq<int>`. The vectors the
split fills (`currentPart`, `result`) are local sequences that the loop reassigns.

Where the repository's tests and the code disagree, the model follows the code:

- `test/test_array_splitter.cpp:32-33` expects `calculateTotalSum({INT_MAX, INT_MAX, INT_MAX})`
  to overflow. The sum, 6442450941, fits in a `long long`, so the code returns it
  (`Scenarios.ThreeIntMaxFit`).
- `test/test_array_splitter.cpp:16-18` says `{1, 2, 3, 4, 5, 6}` fails because its total
  does not divide by 3. It does divide (21), and the answer is `false` for another
  reason: the running sum overshoots the target 7 (`Scenarios.OvershootIsFalse`).

## Model

| member | source | states |
|---|---|---|
| GreedyScan.FirstHit | array-splitter/src/ArraySplitter.cpp:61-70 | the end index the scan for one segment returns lies after its start and within the array |
| GreedyScan.FirstHitIsFirst | array-splitter/src/ArraySplitter.cpp:94-103 | started at a boundary, the scan stops at the first end index whose slice sums to the target; `None` means no later slice does |
| GreedyScan.Greedy | array-splitter/src/ArraySplitter.cpp:94-110 | the scan closes at most `k` segments (it breaks at the k-th) |
| GreedyScan.GreedySegments | array-splitter/src/ArraySplitter.cpp:94-103 | every closed segment is non-empty and sums to the target |
| GreedyScan.ScanAdvance | array-splitter/src/ArraySplitter.cpp:94-103 | one loop step: a hit closes the segment from the boundary through the current element, and no hit keeps the scan of the current segment going |
| GreedyScan.ScanEnd | array-splitter/src/ArraySplitter.cpp:94-110 | when the loop runs out of elements without a hit, no further segment is closed |
| GreedyScan.GreedyPrefix | array-splitter/src/ArraySplitter.cpp:94-110 | the closed segments are contiguous and in order: their concatenation is the slice of the input from the start to the last boundary |
| GreedyScan.GreedyStopsAtFirstHit | array-splitter/src/ArraySplitter.cpp:99-102 | no proper non-empty prefix of a closed segment sums to the target |
| GreedyScan.GreedyShortfall | array-splitter/src/ArraySplitter.cpp:94-115 | fewer than `k` segments means no slice after the last boundary sums to the target: an overshoot is never corrected |
| GreedyScan.DroppedTailSumsToZero | array-splitter/src/ArraySplitter.cpp:105-108 | when the input sums to `k * target` and `k` segments are closed, the elements skipped by the early break sum to zero |
| GreedyScan.GreedyFindsEveryCut | array-splitter/src/ArraySplitter.cpp:94-110 | completeness: if the rest of the input can be cut into `n` segments of sum `target`, the scan closes `n` segments |
| GreedyScan.GreedyYieldsPartition | array-splitter/src/ArraySplitter.cpp:88-117 | soundness: `k` closed segments of `total / k` (the last extended by the dropped tail) cut all of the input into `k` equal-sum parts |
| GreedyScan.GreedyDecidesPartition | array-splitter/src/ArraySplitter.cpp:81-117 | for `k > 0`, the total is divisible and the scan closes `k` segments if and only if the input can be cut into `k` contiguous non-empty equal-sum parts |
| GreedyScan.PartitionNeedsKElements | array-splitter/src/ArraySplitter.cpp:12-16 | a cut into `k` non-empty parts needs at least `k` elements |
| ArraySplitter.ValidInput | array-splitter/src/ArraySplitter.cpp:8-18 | accepts exactly `k > 0` with at least `k` elements; anything else is invalid input |
| ArraySplitter.ValidationLosesNoSplit | array-splitter/src/ArraySplitter.cpp:8-18 | validation never rejects a `k > 0` input that can be cut into `k` non-empty equal-sum parts |
| ArraySplitter.TotalSum | array-splitter/src/ArraySplitter.cpp:22-38 | the outcome of `calculateTotalSum`: a returned total is the exact sum and lies in the `long long` range, and the only error is an overflow |
| ArraySplitter.TruncRem | array-splitter/src/ArraySplitter.cpp:52 | C++ `%` by a positive `k`: the remainder differs from the dividend by a multiple of `k`, has the dividend's sign, and is smaller than `k` in magnitude |
| ArraySplitter.CanSplitOutcome | array-splitter/src/ArraySplitter.cpp:43-73 | the outcome of `canSplitIntoKParts`: the only error is an overflow, and only for valid input; `true` only for valid input with no overflow and a total that `k` divides |
| ArraySplitter.SplitOutcome | array-splitter/src/ArraySplitter.cpp:77-118 | the outcome of `splitIntoKParts`: a success only for valid input with no overflow and a total that `k` divides, and then exactly `k` segments |
| ArraySplitter.AllZerosTotal | array-splitter/src/ArraySplitter.cpp:22-38 | the total of any number of zeros is `0`, with no overflow |
| ArraySplitter.WouldOverflow | array-splitter/src/ArraySplitter.cpp:28 | for a total in the `long long` range, the guard holds if and only if adding the element would leave the range |
| ArraySplitter.TruncDiv | array-splitter/src/ArraySplitter.cpp:56 | C++ division by a positive `k` truncates toward zero: the remainder has the dividend's sign and is smaller than `k` in magnitude |
| ArraySplitter.TruncAgreesWhenExact | array-splitter/src/ArraySplitter.cpp:52-56 | the C++ remainder is zero exactly when the Euclidean one is, and then the two quotients agree |
| ArraySplitter.CalculateTotalSum | array-splitter/src/ArraySplitter.cpp:22-32 | the loop returns the total when every running total stays in the `long long` range, and an overflow otherwise |
| ArraySplitter.CountSegments | array-splitter/src/ArraySplitter.cpp:57-70 | the count the loop reaches is the number of segments the scan closes |
| ArraySplitter.CanSplitIntoKParts | array-splitter/src/ArraySplitter.cpp:43-73 | the method answers exactly what `CanSplitOutcome` gives: validation, overflow, divisibility and scan verdict, in source order |
| ArraySplitter.CollectSegments | array-splitter/src/ArraySplitter.cpp:89-110 | the parts the loop pushes into `result` are exactly the segments the scan closes |
| ArraySplitter.SplitIntoKParts | array-splitter/src/ArraySplitter.cpp:77-118 | the method returns exactly what `SplitOutcome` gives: the four failure checks in source order, or the `k` closed segments |
| ArraySplitter.Int32SumBounds | array-splitter/src/ArraySplitter.cpp:121 | `n` 32-bit elements sum to between `n * INT_MIN` and `n * INT_MAX` |
| ArraySplitter.Int32InputsNeverOverflow | array-splitter/src/ArraySplitter.cpp:22-32 | with 32-bit elements and at most 2^32 of them, the total never overflows and is the exact sum |
| ArraySplitter.OverflowIsGuardFiring | array-splitter/src/ArraySplitter.cpp:26-31 | the total overflows if and only if the guard fires at some element whose preceding running totals all fit in a `long long` |
| ArraySplitter.SplitErrors | array-splitter/src/ArraySplitter.cpp:77-115 | invalid input if and only if `k <= 0` or fewer than `k` elements; overflow if and only if valid and some running total leaves the range; split-impossible if and only if valid, no overflow and no equal-sum cut exists; success if and only if such a cut exists |
| ArraySplitter.SplitSuccess | array-splitter/src/ArraySplitter.cpp:94-117 | a success has `k` non-empty segments, each of sum `total / k` and ending at its first hit; together they are a prefix of the input, and the dropped rest sums to zero |
| ArraySplitter.SplitShortfall | array-splitter/src/ArraySplitter.cpp:113-115 | a split-impossible error with a divisible total means no slice after the scan's last boundary sums to the target |
| ArraySplitter.CanSplitMeaning | array-splitter/src/ArraySplitter.cpp:43-73 | `true` if and only if `k > 0`, no overflow and an equal-sum cut into `k` parts exists; only an overflow escapes, and only for valid input |
| ArraySplitter.EntryPointsAgree | array-splitter/src/ArraySplitter.cpp:43-118 | `canSplitIntoKParts` answers `true` exactly when `splitIntoKParts` succeeds, answers `false` exactly when it raises invalid-input or split-impossible, and both raise the same overflow |
| Scenarios.SplitOneTwoThreeZeroThree | array-splitter/test/test_array_splitter.cpp:9-46 | `{1,2,3,0,3}` with `k = 3` splits into `[1,2]`, `[3]`, `[0,3]`, and the check answers `true` |
| Scenarios.ZerosSplitIntoThree | array-splitter/test/test_array_splitter.cpp:12-14 | four zeros split into three parts of `[0]` each, and the fourth zero is dropped |
| Scenarios.OvershootIsFalse | array-splitter/test/test_array_splitter.cpp:16-18 | `{1,2,3,4,5,6}` with `k = 3` answers `false` and fails to split |
| Scenarios.TooShortIsFalse | array-splitter/test/test_array_splitter.cpp:20-22 | four elements cannot be cut into five parts |
| Scenarios.ZeroPartsIsInvalid | array-splitter/test/test_array_splitter.cpp:51-53 | `k = 0` is invalid input |
| Scenarios.IndivisibleTotalIsImpossible | array-splitter/test/test_array_splitter.cpp:54-56 | `{1,2,4}` with `k = 3` cannot be split |
| Scenarios.NegativeIndivisibleTotal | array-splitter/src/ArraySplitter.cpp:52-54 | a negative total that `k` does not divide is rejected; C++ `%` gives -1 for -7 and 2 |
| Scenarios.BillionsSplit | array-splitter/test/test_array_splitter.cpp:27-29 | three elements of 10^9 split into three parts |
| Scenarios.ThreeIntMaxFit | array-splitter/test/test_array_splitter.cpp:31-33 | three copies of INT_MAX sum to 6442450941 without overflow |
| Scenarios.LongMaxPlusOneOverflows | array-splitter/src/ArraySplitter.cpp:28-29 | LLONG_MAX followed by 1 overflows, for the total and for both entry points |

## Left out

- Floating-point element types (`ArraySplitter.cpp:33-37`, the `float` and `double` instantiations at `:123-124`, and the test at `test/test_array_splitter.cpp:59-66`): floating point is not modelled. The per-element cast to `long long` is not modelled either.
- The text of the exception messages (`ArraySplitter.cpp:10`, `:13-16`, `:82-85`, `:114`): only the kind of error is modelled.
- The exception class hierarchy and the class template in `include/ArraySplitter.h`: the errors are a datatype, and the operations are module-level members.
- The test driver (`test/test_array_splitter.cpp:68-71`) and gtest: the test cases appear as lemmas in `Scenarios`.
- Element width: elements are mathematical integers. The `int` and `long long` ranges appear only where they matter: in the total's overflow check, and in `Int32InputsNeverOverflow`.
- The scan's running sum (`currentSum` at `:62` and `:95`) is unchecked in C++ and could leave the `long long` range. The model computes it exactly.
- A second call on the same input gives the same result. This follows from the operations being pure functions of their inputs, so it is not stated separately.
