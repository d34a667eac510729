/** The repository's own test cases, and a few edge cases of the code, as
    facts about the model. */
module Scenarios {
  import opened Sums
  import opened GreedyScan
  import opened ArraySplitter

  /** `sums` lists the running sums of `arr`, from 0 to the total: then every
      prefix of `arr` sums to the matching entry. */
  lemma {:induction false} RunningSums(arr: seq<int>, sums: seq<int>, n: nat)
    requires |sums| == |arr| + 1 && sums[0] == 0
    requires forall i :: 0 <= i < |arr| ==> sums[i + 1] == sums[i] + arr[i]
    requires n <= |arr|
    ensures Sum(arr[..n]) == sums[n]
  {
    if n > 0 {
      RunningSums(arr, sums, n - 1);
      SumPrefixSnoc(arr, n - 1);
    }
  }

  /** All running sums of `arr` are listed in `sums` and lie in the `long long`
      range; the last is the total. */
  lemma CheckedSums(arr: seq<int>, sums: seq<int>)
    requires |sums| == |arr| + 1 && sums[0] == 0
    requires forall i :: 0 <= i < |arr| ==> sums[i + 1] == sums[i] + arr[i]
    requires forall i :: 0 <= i < |sums| ==> InLongRange(sums[i])
    ensures NoOverflow(arr) && Sum(arr) == sums[|arr|]
  {
    forall n | 0 < n <= |arr|
      ensures InLongRange(Sum(arr[..n]))
    {
      RunningSums(arr, sums, n);
    }
    RunningSums(arr, sums, |arr|);
    assert arr[..|arr|] == arr;
  }

  /** `{1, 2, 3, 0, 3}` splits into three parts of sum 3: `[1, 2]`, `[3]`, `[0, 3]`. */
  lemma SplitOneTwoThreeZeroThree()
    ensures SplitOutcome([1, 2, 3, 0, 3], 3) == Ok([[1, 2], [3], [0, 3]])
    ensures CanSplitOutcome([1, 2, 3, 0, 3], 3) == Ok(true)
  {
    var arr := [1, 2, 3, 0, 3];
    CheckedSums(arr, [0, 1, 3, 6, 6, 9]);
    assert FirstHit(arr, 3, 3, 0) == Some(5) && arr[3..5] == [0, 3];
    assert Greedy(arr, 3, 3, 1) == [[0, 3]];
    assert FirstHit(arr, 3, 2, 0) == Some(3) && arr[2..3] == [3];
    assert Greedy(arr, 2, 3, 2) == [[3], [0, 3]];
    assert FirstHit(arr, 3, 0, 0) == Some(2) && arr[0..2] == [1, 2];
    assert Greedy(arr, 0, 3, 3) == [[1, 2], [3], [0, 3]];
  }

  /** Four zeros split into three: the scan closes `[0]` three times and the
      fourth zero is left behind. */
  lemma ZerosSplitIntoThree()
    ensures CanSplitOutcome([0, 0, 0, 0], 3) == Ok(true)
    ensures SplitOutcome([0, 0, 0, 0], 3) == Ok([[0], [0], [0]])
  {
    var arr := [0, 0, 0, 0];
    CheckedSums(arr, [0, 0, 0, 0, 0]);
    assert FirstHit(arr, 0, 2, 0) == Some(3) && arr[2..3] == [0];
    assert Greedy(arr, 2, 0, 1) == [[0]];
    assert FirstHit(arr, 0, 1, 0) == Some(2) && arr[1..2] == [0];
    assert Greedy(arr, 1, 0, 2) == [[0], [0]];
    assert FirstHit(arr, 0, 0, 0) == Some(1) && arr[0..1] == [0];
    assert Greedy(arr, 0, 0, 3) == [[0], [0], [0]];
  }

  /** `{1, 2, 3, 4, 5, 6}` sums to 21, which 3 divides, but the running sum
      jumps from 6 to 10 past the target 7, so the answer is `false`. */
  lemma OvershootIsFalse()
    ensures CanSplitOutcome([1, 2, 3, 4, 5, 6], 3) == Ok(false)
    ensures SplitOutcome([1, 2, 3, 4, 5, 6], 3) == Err(SplitImpossible)
  {
    var arr := [1, 2, 3, 4, 5, 6];
    CheckedSums(arr, [0, 1, 3, 6, 10, 15, 21]);
    assert Greedy(arr, 0, 7, 3) == [];
  }

  /** Fewer elements than parts: `canSplitIntoKParts` answers `false`. */
  lemma TooShortIsFalse()
    ensures CanSplitOutcome([1, -1, 1, -1], 5) == Ok(false)
    ensures SplitOutcome([1, -1, 1, -1], 5) == Err(InvalidInput)
  {
  }

  /** `k = 0` is invalid input for the split. */
  lemma ZeroPartsIsInvalid()
    ensures SplitOutcome([1, 2, 3], 0) == Err(InvalidInput)
    ensures CanSplitOutcome([1, 2, 3], 0) == Ok(false)
  {
  }

  /** `{1, 2, 4}` sums to 7, which 3 does not divide. */
  lemma IndivisibleTotalIsImpossible()
    ensures SplitOutcome([1, 2, 4], 3) == Err(SplitImpossible)
  {
    var arr := [1, 2, 4];
    CheckedSums(arr, [0, 1, 3, 7]);
  }

  /** A negative total that `k` does not divide: C++ `%` gives -1, the
      Euclidean remainder 1, and both reject it. */
  lemma NegativeIndivisibleTotal()
    ensures CanSplitOutcome([-4, -3], 2) == Ok(false)
    ensures TruncRem(-7, 2) == -1
  {
    var arr := [-4, -3];
    CheckedSums(arr, [0, -4, -7]);
  }

  /** Three times 10^9 fits in a `long long` and splits into three equal parts. */
  lemma BillionsSplit()
    ensures CanSplitOutcome([1_000_000_000, 1_000_000_000, 1_000_000_000], 3) == Ok(true)
  {
    var arr := [1_000_000_000, 1_000_000_000, 1_000_000_000];
    CheckedSums(arr, [0, 1_000_000_000, 2_000_000_000, 3_000_000_000]);
    var b := 1_000_000_000;
    assert FirstHit(arr, b, 2, 0) == Some(3) && arr[2..3] == [b];
    assert Greedy(arr, 2, b, 1) == [[b]];
    assert FirstHit(arr, b, 1, 0) == Some(2) && arr[1..2] == [b];
    assert Greedy(arr, 1, b, 2) == [[b], [b]];
    assert FirstHit(arr, b, 0, 0) == Some(1) && arr[0..1] == [b];
    assert |Greedy(arr, 0, b, 3)| == 3;
  }

  /** Three copies of INT_MAX sum to 6442450941, well inside the `long long`
      range: the code returns the sum and raises no overflow. */
  lemma ThreeIntMaxFit()
    ensures TotalSum([IntMax, IntMax, IntMax]) == Ok(3 * IntMax)
  {
    var arr := [IntMax, IntMax, IntMax];
    CheckedSums(arr, [0, IntMax, 2 * IntMax, 3 * IntMax]);
  }

  /** LLONG_MAX followed by 1 leaves the range: the total overflows, and both
      entry points report it. */
  lemma LongMaxPlusOneOverflows()
    ensures TotalSum([LongMax, 1]) == Err(Overflow)
    ensures CanSplitOutcome([LongMax, 1], 1) == Err(Overflow)
    ensures SplitOutcome([LongMax, 1], 2) == Err(Overflow)
  {
    var arr := [LongMax, 1];
    RunningSums(arr, [0, LongMax, LongMax + 1], 2);
    assert arr[..2] == arr;
  }
}
