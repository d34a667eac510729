/** The splitter itself: input validation, the overflow-checked total, the
    boolean feasibility check and the materialising split, for an integral
    element type. Inputs are read-only sequences; the vectors the split
    fills (`currentPart`, `result`) are local sequences the loop reassigns. */
module ArraySplitter {
  import opened Sums
  import opened GreedyScan

  /** The range of the `long long` accumulator (LLONG_MIN, LLONG_MAX). */
  const LongMin: int := -0x8000_0000_0000_0000
  const LongMax: int := 0x7FFF_FFFF_FFFF_FFFF

  /** The range of a 32-bit `int` element (INT_MIN, INT_MAX). */
  const IntMin: int := -0x8000_0000
  const IntMax: int := 0x7FFF_FFFF

  /** The exceptions the splitter raises: InvalidInputException,
      std::overflow_error and SplitImpossibleException. */
  datatype Error = InvalidInput | Overflow | SplitImpossible

  datatype Result<T> = Ok(value: T) | Err(error: Error)

  predicate InLongRange(x: int)
  {
    LongMin <= x <= LongMax
  }

  /** What `validateInput` accepts: a positive `k` and at least `k` elements. */
  predicate ValidInput(arr: seq<int>, k: int)
  {
    k > 0 && |arr| >= k
  }

  /** Validation loses no split: for a positive `k` it rejects only inputs
      that cannot be cut into `k` non-empty parts of equal sum. */
  lemma ValidationLosesNoSplit(arr: seq<int>, k: int)
    ensures k > 0 && CanBePartitioned(arr, k) ==> ValidInput(arr, k)
  {
    if k > 0 && CanBePartitioned(arr, k) {
      PartitionNeedsKElements(arr, k);
    }
  }

  /** Every running total of the left-to-right sum fits in a `long long`. */
  predicate NoOverflow(arr: seq<int>)
  {
    forall i :: 0 < i <= |arr| ==> InLongRange(Sum(arr[..i]))
  }

  /** The outcome of the integral `calculateTotalSum`: the sum, or an overflow
      as soon as one running total leaves the `long long` range. */
  function TotalSum(arr: seq<int>): (r: Result<int>)
    ensures r.Ok? ==> r.value == Sum(arr) && InLongRange(r.value)
    ensures r.Err? ==> r.error == Overflow
  {
    if NoOverflow(arr) then
      assert arr[..|arr|] == arr;
      Ok(Sum(arr))
    else Err(Overflow)
  }

  /** The guard tested before each addition. For a running total inside the
      range it is true exactly when adding `num` would leave the range. */
  function WouldOverflow(total: int, num: int): (b: bool)
    requires InLongRange(total)
    ensures b <==> !InLongRange(total + num)
  {
    (num > 0 && total > LongMax - num) || (num < 0 && total < LongMin - num)
  }

  /** C++ integer division by a positive divisor: the quotient is truncated
      toward zero, so the remainder takes the sign of the dividend. */
  function TruncDiv(a: int, b: int): (q: int)
    requires b > 0
    ensures a >= 0 ==> 0 <= a - b * q < b
    ensures a < 0 ==> -b < a - b * q <= 0
  {
    if a >= 0 then a / b else -((-a) / b)
  }

  /** C++ `%`: the remainder that goes with the truncated quotient. It differs
      from `a` by a multiple of `b` and takes the sign of `a`. */
  function TruncRem(a: int, b: int): (r: int)
    requires b > 0
    ensures (a - r) % b == 0
    ensures a >= 0 ==> 0 <= r < b
    ensures a < 0 ==> -b < r <= 0
  {
    DivExact(b * TruncDiv(a, b), b, TruncDiv(a, b));
    a - b * TruncDiv(a, b)
  }

  /** Where the remainder is zero, the C++ operators and Dafny's Euclidean ones agree. */
  lemma TruncAgreesWhenExact(a: int, b: int)
    requires b > 0
    ensures TruncRem(a, b) == 0 <==> a % b == 0
    ensures a % b == 0 ==> TruncDiv(a, b) == a / b
  {
    if a < 0 {
      var q := (-a) / b;
      if TruncRem(a, b) == 0 {
        assert a == b * (-q);
        DivExact(a, b, -q);
      }
      if a % b == 0 {
        DivisibleIsMultiple(a, b);
        assert -a == b * (-(a / b));
        DivExact(-a, b, -(a / b));
      }
    }
  }

  /** The result of `splitIntoKParts`: the checks in source order, then the
      segments the scan closes against the target `Sum(arr) / k`. */
  function SplitOutcome(arr: seq<int>, k: int): (r: Result<seq<seq<int>>>)
    ensures r.Ok? ==> ValidInput(arr, k) && NoOverflow(arr) && Sum(arr) % k == 0
    ensures r.Ok? ==> |r.value| == k
  {
    if !ValidInput(arr, k) then Err(InvalidInput)
    else if !NoOverflow(arr) then Err(Overflow)
    else if Sum(arr) % k != 0 then Err(SplitImpossible)
    else
      var segs := Greedy(arr, 0, Sum(arr) / k, k);
      if |segs| < k then Err(SplitImpossible) else Ok(segs)
  }

  /** The result of `canSplitIntoKParts`: invalid input is answered with
      `false`, an overflow escapes, otherwise the scan's verdict. */
  function CanSplitOutcome(arr: seq<int>, k: int): (r: Result<bool>)
    ensures r.Err? ==> r == Err(Overflow) && ValidInput(arr, k)
    ensures r == Ok(true) ==> ValidInput(arr, k) && NoOverflow(arr) && Sum(arr) % k == 0
  {
    if !ValidInput(arr, k) then Ok(false)
    else if !NoOverflow(arr) then Err(Overflow)
    else if Sum(arr) % k != 0 then Ok(false)
    else Ok(|Greedy(arr, 0, Sum(arr) / k, k)| >= k)
  }

  /** `calculateTotalSum` for an integral element type: accumulates into a
      `long long`, checking before each addition that it stays in range. */
  method CalculateTotalSum(arr: seq<int>) returns (r: Result<int>)
    ensures r == TotalSum(arr)
  {
    var totalSum := 0;
    for i := 0 to |arr|
      invariant totalSum == Sum(arr[..i])
      invariant InLongRange(totalSum)
      invariant forall j :: 0 < j <= i ==> InLongRange(Sum(arr[..j]))
    {
      var num := arr[i];
      SumPrefixSnoc(arr, i);
      if WouldOverflow(totalSum, num) {
        return Err(Overflow);
      }
      totalSum := totalSum + num;
    }
    assert arr[..|arr|] == arr;
    return Ok(totalSum);
  }

  /** The scan of `canSplitIntoKParts`: adds each element to the running sum;
      a running sum equal to `target` counts one segment and is reset; the
      scan breaks off at the k-th segment. */
  method CountSegments(arr: seq<int>, target: int, k: int) returns (count: int)
    requires k > 0
    ensures count == |Greedy(arr, 0, target, k)|
  {
    var currentSum := 0;
    count := 0;
    ghost var start := 0;
    for i := 0 to |arr|
      invariant start <= i && 0 <= count < k
      invariant FirstHit(arr, target, start, 0) == FirstHit(arr, target, i, currentSum)
      invariant |Greedy(arr, 0, target, k)| == count + |Greedy(arr, start, target, k - count)|
    {
      ScanAdvance(arr, start, i, currentSum, target, k - count);
      currentSum := currentSum + arr[i];
      if currentSum == target {
        currentSum := 0;
        count := count + 1;
        start := i + 1;
        if count == k {
          break;
        }
      }
    }
    if count < k {
      ScanEnd(arr, start, currentSum, target, k - count);
    }
  }

  /** `canSplitIntoKParts`: invalid input answers `false`, an overflow of the
      total escapes, an indivisible total answers `false`, and otherwise the
      answer is whether the scan counts `k` segments of `total / k`. */
  method CanSplitIntoKParts(arr: seq<int>, k: int) returns (r: Result<bool>)
    ensures r == CanSplitOutcome(arr, k)
  {
    if !ValidInput(arr, k) {
      return Ok(false);
    }
    var total := CalculateTotalSum(arr);
    if total.Err? {
      return Err(total.error);
    }
    var totalSum := total.value;
    TruncAgreesWhenExact(totalSum, k);
    if TruncRem(totalSum, k) != 0 {
      return Ok(false);
    }
    var target := TruncDiv(totalSum, k);
    var count := CountSegments(arr, target, k);
    return Ok(count >= k);
  }

  /** The scan of `splitIntoKParts`: the same loop, also appending each
      element to `currentPart` and moving `currentPart` into `result` at each
      segment boundary. */
  method CollectSegments(arr: seq<int>, target: int, k: int) returns (result: seq<seq<int>>)
    requires k > 0
    ensures result == Greedy(arr, 0, target, k)
  {
    var currentSum := 0;
    var count := 0;
    result := [];
    var currentPart: seq<int> := [];
    ghost var start := 0;
    for i := 0 to |arr|
      invariant start <= i && 0 <= count < k && |result| == count
      invariant currentPart == arr[start..i]
      invariant FirstHit(arr, target, start, 0) == FirstHit(arr, target, i, currentSum)
      invariant Greedy(arr, 0, target, k) == result + Greedy(arr, start, target, k - count)
    {
      ScanAdvance(arr, start, i, currentSum, target, k - count);
      SliceSnoc(arr, start, i);
      currentSum := currentSum + arr[i];
      currentPart := currentPart + [arr[i]];
      if currentSum == target {
        AppendAssoc(result, [currentPart], Greedy(arr, i + 1, target, k - count - 1));
        result := result + [currentPart];
        currentPart := [];
        currentSum := 0;
        count := count + 1;
        start := i + 1;
        if count == k {
          break;
        }
      }
    }
    if count < k {
      ScanEnd(arr, start, currentSum, target, k - count);
    }
    assert Greedy(arr, start, target, k - count) == [];
    assert result + [] == result;
  }

  /** `splitIntoKParts`: invalid input, an overflow of the total, an
      indivisible total and a scan that closes fewer than `k` segments are
      errors, in that order; otherwise the `k` segments the scan closed. */
  method SplitIntoKParts(arr: seq<int>, k: int) returns (r: Result<seq<seq<int>>>)
    ensures r == SplitOutcome(arr, k)
  {
    if !ValidInput(arr, k) {
      return Err(InvalidInput);
    }
    var total := CalculateTotalSum(arr);
    if total.Err? {
      return Err(total.error);
    }
    var totalSum := total.value;
    TruncAgreesWhenExact(totalSum, k);
    if TruncRem(totalSum, k) != 0 {
      return Err(SplitImpossible);
    }
    var target := TruncDiv(totalSum, k);
    var result := CollectSegments(arr, target, k);
    if |result| < k {
      return Err(SplitImpossible);
    }
    return Ok(result);
  }

  /** Elements of a 32-bit `int` keep a sum of `n` of them within `n` times the element range. */
  lemma {:induction false} Int32SumBounds(s: seq<int>)
    requires forall i :: 0 <= i < |s| ==> IntMin <= s[i] <= IntMax
    ensures IntMin * |s| <= Sum(s) <= IntMax * |s|
    decreases |s|
  {
    if s != [] {
      Int32SumBounds(s[..|s| - 1]);
    }
  }

  /** With 32-bit elements the `long long` accumulator cannot overflow for up
      to 2^32 elements: the total is then always the exact sum. */
  lemma Int32InputsNeverOverflow(arr: seq<int>)
    requires forall i :: 0 <= i < |arr| ==> IntMin <= arr[i] <= IntMax
    requires |arr| <= 0x1_0000_0000
    ensures TotalSum(arr) == Ok(Sum(arr))
  {
    forall i | 0 < i <= |arr|
      ensures InLongRange(Sum(arr[..i]))
    {
      Int32SumBounds(arr[..i]);
    }
  }

  /** `calculateTotalSum` overflows exactly when its guard fires: at some
      element `arr[i]` whose preceding running totals all fit, the guard says
      that adding `arr[i]` would leave the `long long` range. */
  lemma OverflowIsGuardFiring(arr: seq<int>)
    ensures TotalSum(arr).Err? <==>
              exists i :: 0 <= i < |arr| && NoOverflow(arr[..i]) && InLongRange(Sum(arr[..i])) &&
                          WouldOverflow(Sum(arr[..i]), arr[i])
  {
    if !NoOverflow(arr) {
      var w :| 0 < w <= |arr| && !InLongRange(Sum(arr[..w]));
      var j := 1;
      while InLongRange(Sum(arr[..j]))
        invariant 1 <= j <= w
        invariant forall m :: 0 < m < j ==> InLongRange(Sum(arr[..m]))
        decreases w - j
      {
        j := j + 1;
      }
      var i := j - 1;
      forall m | 0 < m <= i
        ensures InLongRange(Sum(arr[..i][..m]))
      {
        assert arr[..i][..m] == arr[..m];
      }
      SumPrefixSnoc(arr, i);
      assert NoOverflow(arr[..i]) && InLongRange(Sum(arr[..i])) && WouldOverflow(Sum(arr[..i]), arr[i]);
    } else {
      forall i | 0 <= i < |arr| && InLongRange(Sum(arr[..i]))
        ensures !WouldOverflow(Sum(arr[..i]), arr[i])
      {
        SumPrefixSnoc(arr, i);
      }
    }
  }

  /** The total of any number of zeros is zero, without overflow. */
  lemma AllZerosTotal(n: nat)
    ensures TotalSum(seq(n, _ => 0)) == Ok(0)
  {
    var zeros := seq(n, _ => 0);
    forall i | 0 < i <= n
      ensures InLongRange(Sum(zeros[..i]))
    {
      assert zeros[..i] == seq(i, _ => 0);
      ZerosSum(i);
    }
    ZerosSum(n);
  }

  /** The errors of `splitIntoKParts`, in source order, and what each means:
      invalid input first, then an overflow of the total, then any input that
      cannot be cut into `k` contiguous non-empty parts of equal sum. */
  lemma SplitErrors(arr: seq<int>, k: int)
    ensures SplitOutcome(arr, k) == Err(InvalidInput) <==> k <= 0 || |arr| < k
    ensures SplitOutcome(arr, k) == Err(Overflow) <==> ValidInput(arr, k) && !NoOverflow(arr)
    ensures SplitOutcome(arr, k) == Err(SplitImpossible) <==>
              ValidInput(arr, k) && NoOverflow(arr) && !CanBePartitioned(arr, k)
    ensures SplitOutcome(arr, k).Ok? <==> k > 0 && NoOverflow(arr) && CanBePartitioned(arr, k)
  {
    if k > 0 {
      GreedyDecidesPartition(arr, k);
      if CanBePartitioned(arr, k) {
        PartitionNeedsKElements(arr, k);
      }
    }
  }

  /** A successful split: exactly `k` non-empty, contiguous segments, each
      summing to `Sum(arr) / k` and each ending at the first element that
      brings its running sum to that target; together they are a prefix of
      `arr`, and the elements after the k-th segment sum to zero. */
  lemma SplitSuccess(arr: seq<int>, k: int)
    requires SplitOutcome(arr, k).Ok?
    ensures var segs := SplitOutcome(arr, k).value;
            |segs| == k &&
            (forall i :: 0 <= i < k ==> |segs[i]| > 0 && Sum(segs[i]) == Sum(arr) / k) &&
            (forall i, j :: 0 <= i < k && 0 < j < |segs[i]| ==> Sum(segs[i][..j]) != Sum(arr) / k)
    ensures var b := Boundary(arr, 0, Sum(arr) / k, k);
            b <= |arr| && Concat(SplitOutcome(arr, k).value) == arr[..b] && Sum(arr[b..]) == 0
  {
    var target := Sum(arr) / k;
    GreedySegments(arr, 0, target, k);
    GreedyStopsAtFirstHit(arr, 0, target, k);
    GreedyPrefix(arr, 0, target, k);
    DivisibleIsMultiple(Sum(arr), k);
    DroppedTailSumsToZero(arr, target, k);
  }

  /** When the total divides evenly but the split is impossible, the scan
      stopped short: after its last boundary no running sum equals the target. */
  lemma SplitShortfall(arr: seq<int>, k: int)
    requires SplitOutcome(arr, k) == Err(SplitImpossible) && Sum(arr) % k == 0
    ensures var b := Boundary(arr, 0, Sum(arr) / k, k);
            b <= |arr| && forall j :: b < j <= |arr| ==> Sum(arr[b..j]) != Sum(arr) / k
  {
    GreedyShortfall(arr, 0, Sum(arr) / k, k);
  }

  /** What `canSplitIntoKParts` answers: `true` exactly when `arr` can be cut
      into `k` contiguous non-empty parts of equal sum without overflowing the
      total; it raises only an overflow, and only for valid input. */
  lemma CanSplitMeaning(arr: seq<int>, k: int)
    ensures CanSplitOutcome(arr, k) == Ok(true) <==> k > 0 && NoOverflow(arr) && CanBePartitioned(arr, k)
    ensures CanSplitOutcome(arr, k).Err? <==> ValidInput(arr, k) && !NoOverflow(arr)
    ensures CanSplitOutcome(arr, k).Err? ==> CanSplitOutcome(arr, k).error == Overflow
  {
    if k > 0 {
      GreedyDecidesPartition(arr, k);
      if CanBePartitioned(arr, k) {
        PartitionNeedsKElements(arr, k);
      }
    }
  }

  /** The two entry points agree: `canSplitIntoKParts` answers `true` exactly
      when `splitIntoKParts` succeeds, `false` exactly when it raises an
      invalid-input or split-impossible error, and both raise the same overflow. */
  lemma EntryPointsAgree(arr: seq<int>, k: int)
    ensures CanSplitOutcome(arr, k) == Ok(true) <==> SplitOutcome(arr, k).Ok?
    ensures CanSplitOutcome(arr, k) == Ok(false) <==>
              SplitOutcome(arr, k) == Err(InvalidInput) || SplitOutcome(arr, k) == Err(SplitImpossible)
    ensures CanSplitOutcome(arr, k) == Err(Overflow) <==> SplitOutcome(arr, k) == Err(Overflow)
  {
  }
}
