/** The left-to-right scan shared by both entry points of the splitter, stated
    as functions on indices into the input, and what it decides: whether the
    input can be cut into k contiguous, non-empty parts of equal sum. */
module GreedyScan {
  import opened Sums

  datatype Option<T> = None | Some(value: T)

  /** The scan for one segment, reading `arr[i..]` with the running sum
      `running` accumulated since the last boundary: the end index just past
      the first element that brings the running sum to `target`, or `None`
      when no further element does. */
  function FirstHit(arr: seq<int>, target: int, i: nat, running: int): (r: Option<nat>)
    requires i <= |arr|
    ensures r.Some? ==> i < r.value <= |arr|
    decreases |arr| - i
  {
    if i == |arr| then None
    else if running + arr[i] == target then Some(i + 1)
    else FirstHit(arr, target, i + 1, running + arr[i])
  }

  /** Started at a boundary `from`, the scan finds the first hit: a hit it
      returns is a slice `arr[from..j]` summing to `target`, no slice ending
      between `i` and it does, and `None` means no slice ending after `i` does. */
  lemma {:induction false} FirstHitIsFirst(arr: seq<int>, from: nat, target: int, i: nat, running: int)
    requires from <= i <= |arr| && running == Sum(arr[from..i])
    ensures var r := FirstHit(arr, target, i, running);
            r.Some? ==> Sum(arr[from..r.value]) == target
    ensures var r := FirstHit(arr, target, i, running);
            r.Some? ==> forall j :: i < j < r.value ==> Sum(arr[from..j]) != target
    ensures var r := FirstHit(arr, target, i, running);
            r.None? ==> forall j :: i < j <= |arr| ==> Sum(arr[from..j]) != target
    decreases |arr| - i
  {
    if i < |arr| {
      SumSliceSnoc(arr, from, i);
      if running + arr[i] != target {
        FirstHitIsFirst(arr, from, target, i + 1, running + arr[i]);
      }
    }
  }

  /** The segments the scan closes when it starts at index `from` and may still
      close `k` of them: each ends at the first index where the running sum,
      reset at the previous boundary, equals `target`; the scan stops after the
      k-th segment or when the running sum never equals `target` again. */
  function Greedy(arr: seq<int>, from: nat, target: int, k: nat): (segs: seq<seq<int>>)
    requires from <= |arr|
    ensures |segs| <= k
    decreases k
  {
    if k == 0 then []
    else match FirstHit(arr, target, from, 0)
      case None => []
      case Some(e) => [arr[from..e]] + Greedy(arr, e, target, k - 1)
  }

  /** The scan closes at most `k` segments, each non-empty and summing to `target`. */
  lemma {:induction false} GreedySegments(arr: seq<int>, from: nat, target: int, k: nat)
    requires from <= |arr|
    ensures forall i :: 0 <= i < |Greedy(arr, from, target, k)| ==>
              |Greedy(arr, from, target, k)[i]| > 0 && Sum(Greedy(arr, from, target, k)[i]) == target
    decreases k
  {
    if k > 0 {
      FirstHitIsFirst(arr, from, target, from, 0);
      match FirstHit(arr, target, from, 0)
      case None =>
      case Some(e) =>
        GreedySegments(arr, e, target, k - 1);
        var segs := Greedy(arr, from, target, k);
        assert segs == [arr[from..e]] + Greedy(arr, e, target, k - 1);
    }
  }

  /** One element of the scan, as the source's loops take it: `i` is the next
      index to read and `running` the running sum since the boundary `start`,
      with no hit since `start` yet. A hit at `arr[i]` closes the segment
      `arr[start..i + 1]`; otherwise the scan goes on from `i + 1`. */
  lemma ScanAdvance(arr: seq<int>, start: nat, i: nat, running: int, target: int, m: nat)
    requires start <= i < |arr| && m > 0
    requires FirstHit(arr, target, start, 0) == FirstHit(arr, target, i, running)
    ensures running + arr[i] == target ==>
              Greedy(arr, start, target, m) == [arr[start..i + 1]] + Greedy(arr, i + 1, target, m - 1)
    ensures running + arr[i] != target ==>
              FirstHit(arr, target, start, 0) == FirstHit(arr, target, i + 1, running + arr[i])
  {
  }

  /** The scan read every element without a hit since `start`: it closes no
      further segment. */
  lemma ScanEnd(arr: seq<int>, start: nat, running: int, target: int, m: nat)
    requires start <= |arr|
    requires FirstHit(arr, target, start, 0) == FirstHit(arr, target, |arr|, running)
    ensures Greedy(arr, start, target, m) == []
  {
  }

  /** The index just past the last segment the scan closes: where it stopped
      consuming elements. */
  function Boundary(arr: seq<int>, from: nat, target: int, k: nat): nat
    requires from <= |arr|
  {
    from + |Concat(Greedy(arr, from, target, k))|
  }

  /** The segments are contiguous and in order: together they are exactly the
      slice of `arr` that starts at `from` and ends at the last boundary. */
  lemma {:induction false} GreedyPrefix(arr: seq<int>, from: nat, target: int, k: nat)
    requires from <= |arr|
    ensures var c := Concat(Greedy(arr, from, target, k));
            from + |c| <= |arr| && c == arr[from..from + |c|]
    decreases k
  {
    if k > 0 {
      match FirstHit(arr, target, from, 0)
      case None =>
      case Some(e) =>
        var rest := Greedy(arr, e, target, k - 1);
        var segs := Greedy(arr, from, target, k);
        GreedyPrefix(arr, e, target, k - 1);
        assert segs[0] == arr[from..e] && segs[1..] == rest;
        assert Concat(segs) == arr[from..e] + Concat(rest);
        assert arr[from..e] + arr[e..e + |Concat(rest)|] == arr[from..e + |Concat(rest)|];
    }
  }

  /** Each segment ends at the FIRST hit: no proper, non-empty prefix of a
      segment sums to `target`. */
  lemma {:induction false} GreedyStopsAtFirstHit(arr: seq<int>, from: nat, target: int, k: nat)
    requires from <= |arr|
    ensures forall i, j :: 0 <= i < |Greedy(arr, from, target, k)| && 0 < j < |Greedy(arr, from, target, k)[i]| ==>
              Sum(Greedy(arr, from, target, k)[i][..j]) != target
    decreases k
  {
    if k > 0 {
      FirstHitIsFirst(arr, from, target, from, 0);
      match FirstHit(arr, target, from, 0)
      case None =>
      case Some(e) =>
        var rest := Greedy(arr, e, target, k - 1);
        var segs := Greedy(arr, from, target, k);
        GreedyStopsAtFirstHit(arr, e, target, k - 1);
        assert segs[0] == arr[from..e] && segs[1..] == rest;
        forall i, j | 0 <= i < |segs| && 0 < j < |segs[i]|
          ensures Sum(segs[i][..j]) != target
        {
          if i == 0 {
            assert arr[from..e][..j] == arr[from..from + j];
            assert from + 1 <= from + j < e;
            assert Sum(arr[from..from + j]) != target;
          } else {
            assert segs[i] == rest[i - 1];
            assert Sum(rest[i - 1][..j]) != target;
          }
        }
    }
  }

  /** The scan closes fewer than `k` segments only when, after the last
      boundary, the running sum never equals `target` again: an overshoot is
      never corrected. */
  lemma {:induction false} GreedyShortfall(arr: seq<int>, from: nat, target: int, k: nat)
    requires from <= |arr|
    requires |Greedy(arr, from, target, k)| < k
    ensures Boundary(arr, from, target, k) <= |arr|
    ensures forall j :: Boundary(arr, from, target, k) < j <= |arr| ==> Sum(arr[Boundary(arr, from, target, k)..j]) != target
    decreases k
  {
    GreedyPrefix(arr, from, target, k);
    FirstHitIsFirst(arr, from, target, from, 0);
    match FirstHit(arr, target, from, 0)
    case None =>
      assert Greedy(arr, from, target, k) == [];
    case Some(e) =>
      var rest := Greedy(arr, e, target, k - 1);
      var segs := Greedy(arr, from, target, k);
      GreedyShortfall(arr, e, target, k - 1);
      assert segs[0] == arr[from..e] && segs[1..] == rest;
      assert Concat(segs) == arr[from..e] + Concat(rest);
      assert Boundary(arr, from, target, k) == Boundary(arr, e, target, k - 1);
  }

  /** When the scan closes all `k` segments of `target` each and `arr` sums to
      `k * target`, the elements it never looked at sum to zero. */
  lemma DroppedTailSumsToZero(arr: seq<int>, target: int, k: nat)
    requires Sum(arr) == k * target
    requires |Greedy(arr, 0, target, k)| == k
    ensures Boundary(arr, 0, target, k) <= |arr| && Sum(arr[Boundary(arr, 0, target, k)..]) == 0
  {
    var segs := Greedy(arr, 0, target, k);
    var end := |Concat(segs)|;
    GreedyPrefix(arr, 0, target, k);
    GreedySegments(arr, 0, target, k);
    SumConcat(segs, target);
    SumSplit(arr, 0, end, |arr|);
    assert arr[0..|arr|] == arr;
  }

  /** `parts` cuts ALL of `arr` into `k` contiguous, non-empty segments of equal sum. */
  ghost predicate IsEqualSumPartition(parts: seq<seq<int>>, arr: seq<int>, k: int)
  {
    |parts| == k && Concat(parts) == arr &&
    forall i :: 0 <= i < |parts| ==> |parts[i]| > 0 && Sum(parts[i]) == Sum(parts[0])
  }

  /** `arr` can be cut into `k` contiguous, non-empty segments of equal sum. */
  ghost predicate CanBePartitioned(arr: seq<int>, k: int)
  {
    exists parts :: IsEqualSumPartition(parts, arr, k)
  }

  /** Completeness of the scan: if the rest of `arr` from `c` on is cut into
      segments of sum `target`, and the scan stands at `from <= c` with
      `arr[from..c]` summing to zero, the scan closes as many segments. */
  lemma {:induction false} GreedyFindsEveryCut(arr: seq<int>, from: nat, c: nat, target: int, parts: seq<seq<int>>)
    requires from <= c <= |arr|
    requires Sum(arr[from..c]) == 0
    requires Concat(parts) == arr[c..]
    requires forall i :: 0 <= i < |parts| ==> |parts[i]| > 0 && Sum(parts[i]) == target
    ensures |Greedy(arr, from, target, |parts|)| == |parts|
    decreases |parts|
  {
    if parts != [] {
      var next := c + |parts[0]|;
      assert arr[c..] == parts[0] + Concat(parts[1..]);
      assert arr[c..next] == parts[0];
      assert arr[next..] == Concat(parts[1..]);
      SumSplit(arr, from, c, next);
      FirstHitIsFirst(arr, from, target, from, 0);
      var hit := FirstHit(arr, target, from, 0);
      assert hit.Some? && hit.value <= next;
      var g := hit.value;
      SumSplit(arr, from, g, next);
      GreedyFindsEveryCut(arr, g, next, target, parts[1..]);
    }
  }

  /** Exact division in Euclidean terms. */
  lemma DivExact(n: int, k: int, t: int)
    requires k > 0 && n == k * t
    ensures n % k == 0 && n / k == t
  {
    var q, r := n / k, n % k;
    assert n == k * q + r && 0 <= r < k;
    var d := t - q;
    assert k * t - k * q == k * d;
    if d >= 1 {
      MulAtLeast(k, d);
    } else if d <= -1 {
      MulAtLeast(k, -d);
    }
  }

  /** A number divisible by `k` is `k` times its quotient. */
  lemma DivisibleIsMultiple(n: int, k: int)
    requires k > 0 && n % k == 0
    ensures n == k * (n / k)
  {
  }

  lemma {:induction false} MulAtLeast(k: int, d: int)
    requires k > 0 && d >= 1
    ensures k * d >= k
    decreases d
  {
    if d > 1 {
      MulAtLeast(k, d - 1);
      assert k * d == k * (d - 1) + k;
    }
  }

  /** Extending the last of equal-sum segments by a zero-sum tail keeps every
      segment non-empty and of the same sum. */
  lemma ExtendLastKeepsSums(segs: seq<seq<int>>, tail: seq<int>, target: int)
    requires segs != []
    requires forall i :: 0 <= i < |segs| ==> |segs[i]| > 0 && Sum(segs[i]) == target
    requires Sum(tail) == 0
    ensures var parts := segs[..|segs| - 1] + [segs[|segs| - 1] + tail];
            |parts| == |segs| && forall i :: 0 <= i < |parts| ==> |parts[i]| > 0 && Sum(parts[i]) == target
  {
    var n := |segs|;
    var parts := segs[..n - 1] + [segs[n - 1] + tail];
    SumAppend(segs[n - 1], tail);
    forall i | 0 <= i < |parts|
      ensures |parts[i]| > 0 && Sum(parts[i]) == target
    {
      if i < n - 1 {
        assert parts[i] == segs[i];
      }
    }
  }

  /** Soundness of the scan: when it closes `k` segments of `Sum(arr) / k`
      each, those segments, the last one extended by the dropped tail, cut
      all of `arr` into `k` equal-sum parts. */
  lemma GreedyYieldsPartition(arr: seq<int>, k: nat)
    requires k > 0
    requires Sum(arr) % k == 0
    requires |Greedy(arr, 0, Sum(arr) / k, k)| == k
    ensures CanBePartitioned(arr, k)
  {
    var target := Sum(arr) / k;
    DivisibleIsMultiple(Sum(arr), k);
    var segs := Greedy(arr, 0, target, k);
    var end := |Concat(segs)|;
    GreedyPrefix(arr, 0, target, k);
    DroppedTailSumsToZero(arr, target, k);
    var tail := arr[end..];
    var parts := segs[..k - 1] + [segs[k - 1] + tail];
    ConcatExtendLast(segs, tail);
    assert arr[0..end] + arr[end..] == arr;
    GreedySegments(arr, 0, target, k);
    ExtendLastKeepsSums(segs, tail, target);
    assert IsEqualSumPartition(parts, arr, k);
  }

  /** The scan decides the problem: for `k > 0` it closes `k` segments of
      `Sum(arr) / k` each exactly when `arr` can be cut into `k` contiguous,
      non-empty segments of equal sum. */
  lemma GreedyDecidesPartition(arr: seq<int>, k: nat)
    requires k > 0
    ensures (Sum(arr) % k == 0 && |Greedy(arr, 0, Sum(arr) / k, k)| == k) <==> CanBePartitioned(arr, k)
  {
    if Sum(arr) % k == 0 && |Greedy(arr, 0, Sum(arr) / k, k)| == k {
      GreedyYieldsPartition(arr, k);
    }
    if CanBePartitioned(arr, k) {
      var parts :| IsEqualSumPartition(parts, arr, k);
      var target := Sum(parts[0]);
      SumConcat(parts, target);
      DivExact(Sum(arr), k, target);
      assert arr[0..0] == [] && arr[0..] == arr;
      GreedyFindsEveryCut(arr, 0, 0, target, parts);
    }
  }

  /** Each of `k` non-empty parts needs an element of its own: a partition
      into `k` parts exists only when `arr` has at least `k` elements. */
  lemma PartitionNeedsKElements(arr: seq<int>, k: nat)
    requires CanBePartitioned(arr, k)
    ensures |arr| >= k
  {
    var parts :| IsEqualSumPartition(parts, arr, k);
    ConcatLength(parts);
  }
}
