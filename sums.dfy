/** Sums and concatenations of integer sequences: the arithmetic that the
    splitter's specification is written in. */
module Sums {

  /** The sum of a sequence, accumulated left to right as the source's loops do:
      the sum of all but the last element, plus the last element. */
  function Sum(s: seq<int>): int
    decreases |s|
  {
    if s == [] then 0 else Sum(s[..|s| - 1]) + s[|s| - 1]
  }

  /** Summing a sequence one element further extends the running sum by that element. */
  lemma SumSnoc(s: seq<int>, x: int)
    ensures Sum(s + [x]) == Sum(s) + x
  {
    assert (s + [x])[..|s + [x]| - 1] == s;
  }

  /** A slice extended by the next element. */
  lemma SliceSnoc<T>(s: seq<T>, i: nat, j: nat)
    requires i <= j < |s|
    ensures s[i..j + 1] == s[i..j] + [s[j]]
  {
  }

  /** Extending a slice by the next element adds that element to its sum. */
  lemma SumSliceSnoc(s: seq<int>, i: nat, j: nat)
    requires i <= j < |s|
    ensures Sum(s[i..j + 1]) == Sum(s[i..j]) + s[j]
  {
    assert s[i..j + 1] == s[i..j] + [s[j]];
    SumSnoc(s[i..j], s[j]);
  }

  /** Extending a prefix by the next element adds that element to its sum. */
  lemma SumPrefixSnoc(s: seq<int>, j: nat)
    requires j < |s|
    ensures Sum(s[..j + 1]) == Sum(s[..j]) + s[j]
  {
    assert s[..j + 1] == s[..j] + [s[j]];
    SumSnoc(s[..j], s[j]);
  }

  /** The sum of a concatenation is the sum of the sums. */
  lemma {:induction false} SumAppend(a: seq<int>, b: seq<int>)
    ensures Sum(a + b) == Sum(a) + Sum(b)
    decreases |b|
  {
    if b == [] {
      assert a + b == a;
    } else {
      var front := b[..|b| - 1];
      assert a + b == (a + front) + [b[|b| - 1]];
      assert b == front + [b[|b| - 1]];
      SumSnoc(a + front, b[|b| - 1]);
      SumSnoc(front, b[|b| - 1]);
      SumAppend(a, front);
    }
  }

  /** A run of zeros sums to zero. */
  lemma {:induction false} ZerosSum(n: nat)
    ensures Sum(seq(n, _ => 0)) == 0
  {
    if n > 0 {
      assert seq(n, _ => 0)[..n - 1] == seq(n - 1, _ => 0);
      ZerosSum(n - 1);
    }
  }

  /** Cutting a slice at an inner index splits its sum. */
  lemma SumSplit(s: seq<int>, i: nat, j: nat, l: nat)
    requires i <= j <= l <= |s|
    ensures Sum(s[i..l]) == Sum(s[i..j]) + Sum(s[j..l])
  {
    assert s[i..l] == s[i..j] + s[j..l];
    SumAppend(s[i..j], s[j..l]);
  }

  /** The concatenation of a sequence of segments, in order. */
  function Concat(parts: seq<seq<int>>): seq<int>
    decreases |parts|
  {
    if parts == [] then [] else parts[0] + Concat(parts[1..])
  }

  /** Concatenation distributes over appending lists of segments. */
  lemma {:induction false} ConcatAppend(a: seq<seq<int>>, b: seq<seq<int>>)
    ensures Concat(a + b) == Concat(a) + Concat(b)
    decreases |a|
  {
    if a == [] {
      assert a + b == b;
    } else {
      assert (a + b)[0] == a[0];
      assert (a + b)[1..] == a[1..] + b;
      ConcatAppend(a[1..], b);
    }
  }

  /** Appending one segment appends it to the concatenation. */
  lemma ConcatSnoc(parts: seq<seq<int>>, x: seq<int>)
    ensures Concat(parts + [x]) == Concat(parts) + x
  {
    ConcatAppend(parts, [x]);
    assert [x][1..] == [];
    assert Concat([x]) == x + Concat([]);
  }

  /** Appending `tail` to the last segment appends it to the concatenation. */
  lemma ConcatExtendLast(segs: seq<seq<int>>, tail: seq<int>)
    requires segs != []
    ensures Concat(segs[..|segs| - 1] + [segs[|segs| - 1] + tail]) == Concat(segs) + tail
  {
    var n := |segs|;
    var init, last := segs[..n - 1], segs[n - 1];
    assert segs == init + [last];
    ConcatSnoc(init, last);
    ConcatSnoc(init, last + tail);
    AppendAssoc(Concat(init), last, tail);
  }

  lemma AppendAssoc<T>(a: seq<T>, b: seq<T>, c: seq<T>)
    ensures (a + b) + c == a + (b + c)
  {
  }

  /** When every segment sums to `t`, their concatenation sums to `|parts| * t`. */
  lemma {:induction false} SumConcat(parts: seq<seq<int>>, t: int)
    requires forall i :: 0 <= i < |parts| ==> Sum(parts[i]) == t
    ensures Sum(Concat(parts)) == |parts| * t
    decreases |parts|
  {
    if parts != [] {
      SumConcat(parts[1..], t);
      SumAppend(parts[0], Concat(parts[1..]));
      assert Sum(Concat(parts)) == t + (|parts| - 1) * t;
    }
  }

  /** Non-empty segments: their concatenation has at least one element per segment. */
  lemma {:induction false} ConcatLength(parts: seq<seq<int>>)
    requires forall i :: 0 <= i < |parts| ==> |parts[i]| > 0
    ensures |Concat(parts)| >= |parts|
    decreases |parts|
  {
    if parts != [] {
      ConcatLength(parts[1..]);
    }
  }
}
