/** Row-level building blocks shared by fusion, the decode step and generation
    input preparation: sums and cumulative sums over the last tensor dimension,
    counts, Python's slice from a start index, flattening, and the cumulative-sum rule that
    turns an attention-mask row into position ids. */
module Rows {

  /** Sum over one row. Defined from the end, so that a prefix sum
      grows by exactly one element. */
  function Sum(s: seq<int>): int
  {
    if s == [] then 0 else Sum(s[..|s| - 1]) + s[|s| - 1]
  }

  /** Number of true entries of a boolean row. */
  function CountTrue(s: seq<bool>): (n: nat)
    ensures n <= |s|
  {
    if s == [] then 0 else CountTrue(s[..|s| - 1]) + (if s[|s| - 1] then 1 else 0)
  }

  /** Number of entries equal to x. */
  function CountOf(s: seq<int>, x: int): (n: nat)
    ensures n <= |s|
    ensures n == 0 <==> x !in s
  {
    if s == [] then 0
    else
      var n := CountOf(s[..|s| - 1], x) + (if s[|s| - 1] == x then 1 else 0);
      assert s == s[..|s| - 1] + [s[|s| - 1]];
      n
  }

  /** Number of non-zero entries of a row. */
  function CountNonZero(s: seq<int>): (n: nat)
    ensures n <= |s|
  {
    if s == [] then 0 else CountNonZero(s[..|s| - 1]) + (if s[|s| - 1] != 0 then 1 else 0)
  }

  /** A 0/1 attention-mask row. */
  ghost predicate IsBinary(s: seq<int>)
  {
    forall i :: 0 <= i < |s| ==> s[i] == 0 || s[i] == 1
  }

  lemma SumPrefixStep(s: seq<int>, i: nat)
    requires i < |s|
    ensures Sum(s[..i + 1]) == Sum(s[..i]) + s[i]
  {
    assert s[..i + 1][..i] == s[..i];
  }

  lemma CountTruePrefixStep(s: seq<bool>, i: nat)
    requires i < |s|
    ensures CountTrue(s[..i + 1]) == CountTrue(s[..i]) + (if s[i] then 1 else 0)
  {
    assert s[..i + 1][..i] == s[..i];
  }

  lemma {:induction false} SumAppend(s: seq<int>, t: seq<int>)
    ensures Sum(s + t) == Sum(s) + Sum(t)
  {
    if t == [] {
      assert s + t == s;
    } else {
      assert (s + t)[..|s + t| - 1] == s + t[..|t| - 1];
      SumAppend(s, t[..|t| - 1]);
    }
  }

  lemma {:induction false} CountTrueAppend(s: seq<bool>, t: seq<bool>)
    ensures CountTrue(s + t) == CountTrue(s) + CountTrue(t)
  {
    if t == [] {
      assert s + t == s;
    } else {
      assert (s + t)[..|s + t| - 1] == s + t[..|t| - 1];
      CountTrueAppend(s, t[..|t| - 1]);
    }
  }

  /** On a 0/1 row the sum is the number of ones. */
  lemma {:induction false} BinarySumIsCount(s: seq<int>)
    requires IsBinary(s)
    ensures Sum(s) == CountNonZero(s)
  {
    if s != [] {
      BinarySumIsCount(s[..|s| - 1]);
    }
  }

  /** Python's slice of s from start on: a negative start counts from the end and is
      clamped at 0, a start past the end yields the empty slice. */
  function PySliceFrom<T>(s: seq<T>, start: int): (r: seq<T>)
    ensures |r| == if start >= 0 then (if start <= |s| then |s| - start else 0)
                   else (if -start <= |s| then -start else |s|)
    ensures r == s[|s| - |r|..]
  {
    var from := if start < 0 then (if |s| + start < 0 then 0 else |s| + start)
                else if start > |s| then |s| else start;
    s[from..]
  }

  /** Concatenation of the rows, as reshaping them into one long row does. */
  function Flatten<T>(xs: seq<seq<T>>): seq<T>
  {
    if xs == [] then [] else Flatten(xs[..|xs| - 1]) + xs[|xs| - 1]
  }

  lemma {:induction false} FlattenLength<T>(xs: seq<seq<T>>, width: nat)
    requires forall i :: 0 <= i < |xs| ==> |xs[i]| == width
    ensures |Flatten(xs)| == |xs| * width
  {
    if xs != [] {
      var n := |xs|;
      FlattenLength(xs[..n - 1], width);
      assert n * width == (n - 1) * width + width;
    }
  }

  /** Flattening keeps row-major order: entry p of row i lands at i * width + p. */
  lemma {:induction false} FlattenAt<T>(xs: seq<seq<T>>, width: nat, i: nat, p: nat)
    requires forall k :: 0 <= k < |xs| ==> |xs[k]| == width
    requires i < |xs| && p < width
    ensures i * width + p < |Flatten(xs)| && Flatten(xs)[i * width + p] == xs[i][p]
  {
    var n := |xs|;
    var init := xs[..n - 1];
    FlattenLength(init, width);
    assert Flatten(xs) == Flatten(init) + xs[n - 1];
    assert n * width == (n - 1) * width + width;
    if i < n - 1 {
      FlattenAt(init, width, i, p);
    } else {
      assert i * width == (n - 1) * width;
    }
  }

  /** Position ids from an attention-mask row: the running sum of the mask up
      to and including a position, minus one, and 1 wherever the mask is 0. */
  function PositionIds(mask: seq<int>): (r: seq<int>)
    ensures |r| == |mask|
  {
    seq(|mask|, i requires 0 <= i < |mask| => if mask[i] == 0 then 1 else Sum(mask[..i + 1]) - 1)
  }

  /** On a 0/1 mask, an attended position gets the number of attended positions
      before it, and a non-attended position gets the dummy id 1. */
  lemma PositionIdsCountAttended(mask: seq<int>)
    requires IsBinary(mask)
    ensures forall i :: 0 <= i < |mask| ==>
      PositionIds(mask)[i] == if mask[i] == 0 then 1 else CountNonZero(mask[..i])
  {
    forall i | 0 <= i < |mask|
      ensures PositionIds(mask)[i] == if mask[i] == 0 then 1 else CountNonZero(mask[..i])
    {
      assert IsBinary(mask[..i + 1]);
      BinarySumIsCount(mask[..i + 1]);
      assert mask[..i + 1][..i] == mask[..i];
    }
  }

  lemma {:induction false} CountTrueAllFalse(s: seq<bool>)
    requires forall i :: 0 <= i < |s| ==> !s[i]
    ensures CountTrue(s) == 0
  {
    if s != [] {
      CountTrueAllFalse(s[..|s| - 1]);
    }
  }

  lemma {:induction false} CountTrueAllTrue(s: seq<bool>)
    requires forall i :: 0 <= i < |s| ==> s[i]
    ensures CountTrue(s) == |s|
  {
    if s != [] {
      CountTrueAllTrue(s[..|s| - 1]);
    }
  }

  lemma {:induction false} CountTrueNegated(s: seq<bool>, t: seq<bool>)
    requires |s| == |t| && forall i :: 0 <= i < |s| ==> t[i] == !s[i]
    ensures CountTrue(t) == |s| - CountTrue(s)
  {
    if s != [] {
      CountTrueNegated(s[..|s| - 1], t[..|t| - 1]);
    }
  }

  /** Row b of a two-dimensional array, as a sequence. */
  function Row<T>(a: array2<T>, b: nat): (r: seq<T>)
    requires b < a.Length0
    reads a
    ensures |r| == a.Length1
    ensures forall c :: 0 <= c < a.Length1 ==> r[c] == a[b, c]
  {
    seq(a.Length1, c requires 0 <= c < a.Length1 reads a => a[b, c])
  }
}
