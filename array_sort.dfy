/**
  The in-place scalar sort of `array/functions/sort.py`: the list of secret
  integers becomes an `array<int>` that `_compare_exchange`, `_odd_even_merge`
  and `_odd_even_sort` rewrite in place. Each method is proved to leave the
  array in the state the schedule functions of `Network` predict, and the
  top-level sort inherits sortedness and permutation from `Sortedness`.
 */
module ArraySort {
  import opened Utils
  import opened Network
  import opened Simulation
  import opened Sortedness

  /**
    `_compare_exchange(values, ascending, i, j)`: both operands are read
    before either slot is written; out-of-range indices leave the array alone.
   */
  method CompareExchange(a: array<int>, asc: bool, i: nat, j: nat)
    modifies a
    ensures a[..] == Exchange(old(a[..]), asc, (i, j))
  {
    if i >= a.Length || j >= a.Length {
      return;
    }
    var x, y := a[i], a[j];
    var c := if x < y then x else y;
    var d := if x > y then x else y;
    if asc {
      a[i] := c;
      a[j] := d;
    } else {
      a[i] := d;
      a[j] := c;
    }
  }

  /** `_odd_even_merge(values, ascending, lo, n, r)`. */
  method OddEvenMerge(a: array<int>, asc: bool, lo: nat, n: nat, r: nat)
    requires r >= 1
    modifies a
    ensures a[..] == Run(old(a[..]), asc, MergePairs(lo, n, r))
    decreases n - r
  {
    var m := 2 * r;
    if m < n {
      ghost var s0 := a[..];
      OddEvenMerge(a, asc, lo, n, m);
      ghost var s1 := a[..];
      var start := lo + r;
      OddEvenMerge(a, asc, start, n, m);
      ghost var s2 := a[..];
      var i, e := start, lo + n;
      while i + r < e
        invariant Run(s2, asc, Stride(start, e, r, m)) == Run(a[..], asc, Stride(i, e, r, m))
        decreases e - i
      {
        ghost var before := a[..];
        var j := i + r;
        CompareExchange(a, asc, i, j);
        var k := i + m;
        StrideStep(before, a[..], asc, i, j, k, e, r, m);
        i := k;
      }
      StrideDone(a[..], asc, i, e, r, m);
      MergeRunSplit(s0, s1, s2, asc, lo, start, e, n, r, m);
    } else {
      CompareExchange(a, asc, lo, lo + r);
    }
  }

  /** One turn of the stride loop runs the head of the remaining schedule. */
  lemma StrideStep(before: seq<int>, after: seq<int>, asc: bool, i: nat, j: nat, k: nat, e: nat, r: nat, m: nat)
    requires m >= 1 && j == i + r && k == i + m && j < e
    requires after == Exchange(before, asc, (i, j))
    ensures Run(before, asc, Stride(i, e, r, m)) == Run(after, asc, Stride(k, e, r, m))
  {
    assert Stride(i, e, r, m) == [(i, j)] + Stride(k, e, r, m);
  }

  /** When the stride loop stops, no schedule is left. */
  lemma StrideDone(s: seq<int>, asc: bool, i: nat, e: nat, r: nat, m: nat)
    requires m >= 1 && i + r >= e
    ensures Run(s, asc, Stride(i, e, r, m)) == s
  {
  }

  /** The three phases of a merge, run one after the other, are the merge. */
  lemma MergeRunSplit(s0: seq<int>, s1: seq<int>, s2: seq<int>, asc: bool, lo: nat, start: nat, e: nat, n: nat, r: nat, m: nat)
    requires r >= 1 && m == 2 * r && m < n && start == lo + r && e == lo + n
    requires s1 == Run(s0, asc, MergePairs(lo, n, m))
    requires s2 == Run(s1, asc, MergePairs(start, n, m))
    ensures Run(s0, asc, MergePairs(lo, n, r)) == Run(s2, asc, Stride(start, e, r, m))
  {
    assert MergePairs(lo, n, r) == MergePairs(lo, n, m) + MergePairs(start, n, m) + Stride(start, e, r, m);
    RunAppend(s0, asc, MergePairs(lo, n, m) + MergePairs(start, n, m), Stride(start, e, r, m));
    RunAppend(s0, asc, MergePairs(lo, n, m), MergePairs(start, n, m));
  }

  /** `_odd_even_sort(values, ascending, lo, n)`. */
  method OddEvenSort(a: array<int>, asc: bool, lo: nat, n: nat)
    modifies a
    ensures a[..] == Run(old(a[..]), asc, SortPairs(lo, n))
    decreases n
  {
    if n > 1 {
      var m := n / 2;
      ghost var s0 := a[..];
      OddEvenSort(a, asc, lo, m);
      ghost var s1 := a[..];
      var mid := lo + m;
      OddEvenSort(a, asc, mid, m);
      ghost var s2 := a[..];
      OddEvenMerge(a, asc, lo, n, 1);
      SortRunSplit(s0, s1, s2, asc, lo, mid, n, m);
    }
  }

  /**
    `sort_nada_array(values, ascending)`: sorts over the padded size and hands
    back the very array it was given, now ordered and holding the same values.
   */
  method SortNadaArray(a: array<int>, asc: bool) returns (b: array<int>)
    modifies a
    ensures b == a
    ensures a[..] == Run(old(a[..]), asc, SortPairs(0, PaddedSize(a.Length)))
    ensures Ordered(a[..], asc)
    ensures multiset(a[..]) == multiset(old(a[..]))
  {
    var p := NextPowerOfTwo(a.Length);
    OddEvenSort(a, asc, 0, p);
    SortOrdered(old(a[..]), asc);
    return a;
  }
}
