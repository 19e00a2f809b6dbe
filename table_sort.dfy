/**
  The in-place row sorts of `table/functions/sort.py` and of the older
  `functions/table/sort.py`. Both files hold the same `_compare_exchange` and
  `_odd_even_merge`; the older one exposes the block sort `odd_even_sort(lo, n)`
  and wraps it in `sort_nada_table`, the newer one keeps the block sort private
  and exposes `odd_even_sort(values, key_col, ascending)`.

  The table is an `array` of rows, each row a sequence of values of one common
  width `w`. A compare-exchange rewrites both rows column by column, each
  column chosen by the one key comparison, so it either keeps both rows or
  trades them whole: the methods are proved to produce exactly the state
  `RunRows` predicts.
 */
module TableSort {
  import opened Values
  import opened Utils
  import opened Network
  import opened Sortedness

  /**
    `_compare_exchange(values, key_col, ascending, i, j)`: with
    `cond = key_i < key_j`, column `k` of row `i` becomes
    `cond.if_else(values[i][k], values[j][k])` and column `k` of row `j` the
    other one (the other way round when descending).
   */
  method CompareExchangeRows(t: array<seq<Value>>, key: nat, asc: bool, i: nat, j: nat, ghost w: nat)
    requires Keyed(t[..], key) && Uniform(t[..], w)
    modifies t
    ensures t[..] == ExchangeRows(old(t[..]), key, asc, (i, j))
  {
    if i >= t.Length || j >= t.Length {
      return;
    }
    var x, y := t[i][key], t[j][key];
    var cond := x.val < y.val;
    ExchangeColumns(t, cond, asc, i, j, |t[i]|);
    ExchangeRowsClose(old(t[..]), t[..], key, asc, i, j, cond == asc);
  }

  /**
    The `for k in range(len(values[i]))` loop of `_compare_exchange`: column
    `k` of row `i` becomes `cond.if_else(values[i][k], values[j][k])` and
    column `k` of row `j` the other operand, or the reverse when descending.
   */
  method ExchangeColumns(t: array<seq<Value>>, cond: bool, asc: bool, i: nat, j: nat, width: nat)
    requires i < t.Length && j < t.Length && |t[i]| == width && |t[j]| == width
    modifies t
    ensures t[i] == (if cond == asc then old(t[i]) else old(t[j]))
    ensures t[j] == (if cond == asc then old(t[j]) else old(t[i]))
    ensures forall q :: 0 <= q < t.Length && q != i && q != j ==> t[q] == old(t[q])
  {
    ghost var ri, rj := t[i], t[j];
    ghost var keep := cond == asc;
    var k := 0;
    while k < width
      invariant 0 <= k <= width
      invariant t[i] == Blend(keep, ri, rj, k)
      invariant t[j] == Blend(keep, rj, ri, k)
      invariant forall q :: 0 <= q < t.Length && q != i && q != j ==> t[q] == old(t[q])
    {
      ghost var ti, tj := t[i], t[j];
      var one := Select(cond, t[i][k], t[j][k]);
      var two := Select(cond, t[j][k], t[i][k]);
      if asc {
        t[i] := t[i][k := one];
        t[j] := t[j][k := two];
      } else {
        t[i] := t[i][k := two];
        t[j] := t[j][k := one];
      }
      var k1 := k + 1;
      ColumnStep(ri, rj, ti, tj, t[i], t[j], k, k1, cond, asc, keep, i == j);
      k := k1;
    }
    BlendDone(ri, rj, keep, width);
  }

  /**
    Row `mine` after its first `k` columns have been rewritten: unchanged when
    the rows stay, otherwise the other row's columns below `k`.
   */
  ghost function Blend(keep: bool, mine: seq<Value>, theirs: seq<Value>, k: nat): (b: seq<Value>)
    requires k <= |mine| == |theirs|
    ensures |b| == |mine|
  {
    if keep then mine else theirs[..k] + mine[k..]
  }

  /**
    One turn of the column loop: row `i` is written first, then row `j`;
    `same` says the two indices coincide, so the second write sees the first.
   */
  lemma ColumnStep(ri: seq<Value>, rj: seq<Value>, ti: seq<Value>, tj: seq<Value>, ni: seq<Value>, nj: seq<Value>,
                   k: nat, k1: nat, cond: bool, asc: bool, keep: bool, same: bool)
    requires |ri| == |rj| && k < |ri| && k1 == k + 1
    requires keep == (cond == asc) && (same ==> ri == rj && ti == tj)
    requires ti == Blend(keep, ri, rj, k) && tj == Blend(keep, rj, ri, k)
    requires var one, two := Select(cond, ti[k], tj[k]), Select(cond, tj[k], ti[k]);
             var wi := ti[k := if asc then one else two];
             nj == (if same then wi else tj)[k := if asc then two else one] &&
             ni == (if same then nj else wi)
    ensures ni == Blend(keep, ri, rj, k1) && nj == Blend(keep, rj, ri, k1)
  {
    var one, two := Select(cond, ti[k], tj[k]), Select(cond, tj[k], ti[k]);
    var a, b := if asc then one else two, if asc then two else one;
    BlendAt(keep, ri, rj, k);
    BlendAt(keep, rj, ri, k);
    assert a == (if keep then ri[k] else rj[k]);
    assert b == (if keep then rj[k] else ri[k]);
    BlendStep(keep, ri, rj, k, k1);
    BlendStep(keep, rj, ri, k, k1);
    if same {
      BlendSame(keep, ri, k);
      BlendSame(keep, ri, k1);
    }
  }

  lemma BlendAt(keep: bool, mine: seq<Value>, theirs: seq<Value>, k: nat)
    requires k < |mine| == |theirs|
    ensures Blend(keep, mine, theirs, k)[k] == mine[k]
  {
  }

  /** Rewriting column `k` moves the blend on by one column. */
  lemma BlendStep(keep: bool, mine: seq<Value>, theirs: seq<Value>, k: nat, k1: nat)
    requires k < |mine| == |theirs| && k1 == k + 1
    ensures Blend(keep, mine, theirs, k)[k := if keep then mine[k] else theirs[k]] == Blend(keep, mine, theirs, k1)
  {
    if !keep {
      assert theirs[..k1] == theirs[..k] + [theirs[k]];
    }
  }

  lemma BlendSame(keep: bool, r: seq<Value>, k: nat)
    requires k <= |r|
    ensures Blend(keep, r, r, k) == r
  {
    assert r[..k] + r[k..] == r;
  }

  lemma BlendDone(ri: seq<Value>, rj: seq<Value>, keep: bool, width: nat)
    requires |ri| == |rj| == width
    ensures Blend(keep, ri, rj, width) == (if keep then ri else rj)
    ensures Blend(keep, rj, ri, width) == (if keep then rj else ri)
  {
    assert ri[..width] == ri && rj[..width] == rj;
  }

  /** The state the column loop leaves is the whole-row exchange. */
  lemma ExchangeRowsClose(before: seq<seq<Value>>, after: seq<seq<Value>>, key: nat, asc: bool, i: nat, j: nat, keep: bool)
    requires Keyed(before, key) && i < |before| && j < |before| && |after| == |before|
    requires keep == ((before[i][key].val < before[j][key].val) == asc)
    requires after[i] == (if keep then before[i] else before[j])
    requires after[j] == (if keep then before[j] else before[i])
    requires forall q :: 0 <= q < |before| && q != i && q != j ==> after[q] == before[q]
    ensures after == ExchangeRows(before, key, asc, (i, j))
  {
    if keep {
      assert after == before;
    } else {
      assert after == before[i := before[j]][j := before[i]];
    }
  }

  /** `_odd_even_merge(values, key_col, ascending, lo, n, r)` on rows. */
  method MergeRows(t: array<seq<Value>>, key: nat, asc: bool, lo: nat, n: nat, r: nat, ghost w: nat)
    requires r >= 1 && Keyed(t[..], key) && Uniform(t[..], w)
    modifies t
    ensures Keyed(t[..], key) && Uniform(t[..], w)
    ensures t[..] == RunRows(old(t[..]), key, asc, MergePairs(lo, n, r))
    decreases n - r
  {
    var m := 2 * r;
    if m < n {
      ghost var s0 := t[..];
      MergeRows(t, key, asc, lo, n, m, w);
      ghost var s1 := t[..];
      var start := lo + r;
      MergeRows(t, key, asc, start, n, m, w);
      ghost var s2 := t[..];
      var i, e := start, lo + n;
      while i + r < e
        invariant Keyed(t[..], key) && Uniform(t[..], w)
        invariant RunRows(s2, key, asc, Stride(start, e, r, m)) == RunRows(t[..], key, asc, Stride(i, e, r, m))
        decreases e - i
      {
        ghost var before := t[..];
        var j := i + r;
        CompareExchangeRows(t, key, asc, i, j, w);
        var k := i + m;
        StrideRowsStep(before, t[..], key, asc, i, j, k, e, r, m, w);
        i := k;
      }
      StrideRowsDone(t[..], key, asc, i, e, r, m);
      MergeRowsSplit(s0, s1, s2, key, asc, lo, start, e, n, r, m);
    } else {
      ghost var before := t[..];
      CompareExchangeRows(t, key, asc, lo, lo + r, w);
      ExchangeRowsKeyed(before, key, asc, (lo, lo + r));
    }
  }

  /** One turn of the stride loop runs the head of the remaining schedule and keeps the table's shape. */
  lemma StrideRowsStep(before: seq<seq<Value>>, after: seq<seq<Value>>, key: nat, asc: bool,
                       i: nat, j: nat, k: nat, e: nat, r: nat, m: nat, w: nat)
    requires Keyed(before, key) && Uniform(before, w)
    requires m >= 1 && j == i + r && k == i + m && j < e
    requires after == ExchangeRows(before, key, asc, (i, j))
    ensures Keyed(after, key) && Uniform(after, w)
    ensures RunRows(before, key, asc, Stride(i, e, r, m)) == RunRows(after, key, asc, Stride(k, e, r, m))
  {
    ExchangeRowsKeyed(before, key, asc, (i, j));
    assert Stride(i, e, r, m) == [(i, j)] + Stride(k, e, r, m);
  }

  lemma StrideRowsDone(rows: seq<seq<Value>>, key: nat, asc: bool, i: nat, e: nat, r: nat, m: nat)
    requires Keyed(rows, key) && m >= 1 && i + r >= e
    ensures RunRows(rows, key, asc, Stride(i, e, r, m)) == rows
  {
  }

  /** The three phases of a merge, run one after the other, are the merge. */
  lemma MergeRowsSplit(s0: seq<seq<Value>>, s1: seq<seq<Value>>, s2: seq<seq<Value>>, key: nat, asc: bool,
                       lo: nat, start: nat, e: nat, n: nat, r: nat, m: nat)
    requires Keyed(s0, key)
    requires r >= 1 && m == 2 * r && m < n && start == lo + r && e == lo + n
    requires s1 == RunRows(s0, key, asc, MergePairs(lo, n, m))
    requires s2 == RunRows(s1, key, asc, MergePairs(start, n, m))
    ensures RunRows(s0, key, asc, MergePairs(lo, n, r)) == RunRows(s2, key, asc, Stride(start, e, r, m))
  {
    assert MergePairs(lo, n, r) == MergePairs(lo, n, m) + MergePairs(start, n, m) + Stride(start, e, r, m);
    RunRowsAppend(s0, key, asc, MergePairs(lo, n, m) + MergePairs(start, n, m), Stride(start, e, r, m));
    RunRowsAppend(s0, key, asc, MergePairs(lo, n, m), MergePairs(start, n, m));
  }

  /**
    The block sort: `_odd_even_sort(values, key_col, ascending, lo, n)` of the
    newer file and the public `odd_even_sort(values, key_col, ascending, lo, n)`
    of the older one.
   */
  method SortRowsBlock(t: array<seq<Value>>, key: nat, asc: bool, lo: nat, n: nat, ghost w: nat)
    requires Keyed(t[..], key) && Uniform(t[..], w)
    modifies t
    ensures Keyed(t[..], key) && Uniform(t[..], w)
    ensures t[..] == RunRows(old(t[..]), key, asc, SortPairs(lo, n))
    decreases n
  {
    if n > 1 {
      var m := n / 2;
      ghost var s0 := t[..];
      SortRowsBlock(t, key, asc, lo, m, w);
      ghost var s1 := t[..];
      var mid := lo + m;
      SortRowsBlock(t, key, asc, mid, m, w);
      ghost var s2 := t[..];
      MergeRows(t, key, asc, lo, n, 1, w);
      SortRowsSplit(s0, s1, s2, key, asc, lo, mid, n, m);
    }
  }

  lemma SortRowsSplit(s0: seq<seq<Value>>, s1: seq<seq<Value>>, s2: seq<seq<Value>>, key: nat, asc: bool,
                      lo: nat, mid: nat, n: nat, m: nat)
    requires Keyed(s0, key)
    requires n > 1 && m == n / 2 && mid == lo + m
    requires s1 == RunRows(s0, key, asc, SortPairs(lo, m))
    requires s2 == RunRows(s1, key, asc, SortPairs(mid, m))
    ensures RunRows(s0, key, asc, SortPairs(lo, n)) == RunRows(s2, key, asc, MergePairs(lo, n, 1))
  {
    var a, b, c := SortPairs(lo, m), SortPairs(mid, m), MergePairs(lo, n, 1);
    SortPairsUnfold(lo, n);
    assert SortPairs(lo, n) == a + b + c;
    RunRowsAppend(s0, key, asc, a + b, c);
    RunRowsAppend(s0, key, asc, a, b);
  }

  /**
    `odd_even_sort(values, key_col, ascending)`: sorts the whole table over its
    padded size. The keys end up ordered and the rows are only rearranged.
   */
  method OddEvenSortRows(t: array<seq<Value>>, key: nat, asc: bool, ghost w: nat)
    requires Keyed(t[..], key) && Uniform(t[..], w)
    modifies t
    ensures Uniform(t[..], w)
    ensures t[..] == RunRows(old(t[..]), key, asc, SortPairs(0, PaddedSize(t.Length)))
    ensures Keyed(t[..], key) && Ordered(Keys(t[..], key), asc)
    ensures multiset(t[..]) == multiset(old(t[..]))
  {
    var p := NextPowerOfTwo(t.Length);
    SortRowsBlock(t, key, asc, 0, p, w);
    SortRowsOrdered(old(t[..]), key, asc);
  }

  /** `sort_nada_table(values, key_col, ascending)`: the same sort, handing back the table it was given. */
  method SortNadaTable(t: array<seq<Value>>, key: nat, asc: bool, ghost w: nat) returns (u: array<seq<Value>>)
    requires Keyed(t[..], key) && Uniform(t[..], w)
    modifies t
    ensures u == t && Uniform(t[..], w)
    ensures t[..] == RunRows(old(t[..]), key, asc, SortPairs(0, PaddedSize(t.Length)))
    ensures Keyed(t[..], key) && Ordered(Keys(t[..], key), asc)
    ensures multiset(t[..]) == multiset(old(t[..]))
  {
    OddEvenSortRows(t, key, asc, w);
    return t;
  }

  // ---------------------------------------------------------------------------
  // The test vectors of both row sorts, on rows whose key cells carry the
  // numbers of the tests (the other cells are arbitrary)
  // ---------------------------------------------------------------------------

  lemma KeyedTwo(a: seq<Value>, b: seq<Value>, key: nat)
    requires key < |a| && key < |b|
    ensures Keyed([a, b], key)
  {
    var rows := [a, b];
    forall k | 0 <= k < |rows|
      ensures key < |rows[k]|
    {
      if k == 0 {
      } else {
      }
    }
  }

  lemma KeyedThree(a: seq<Value>, b: seq<Value>, c: seq<Value>, key: nat)
    requires key < |a| && key < |b| && key < |c|
    ensures Keyed([a, b, c], key)
  {
    var rows := [a, b, c];
    forall k | 0 <= k < |rows|
      ensures key < |rows[k]|
    {
      if k == 0 {
      } else if k == 1 {
      } else {
      }
    }
  }

  /** `[[1, 2], [3, 4]]` keyed on column 0 is already ascending and is left as it is. */
  lemma SortTwoAscending(a: seq<Value>, b: seq<Value>)
    requires |a| == 2 && |b| == 2 && a[0].val == 1 && b[0].val == 3
    ensures Keyed([a, b], 0)
    ensures RunRows([a, b], 0, true, SortPairs(0, PaddedSize(2))) == [a, b]
  {
    KeyedTwo(a, b, 0);
    assert SortPairs(0, PaddedSize(2)) == [(0, 1)];
    assert ExchangeRows([a, b], 0, true, (0, 1)) == [a, b];
    RunRowsCons([a, b], 0, true, (0, 1), []);
  }

  /** Descending on column 0, `[[1, 2], [3, 4]]` becomes `[[3, 4], [1, 2]]`. */
  lemma SortTwoDescending(a: seq<Value>, b: seq<Value>)
    requires |a| == 2 && |b| == 2 && a[0].val == 1 && b[0].val == 3
    ensures Keyed([a, b], 0)
    ensures RunRows([a, b], 0, false, SortPairs(0, PaddedSize(2))) == [b, a]
  {
    KeyedTwo(a, b, 0);
    KeyedTwo(b, a, 0);
    assert SortPairs(0, PaddedSize(2)) == [(0, 1)];
    assert ExchangeRows([a, b], 0, false, (0, 1)) == [b, a];
    RunRowsCons([a, b], 0, false, (0, 1), []);
  }

  /** Ascending on column 1, `[[7, 8], [1, 6], [9, 2]]` becomes `[[9, 2], [1, 6], [7, 8]]`. */
  lemma SortThreeAscending(a: seq<Value>, b: seq<Value>, c: seq<Value>)
    requires |a| == 2 && |b| == 2 && |c| == 2
    requires a[1].val == 8 && b[1].val == 6 && c[1].val == 2
    ensures Keyed([a, b, c], 1)
    ensures RunRows([a, b, c], 1, true, SortPairs(0, PaddedSize(3))) == [c, b, a]
  {
    assert PaddedSize(3) == 4;
    SortPairsFour();
    KeyedThree(a, b, c, 1);
    KeyedThree(b, a, c, 1);
    KeyedThree(c, a, b, 1);
    KeyedThree(c, b, a, 1);
    assert ExchangeRows([a, b, c], 1, true, (0, 1)) == [b, a, c];
    assert ExchangeRows([b, a, c], 1, true, (2, 3)) == [b, a, c];
    assert ExchangeRows([b, a, c], 1, true, (0, 2)) == [c, a, b];
    assert ExchangeRows([c, a, b], 1, true, (1, 3)) == [c, a, b];
    assert ExchangeRows([c, a, b], 1, true, (1, 2)) == [c, b, a];
    RunRowsCons([a, b, c], 1, true, (0, 1), [(2, 3), (0, 2), (1, 3), (1, 2)]);
    RunRowsCons([b, a, c], 1, true, (2, 3), [(0, 2), (1, 3), (1, 2)]);
    RunRowsCons([b, a, c], 1, true, (0, 2), [(1, 3), (1, 2)]);
    RunRowsCons([c, a, b], 1, true, (1, 3), [(1, 2)]);
    RunRowsCons([c, a, b], 1, true, (1, 2), []);
  }

  /** Descending on column 1, `[[7, 8], [1, 6], [9, 2]]` is already in order and stays. */
  lemma SortThreeDescending(a: seq<Value>, b: seq<Value>, c: seq<Value>)
    requires |a| == 2 && |b| == 2 && |c| == 2
    requires a[1].val == 8 && b[1].val == 6 && c[1].val == 2
    ensures Keyed([a, b, c], 1)
    ensures RunRows([a, b, c], 1, false, SortPairs(0, PaddedSize(3))) == [a, b, c]
  {
    assert PaddedSize(3) == 4;
    SortPairsFour();
    KeyedThree(a, b, c, 1);
    assert ExchangeRows([a, b, c], 1, false, (0, 1)) == [a, b, c];
    assert ExchangeRows([a, b, c], 1, false, (2, 3)) == [a, b, c];
    assert ExchangeRows([a, b, c], 1, false, (0, 2)) == [a, b, c];
    assert ExchangeRows([a, b, c], 1, false, (1, 3)) == [a, b, c];
    assert ExchangeRows([a, b, c], 1, false, (1, 2)) == [a, b, c];
    RunRowsCons([a, b, c], 1, false, (0, 1), [(2, 3), (0, 2), (1, 3), (1, 2)]);
    RunRowsCons([a, b, c], 1, false, (2, 3), [(0, 2), (1, 3), (1, 2)]);
    RunRowsCons([a, b, c], 1, false, (0, 2), [(1, 3), (1, 2)]);
    RunRowsCons([a, b, c], 1, false, (1, 3), [(1, 2)]);
    RunRowsCons([a, b, c], 1, false, (1, 2), []);
  }
}
