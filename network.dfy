/**
  Batcher's odd-even merge sorting network, as a data-independent schedule of
  compare-exchange pairs, and the effect of running it on a sequence of
  numbers or on a sequence of rows.

  The recursion of `_odd_even_sort` / `_odd_even_merge` is captured by
  `SortPairs` / `MergePairs`: the list of `(i, j)` pairs the source hands to
  `_compare_exchange`, in order. They depend on `lo`, `n` and `r` only, never on
  the data (the network is oblivious). `Run` applies a schedule to a sequence.
 */
module Network {
  import opened Values
  import opened Utils

  type Pair = (nat, nat)

  /** The stride loop of `_odd_even_merge`: `i` from `start`, step `m`, while `i + r < end`. */
  function Stride(start: nat, end: nat, r: nat, m: nat): seq<Pair>
    requires m >= 1
    decreases if start < end then end - start else 0
  {
    if start + r < end then [(start, start + r)] + Stride(start + m, end, r, m) else []
  }

  /** `_odd_even_merge(values, lo, n, r)` */
  function MergePairs(lo: nat, n: nat, r: nat): seq<Pair>
    requires r >= 1
    decreases n - r
  {
    var m := 2 * r;
    if m < n then MergePairs(lo, n, m) + MergePairs(lo + r, n, m) + Stride(lo + r, lo + n, r, m)
    else [(lo, lo + r)]
  }

  /** `_odd_even_sort(values, lo, n)`; `int(n / 2)` is exact division by two for every list size. */
  function SortPairs(lo: nat, n: nat): seq<Pair>
    decreases n
  {
    if n > 1 then
      var h := n / 2;
      SortPairs(lo, h) + SortPairs(lo + h, h) + MergePairs(lo, n, 1)
    else []
  }

  /** `(x < y).if_else(x, y)`: the smaller operand. */
  function Lower(x: int, y: int): int
  {
    if x < y then x else y
  }

  /** `(x > y).if_else(x, y)`: the larger operand. */
  function Upper(x: int, y: int): int
  {
    if x > y then x else y
  }

  /**
    The scalar `_compare_exchange(values, i, j, ascending)`: nothing happens when
    either index is past the end; otherwise the smaller value goes first in
    ascending order, the larger one in descending order.
   */
  function Exchange(s: seq<int>, asc: bool, p: Pair): (t: seq<int>)
    ensures |t| == |s|
  {
    var (i, j) := p;
    if i >= |s| || j >= |s| then s
    else
      var x, y := s[i], s[j];
      if asc then s[i := Lower(x, y)][j := Upper(x, y)]
      else s[i := Upper(x, y)][j := Lower(x, y)]
  }

  /** The state after running the compare-exchanges of `ps` in order. */
  function Run(s: seq<int>, asc: bool, ps: seq<Pair>): (t: seq<int>)
    ensures |t| == |s|
    decreases |ps|
  {
    if ps == [] then s else Run(Exchange(s, asc, ps[0]), asc, ps[1..])
  }

  /** Every row of `rows` has a column `key`. */
  predicate Keyed(rows: seq<seq<Value>>, key: nat)
  {
    forall k :: 0 <= k < |rows| ==> key < |rows[k]|
  }

  /** All rows of `rows` have width `w`. */
  predicate Uniform(rows: seq<seq<Value>>, w: nat)
  {
    forall k :: 0 <= k < |rows| ==> |rows[k]| == w
  }

  /** The key column, as numbers. */
  function Keys(rows: seq<seq<Value>>, key: nat): (ks: seq<int>)
    requires Keyed(rows, key)
    ensures |ks| == |rows|
    ensures forall k :: 0 <= k < |rows| ==> ks[k] == rows[k][key].val
  {
    seq(|rows|, k requires 0 <= k < |rows| => rows[k][key].val)
  }

  /**
    The row `_compare_exchange(values, i, j, key_col, ascending)` on rows of one
    width: with `cond = key_i < key_j`, every column is selected by the same
    condition, so either both rows stay or they trade places whole. Ascending
    keeps them when `cond` holds; descending keeps them when it does not.
   */
  function ExchangeRows(rows: seq<seq<Value>>, key: nat, asc: bool, p: Pair): seq<seq<Value>>
    requires Keyed(rows, key)
  {
    var (i, j) := p;
    if i >= |rows| || j >= |rows| then rows
    else
      var cond := rows[i][key].val < rows[j][key].val;
      if cond == asc then rows else rows[i := rows[j]][j := rows[i]]
  }

  lemma ExchangeRowsKeyed(rows: seq<seq<Value>>, key: nat, asc: bool, p: Pair)
    requires Keyed(rows, key)
    ensures |ExchangeRows(rows, key, asc, p)| == |rows|
    ensures Keyed(ExchangeRows(rows, key, asc, p), key)
    ensures forall w: nat :: Uniform(rows, w) ==> Uniform(ExchangeRows(rows, key, asc, p), w)
  {
  }

  function RunRows(rows: seq<seq<Value>>, key: nat, asc: bool, ps: seq<Pair>): (out: seq<seq<Value>>)
    requires Keyed(rows, key)
    ensures |out| == |rows| && Keyed(out, key)
    decreases |ps|
  {
    if ps == [] then rows
    else
      ExchangeRowsKeyed(rows, key, asc, ps[0]);
      RunRows(ExchangeRows(rows, key, asc, ps[0]), key, asc, ps[1..])
  }

  // ---------------------------------------------------------------------------
  // Structural facts about the schedule
  // ---------------------------------------------------------------------------

  /** Every scheduled pair compares an earlier index with a later one. */
  predicate Forward(ps: seq<Pair>)
  {
    forall k :: 0 <= k < |ps| ==> ps[k].0 < ps[k].1
  }

  /** Every scheduled pair lies in `[lo, lo + n)`. */
  predicate Within(ps: seq<Pair>, lo: nat, n: nat)
  {
    forall k :: 0 <= k < |ps| ==> lo <= ps[k].0 && ps[k].1 < lo + n
  }

  lemma {:induction false} StrideForward(start: nat, end: nat, r: nat, m: nat)
    requires m >= 1 && r >= 1
    ensures Forward(Stride(start, end, r, m))
    ensures forall k :: 0 <= k < |Stride(start, end, r, m)| ==>
      start <= Stride(start, end, r, m)[k].0 && Stride(start, end, r, m)[k].1 < end
    decreases if start < end then end - start else 0
  {
    if start + r < end {
      StrideForward(start + m, end, r, m);
    }
  }

  lemma ForwardAppend(a: seq<Pair>, b: seq<Pair>)
    requires Forward(a) && Forward(b)
    ensures Forward(a + b)
  {
    forall k | 0 <= k < |a + b|
      ensures (a + b)[k].0 < (a + b)[k].1
    {
      if k >= |a| {
        assert (a + b)[k] == b[k - |a|];
      }
    }
  }

  lemma {:induction false} MergePairsForward(lo: nat, n: nat, r: nat)
    requires r >= 1
    ensures Forward(MergePairs(lo, n, r))
    decreases n - r
  {
    var m := 2 * r;
    if m < n {
      var first, second, fix := MergePairs(lo, n, m), MergePairs(lo + r, n, m), Stride(lo + r, lo + n, r, m);
      MergePairsForward(lo, n, m);
      MergePairsForward(lo + r, n, m);
      StrideForward(lo + r, lo + n, r, m);
      ForwardAppend(first, second);
      ForwardAppend(first + second, fix);
    }
  }

  /** For any `lo` and `n`, every pair of the sorting schedule is `(i, j)` with `i < j`. */
  lemma {:induction false} SortPairsForward(lo: nat, n: nat)
    ensures Forward(SortPairs(lo, n))
    decreases n
  {
    if n > 1 {
      SortPairsForward(lo, n / 2);
      SortPairsForward(lo + n / 2, n / 2);
      MergePairsForward(lo, n, 1);
    }
  }

  /** The block sort's schedule: both half sorts, then the merge. */
  lemma SortPairsUnfold(lo: nat, n: nat)
    requires n > 1
    ensures SortPairs(lo, n) == SortPairs(lo, n / 2) + SortPairs(lo + n / 2, n / 2) + MergePairs(lo, n, 1)
  {
  }

  /**
    A block of power-of-two size opens with the exchange of its first two
    positions: `_odd_even_sort` descends into its left halves down to size two,
    whose merge is that single exchange.
   */
  lemma {:induction false} SortPairsOpens(lo: nat, n: nat)
    requires IsPowerOfTwo(n) && n >= 2
    ensures |SortPairs(lo, n)| > 0 && SortPairs(lo, n)[0] == (lo, lo + 1)
    decreases n
  {
    SortPairsUnfold(lo, n);
    if n == 2 {
      assert SortPairs(lo, 1) == [] && SortPairs(lo + 1, 1) == [];
      assert MergePairs(lo, 2, 1) == [(lo, lo + 1)];
    } else {
      assert IsPowerOfTwo(n / 2) && n / 2 >= 2;
      SortPairsOpens(lo, n / 2);
    }
  }

  /**
    When `n` is not a power of two the public `odd_even_sort(values, ..., lo, n)`
    compares outside `[lo, lo + n)`: for `n = 3` it exchanges `lo + 1` with `lo + 3`.
   */
  lemma SortPairsEscapes(lo: nat)
    ensures (lo + 1, lo + 3) in SortPairs(lo, 3)
    ensures !Within(SortPairs(lo, 3), lo, 3)
  {
    assert MergePairs(lo, 3, 2) == [(lo, lo + 2)];
    assert MergePairs(lo + 1, 3, 2) == [(lo + 1, lo + 3)];
    assert Stride(lo + 3, lo + 3, 1, 2) == [];
    assert Stride(lo + 1, lo + 3, 1, 2) == [(lo + 1, lo + 2)];
    assert SortPairs(lo, 1) == [] && SortPairs(lo + 1, 1) == [];
    assert MergePairs(lo, 3, 1) == [(lo, lo + 2), (lo + 1, lo + 3), (lo + 1, lo + 2)];
    assert SortPairs(lo, 3) == [(lo, lo + 2), (lo + 1, lo + 3), (lo + 1, lo + 2)];
  }

  /** The schedule for four rows: (0,1) (2,3) (0,2) (1,3) (1,2). */
  lemma SortPairsFour()
    ensures SortPairs(0, 4) == [(0, 1), (2, 3), (0, 2), (1, 3), (1, 2)]
  {
    assert MergePairs(0, 4, 2) == [(0, 2)];
    assert MergePairs(1, 4, 2) == [(1, 3)];
    assert Stride(1, 4, 1, 2) == [(1, 2)];
  }

  // ---------------------------------------------------------------------------
  // A run permutes, and touches nothing but the scheduled indices
  // ---------------------------------------------------------------------------

  /** A compare-exchange either keeps the sequence or swaps the two compared elements. */
  lemma ExchangeKeepsOrSwaps(s: seq<int>, asc: bool, i: nat, j: nat)
    requires i < |s| && j < |s|
    ensures Exchange(s, asc, (i, j)) == s || Exchange(s, asc, (i, j)) == s[i := s[j]][j := s[i]]
  {
  }

  lemma SwapPermutes(s: seq<int>, i: nat, j: nat)
    requires i < |s| && j < |s|
    ensures multiset(s[i := s[j]][j := s[i]]) == multiset(s)
  {
  }

  lemma ExchangePermutes(s: seq<int>, asc: bool, p: Pair)
    ensures |Exchange(s, asc, p)| == |s|
    ensures multiset(Exchange(s, asc, p)) == multiset(s)
  {
    var (i, j) := p;
    if i < |s| && j < |s| {
      ExchangeKeepsOrSwaps(s, asc, i, j);
      SwapPermutes(s, i, j);
    }
  }

  lemma {:induction false} RunPermutes(s: seq<int>, asc: bool, ps: seq<Pair>)
    ensures |Run(s, asc, ps)| == |s|
    ensures multiset(Run(s, asc, ps)) == multiset(s)
    decreases |ps|
  {
    if ps != [] {
      ExchangePermutes(s, asc, ps[0]);
      RunPermutes(Exchange(s, asc, ps[0]), asc, ps[1..]);
    }
  }

  lemma {:induction false} RunAppend(s: seq<int>, asc: bool, ps: seq<Pair>, qs: seq<Pair>)
    ensures Run(s, asc, ps + qs) == Run(Run(s, asc, ps), asc, qs)
    decreases |ps|
  {
    if ps == [] {
      assert ps + qs == qs;
    } else {
      assert (ps + qs)[1..] == ps[1..] + qs;
      RunAppend(Exchange(s, asc, ps[0]), asc, ps[1..], qs);
    }
  }

  /** After a compare-exchange of two distinct in-range indices, they are in order. */
  lemma ExchangeOrders(s: seq<int>, asc: bool, i: nat, j: nat)
    requires i < |s| && j < |s| && i != j
    ensures asc ==> Exchange(s, asc, (i, j))[i] <= Exchange(s, asc, (i, j))[j]
    ensures !asc ==> Exchange(s, asc, (i, j))[i] >= Exchange(s, asc, (i, j))[j]
    ensures forall k :: 0 <= k < |s| && k != i && k != j ==> Exchange(s, asc, (i, j))[k] == s[k]
  {
  }

  lemma ExchangeRowsPermutes(rows: seq<seq<Value>>, key: nat, asc: bool, p: Pair)
    requires Keyed(rows, key)
    ensures multiset(ExchangeRows(rows, key, asc, p)) == multiset(rows)
  {
    var (i, j) := p;
    if i < |rows| && j < |rows| && i != j {
      var out := ExchangeRows(rows, key, asc, p);
      if out != rows {
        assert out == rows[i := rows[j]][j := rows[i]];
      }
    }
  }

  lemma {:induction false} RunRowsPermutes(rows: seq<seq<Value>>, key: nat, asc: bool, ps: seq<Pair>)
    requires Keyed(rows, key)
    ensures multiset(RunRows(rows, key, asc, ps)) == multiset(rows)
    ensures forall w: nat :: Uniform(rows, w) ==> Uniform(RunRows(rows, key, asc, ps), w)
    decreases |ps|
  {
    if ps != [] {
      ExchangeRowsKeyed(rows, key, asc, ps[0]);
      ExchangeRowsPermutes(rows, key, asc, ps[0]);
      RunRowsPermutes(ExchangeRows(rows, key, asc, ps[0]), key, asc, ps[1..]);
    }
  }

  /** Running a schedule on rows starts with its first compare-exchange. */
  lemma RunRowsCons(rows: seq<seq<Value>>, key: nat, asc: bool, p: Pair, ps: seq<Pair>)
    requires Keyed(rows, key)
    ensures RunRows(rows, key, asc, [p] + ps) == RunRows(ExchangeRows(rows, key, asc, p), key, asc, ps)
  {
    assert ([p] + ps)[1..] == ps;
  }

  lemma {:induction false} RunRowsAppend(rows: seq<seq<Value>>, key: nat, asc: bool, ps: seq<Pair>, qs: seq<Pair>)
    requires Keyed(rows, key)
    ensures RunRows(rows, key, asc, ps + qs) == RunRows(RunRows(rows, key, asc, ps), key, asc, qs)
    decreases |ps|
  {
    if ps == [] {
      assert ps + qs == qs;
    } else {
      assert (ps + qs)[1..] == ps[1..] + qs;
      ExchangeRowsKeyed(rows, key, asc, ps[0]);
      RunRowsAppend(ExchangeRows(rows, key, asc, ps[0]), key, asc, ps[1..], qs);
    }
  }

  /** On the key column, a row compare-exchange is the scalar compare-exchange. */
  lemma ExchangeRowsKeys(rows: seq<seq<Value>>, key: nat, asc: bool, p: Pair)
    requires Keyed(rows, key)
    ensures Keyed(ExchangeRows(rows, key, asc, p), key)
    ensures Keys(ExchangeRows(rows, key, asc, p), key) == Exchange(Keys(rows, key), asc, p)
  {
    ExchangeRowsKeyed(rows, key, asc, p);
  }

  /** Sorting rows moves their keys exactly as the scalar network moves numbers. */
  lemma {:induction false} RunRowsKeys(rows: seq<seq<Value>>, key: nat, asc: bool, ps: seq<Pair>)
    requires Keyed(rows, key)
    ensures Keys(RunRows(rows, key, asc, ps), key) == Run(Keys(rows, key), asc, ps)
    decreases |ps|
  {
    if ps != [] {
      ExchangeRowsKeys(rows, key, asc, ps[0]);
      RunRowsKeys(ExchangeRows(rows, key, asc, ps[0]), key, asc, ps[1..]);
    }
  }
}
