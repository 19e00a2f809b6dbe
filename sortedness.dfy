/**
  The network sorts: running `SortPairs(0, PaddedSize(|s|))` on any sequence
  leaves it ordered in the requested direction, by the 0-1 principle.

  A threshold `x >= t` commutes with every compare-exchange, so the run on `s`
  seen through a threshold is the run on a 0/1 sequence. A 0/1 sequence padded
  with ones up to the power of two is sorted by the merge sort model, and the
  padding stays at the end because every pair compares an earlier index with a
  later one. Descending order is ascending order on the negated values.
 */
module Sortedness {
  import opened Values
  import opened Utils
  import opened Network
  import opened MergeModel
  import opened Simulation

  predicate Descending(s: seq<int>)
  {
    forall i, j :: 0 <= i < j < |s| ==> s[i] >= s[j]
  }

  /** Ordered in the direction `asc` asks for. */
  predicate Ordered(s: seq<int>, asc: bool)
  {
    if asc then Ascending(s) else Descending(s)
  }

  /** The 0/1 view of `x` at threshold `t`. */
  function Thr(x: int, t: int): int
  {
    if x < t then 0 else 1
  }

  function Threshold(s: seq<int>, t: int): (b: seq<int>)
    ensures |b| == |s|
  {
    seq(|s|, k requires 0 <= k < |s| => Thr(s[k], t))
  }

  lemma ThresholdBinary(s: seq<int>, t: int)
    ensures Binary(Threshold(s, t))
  {
  }

  /** A threshold commutes with one compare-exchange, in either direction. */
  lemma ThresholdExchange(s: seq<int>, asc: bool, p: Pair, t: int)
    ensures Threshold(Exchange(s, asc, p), t) == Exchange(Threshold(s, t), asc, p)
  {
    var (i, j) := p;
    if i < |s| && j < |s| {
      var l, r := Threshold(Exchange(s, asc, p), t), Exchange(Threshold(s, t), asc, p);
      assert Threshold(s, t)[i] == Thr(s[i], t) && Threshold(s, t)[j] == Thr(s[j], t);
      forall k | 0 <= k < |s|
        ensures l[k] == r[k]
      {
      }
    }
  }

  /** A threshold commutes with a whole run. */
  lemma {:induction false} ThresholdRun(s: seq<int>, asc: bool, ps: seq<Pair>, t: int)
    ensures Threshold(Run(s, asc, ps), t) == Run(Threshold(s, t), asc, ps)
    decreases |ps|
  {
    if ps != [] {
      ThresholdExchange(s, asc, ps[0], t);
      ThresholdRun(Exchange(s, asc, ps[0]), asc, ps[1..], t);
    }
  }

  function Ones(k: nat): (o: seq<int>)
    ensures |o| == k
  {
    seq(k, _ => 1)
  }

  lemma ExchangeBinary(b: seq<int>, asc: bool, p: Pair)
    requires Binary(b)
    ensures Binary(Exchange(b, asc, p))
  {
  }

  /** An ascending exchange of an earlier with a later index leaves a padding of ones alone. */
  lemma PadExchange(b: seq<int>, k: nat, p: Pair)
    requires Binary(b) && p.0 < p.1
    ensures Exchange(b + Ones(k), true, p) == Exchange(b, true, p) + Ones(k)
  {
    var (i, j) := p;
    var w := b + Ones(k);
    if j < |b| {
      assert w[i] == b[i] && w[j] == b[j];
      var l, r := Exchange(w, true, p), Exchange(b, true, p) + Ones(k);
      forall q | 0 <= q < |w|
        ensures l[q] == r[q]
      {
      }
    } else if j < |w| {
      assert w[j] == 1;
      if i < |b| {
        assert w[i] == b[i];
      }
      assert Exchange(w, true, p) == w;
    }
  }

  /** Running a forward schedule on a 0/1 sequence padded with ones keeps the padding at the end. */
  lemma {:induction false} PadRun(b: seq<int>, k: nat, ps: seq<Pair>)
    requires Binary(b) && Forward(ps)
    ensures Run(b + Ones(k), true, ps) == Run(b, true, ps) + Ones(k)
    decreases |ps|
  {
    if ps != [] {
      PadExchange(b, k, ps[0]);
      ExchangeBinary(b, true, ps[0]);
      PadRun(Exchange(b, true, ps[0]), k, ps[1..]);
    }
  }

  lemma AscendingPrefix(a: seq<int>, c: seq<int>)
    requires Ascending(a + c)
    ensures Ascending(a)
  {
    forall i, j | 0 <= i < j < |a|
      ensures a[i] <= a[j]
    {
      assert (a + c)[i] == a[i] && (a + c)[j] == a[j];
    }
  }

  lemma PadBinary(b: seq<int>, k: nat)
    requires Binary(b)
    ensures Binary(b + Ones(k))
  {
  }

  /** The padded 0/1 sequence is sorted by the network. */
  lemma PaddedBinarySorted(w: seq<int>)
    requires Binary(w) && IsPowerOfTwo(|w|)
    ensures Ascending(Run(w, true, SortPairs(0, |w|)))
  {
    SortSim(w, 0, |w|);
    assert w[0..|w|] == w;
    assert Run(w, true, SortPairs(0, |w|))[0..|w|] == Run(w, true, SortPairs(0, |w|));
    SortSeqBinary(w);
    StepAscending(|w|, Zeros(w));
  }

  /** The 0-1 case: every 0/1 sequence is sorted ascending by the padded network. */
  lemma BinarySorted(b: seq<int>)
    requires Binary(b)
    ensures Ascending(Run(b, true, SortPairs(0, PaddedSize(|b|))))
  {
    var p := PaddedSize(|b|);
    PaddedSizeSpec(|b|);
    var k := p - |b|;
    var ps := SortPairs(0, p);
    var w := b + Ones(k);
    assert |w| == p;
    PadBinary(b, k);
    PaddedBinarySorted(w);
    assert Ascending(Run(w, true, ps));
    SortPairsForward(0, p);
    PadRun(b, k, ps);
    AscendingPrefix(Run(b, true, ps), Ones(k));
  }

  /** `odd_even_sort` over the padded length sorts ascending. */
  lemma SortAscending(s: seq<int>)
    ensures Ascending(Run(s, true, SortPairs(0, PaddedSize(|s|))))
  {
    var ps := SortPairs(0, PaddedSize(|s|));
    var out := Run(s, true, ps);
    forall i, j | 0 <= i < j < |out|
      ensures out[i] <= out[j]
    {
      var t := out[i];
      ThresholdRun(s, true, ps, t);
      ThresholdBinary(s, t);
      BinarySorted(Threshold(s, t));
      ThresholdAscending(out, i, j);
    }
  }

  /** If the threshold at `out[i]` is sorted, nothing after `i` is smaller than `out[i]`. */
  lemma ThresholdAscending(out: seq<int>, i: nat, j: nat)
    requires i < j < |out| && Ascending(Threshold(out, out[i]))
    ensures out[i] <= out[j]
  {
    assert Threshold(out, out[i])[i] == 1;
    assert Threshold(out, out[i])[j] == Thr(out[j], out[i]);
  }

  function Neg(s: seq<int>): (n: seq<int>)
    ensures |n| == |s|
  {
    seq(|s|, k requires 0 <= k < |s| => -s[k])
  }

  lemma NegNeg(s: seq<int>)
    ensures Neg(Neg(s)) == s
  {
  }

  /** A descending exchange is the ascending one on the negated values. */
  lemma NegExchange(s: seq<int>, p: Pair)
    ensures Exchange(s, false, p) == Neg(Exchange(Neg(s), true, p))
  {
    var (i, j) := p;
    if i < |s| && j < |s| {
      var l, r := Exchange(s, false, p), Neg(Exchange(Neg(s), true, p));
      forall q | 0 <= q < |s|
        ensures l[q] == r[q]
      {
      }
    } else {
      NegNeg(s);
    }
  }

  lemma {:induction false} NegRun(s: seq<int>, ps: seq<Pair>)
    ensures Run(s, false, ps) == Neg(Run(Neg(s), true, ps))
    decreases |ps|
  {
    if ps == [] {
      NegNeg(s);
    } else {
      NegExchange(s, ps[0]);
      NegRun(Exchange(s, false, ps[0]), ps[1..]);
      NegNeg(Exchange(Neg(s), true, ps[0]));
    }
  }

  lemma NegAscending(s: seq<int>)
    requires Ascending(s)
    ensures Descending(Neg(s))
  {
  }

  /** `odd_even_sort` over the padded length sorts descending. */
  lemma SortDescending(s: seq<int>)
    ensures Descending(Run(s, false, SortPairs(0, PaddedSize(|s|))))
  {
    var ps := SortPairs(0, PaddedSize(|s|));
    NegRun(s, ps);
    SortAscending(Neg(s));
    NegAscending(Run(Neg(s), true, ps));
  }

  /**
    The scalar sort: over the padded length, the network orders the values in
    the requested direction and permutes them.
   */
  lemma SortOrdered(s: seq<int>, asc: bool)
    ensures Ordered(Run(s, asc, SortPairs(0, PaddedSize(|s|))), asc)
    ensures multiset(Run(s, asc, SortPairs(0, PaddedSize(|s|)))) == multiset(s)
  {
    if asc {
      SortAscending(s);
    } else {
      SortDescending(s);
    }
    RunPermutes(s, asc, SortPairs(0, PaddedSize(|s|)));
  }

  /**
    The row sort: the key column of the result is ordered, and the rows are a
    permutation of the input rows.
   */
  lemma SortRowsOrdered(rows: seq<seq<Value>>, key: nat, asc: bool)
    requires Keyed(rows, key)
    ensures Ordered(Keys(RunRows(rows, key, asc, SortPairs(0, PaddedSize(|rows|))), key), asc)
    ensures multiset(RunRows(rows, key, asc, SortPairs(0, PaddedSize(|rows|)))) == multiset(rows)
  {
    var ps := SortPairs(0, PaddedSize(|rows|));
    RunRowsKeys(rows, key, asc, ps);
    SortOrdered(Keys(rows, key), asc);
    RunRowsPermutes(rows, key, asc, ps);
  }

  /** Two ordered sequences with the same elements are equal: the sorted order is unique. */
  lemma {:induction false} OrderedUnique(a: seq<int>, b: seq<int>, asc: bool)
    requires Ordered(a, asc) && Ordered(b, asc) && multiset(a) == multiset(b)
    ensures a == b
    decreases |a|
  {
    assert |a| == |multiset(a)| == |multiset(b)| == |b|;
    if |a| > 0 {
      assert a[0] in multiset(b) && b[0] in multiset(a);
      var ka :| 0 <= ka < |a| && a[ka] == b[0];
      var kb :| 0 <= kb < |b| && b[kb] == a[0];
      assert a[0] == b[0] by {
        if asc {
          assert a[0] <= a[ka] && b[0] <= b[kb];
        } else {
          assert a[0] >= a[ka] && b[0] >= b[kb];
        }
      }
      assert multiset(a) == multiset{a[0]} + multiset(a[1..]) by {
        assert a == [a[0]] + a[1..];
      }
      assert multiset(b) == multiset{b[0]} + multiset(b[1..]) by {
        assert b == [b[0]] + b[1..];
      }
      MultisetCancel(a[0], multiset(a[1..]), multiset(b[1..]));
      OrderedTail(a, asc);
      OrderedTail(b, asc);
      OrderedUnique(a[1..], b[1..], asc);
    }
  }

  lemma MultisetCancel(x: int, m: multiset<int>, n: multiset<int>)
    requires multiset{x} + m == multiset{x} + n
    ensures m == n
  {
    assert m == (multiset{x} + m) - multiset{x};
    assert n == (multiset{x} + n) - multiset{x};
  }

  lemma OrderedTail(a: seq<int>, asc: bool)
    requires Ordered(a, asc) && |a| > 0
    ensures Ordered(a[1..], asc)
  {
  }

  /** Each neighbour in order, in the direction `asc` asks for. */
  predicate Chained(s: seq<int>, asc: bool)
  {
    forall i :: 0 <= i < |s| - 1 ==> if asc then s[i] <= s[i + 1] else s[i] >= s[i + 1]
  }

  /** Ordered neighbours make an ordered sequence. */
  lemma {:induction false} ChainedOrdered(s: seq<int>, asc: bool)
    requires Chained(s, asc)
    ensures Ordered(s, asc)
    decreases |s|
  {
    if |s| > 1 {
      var t := s[1..];
      assert Chained(t, asc) by {
        forall i | 0 <= i < |t| - 1
          ensures if asc then t[i] <= t[i + 1] else t[i] >= t[i + 1]
        {
          assert t[i] == s[i + 1] && t[i + 1] == s[i + 2];
        }
      }
      ChainedOrdered(t, asc);
      forall i, j | 0 <= i < j < |s|
        ensures if asc then s[i] <= s[j] else s[i] >= s[j]
      {
        if i > 0 {
          assert s[i] == t[i - 1] && s[j] == t[j - 1];
        } else if j > 1 {
          assert s[1] == t[0] && s[j] == t[j - 1];
        }
      }
    }
  }

  /** The sort's result is the unique ordered permutation of its input. */
  lemma SortIsOrderedPermutation(s: seq<int>, asc: bool, sorted: seq<int>)
    requires Ordered(sorted, asc) && multiset(sorted) == multiset(s)
    ensures Run(s, asc, SortPairs(0, PaddedSize(|s|))) == sorted
  {
    SortOrdered(s, asc);
    OrderedUnique(Run(s, asc, SortPairs(0, PaddedSize(|s|))), sorted, asc);
  }

  /** The ascending test vector of `sort_nada_array`. */
  lemma SortExampleAscending(s: seq<int>, up: seq<int>)
    requires s == [5, 6, 4, 1, 3, 2] && up == [1, 2, 3, 4, 5, 6]
    ensures Run(s, true, SortPairs(0, PaddedSize(|s|))) == up
  {
    SameElements(up, s);
    OrderedSix(up, true);
    SortIsOrderedPermutation(s, true, up);
  }

  /** The descending test vector of `sort_nada_array`. */
  lemma SortExampleDescending(s: seq<int>, down: seq<int>)
    requires s == [5, 6, 4, 1, 3, 2] && down == [6, 5, 4, 3, 2, 1]
    ensures Run(s, false, SortPairs(0, PaddedSize(|s|))) == down
  {
    SameElements(down, s);
    OrderedSix(down, false);
    SortIsOrderedPermutation(s, false, down);
  }

  /** Sorting the concatenation of `[1, 2, 3]` and `[2, 3, 4]` upwards. */
  lemma SortConcatAscending(a: seq<int>, b: seq<int>, up: seq<int>)
    requires a == [1, 2, 3] && b == [2, 3, 4] && up == [1, 2, 2, 3, 3, 4]
    ensures Run(a + b, true, SortPairs(0, PaddedSize(|a + b|))) == up
  {
    ConcatLiteral(a, b, a + b);
    SortRepeatsAscending(a + b, up);
  }

  /** Sorting the concatenation of `[1, 2, 3]` and `[2, 3, 4]` downwards. */
  lemma SortConcatDescending(a: seq<int>, b: seq<int>, down: seq<int>)
    requires a == [1, 2, 3] && b == [2, 3, 4] && down == [4, 3, 3, 2, 2, 1]
    ensures Run(a + b, false, SortPairs(0, PaddedSize(|a + b|))) == down
  {
    ConcatLiteral(a, b, a + b);
    SortRepeatsDescending(a + b, down);
  }

  lemma ConcatLiteral(a: seq<int>, b: seq<int>, c: seq<int>)
    requires a == [1, 2, 3] && b == [2, 3, 4] && c == a + b
    ensures c == [1, 2, 3, 2, 3, 4]
  {
  }

  /** Sorting a sequence with repeated elements upwards keeps the repeats. */
  lemma SortRepeatsAscending(s: seq<int>, up: seq<int>)
    requires s == [1, 2, 3, 2, 3, 4] && up == [1, 2, 2, 3, 3, 4]
    ensures Run(s, true, SortPairs(0, PaddedSize(|s|))) == up
  {
    SameElements(up, s);
    OrderedSix(up, true);
    SortIsOrderedPermutation(s, true, up);
  }

  /** Sorting a sequence with repeated elements downwards keeps the repeats. */
  lemma SortRepeatsDescending(s: seq<int>, down: seq<int>)
    requires s == [1, 2, 3, 2, 3, 4] && down == [4, 3, 3, 2, 2, 1]
    ensures Run(s, false, SortPairs(0, PaddedSize(|s|))) == down
  {
    SameElements(down, s);
    OrderedSix(down, false);
    SortIsOrderedPermutation(s, false, down);
  }

  /** Six elements whose neighbours are in order. */
  lemma OrderedSix(s: seq<int>, asc: bool)
    requires |s| == 6
    requires asc ==> s[0] <= s[1] && s[1] <= s[2] && s[2] <= s[3] && s[3] <= s[4] && s[4] <= s[5]
    requires !asc ==> s[0] >= s[1] && s[1] >= s[2] && s[2] >= s[3] && s[3] >= s[4] && s[4] >= s[5]
    ensures Ordered(s, asc)
  {
    forall i | 0 <= i < |s| - 1
      ensures if asc then s[i] <= s[i + 1] else s[i] >= s[i + 1]
    {
      if i == 0 {
      } else if i == 1 {
      } else if i == 2 {
      } else if i == 3 {
      } else {
      }
    }
    ChainedOrdered(s, asc);
  }

  /** Two six-element sequences, one a rearrangement of the other. */
  lemma SameElements(a: seq<int>, b: seq<int>)
    requires |a| == 6 && |b| == 6
    requires multiset{a[0], a[1], a[2], a[3], a[4], a[5]} == multiset{b[0], b[1], b[2], b[3], b[4], b[5]}
    ensures multiset(a) == multiset(b)
  {
    ElementsSix(a);
    ElementsSix(b);
  }

  lemma ElementsSix(a: seq<int>)
    requires |a| == 6
    ensures multiset(a) == multiset{a[0], a[1], a[2], a[3], a[4], a[5]}
  {
    assert a == [a[0], a[1], a[2], a[3], a[4], a[5]];
  }


}
