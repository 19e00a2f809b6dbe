/**
  The index schedule of the network, run on a sequence, does to the elements
  at its positions what the position-free merge model does to their values:
  `MergePairs(lo, n, r)` acts on the positions `lo, lo + r, lo + 2r, ...` below
  `lo + n`, and `SortPairs(lo, n)` on the block `[lo, lo + n)`.
 */
module Simulation {
  import opened Utils
  import opened Network
  import opened MergeModel

  /** The positions `lo, lo + r, lo + 2r, ...` below `end`. */
  function Arith(lo: nat, r: nat, end: nat): (ps: seq<nat>)
    requires r >= 1
    ensures forall k :: 0 <= k < |ps| ==> lo <= ps[k] < end
    decreases if lo < end then end - lo else 0
  {
    if lo < end then [lo] + Arith(lo + r, r, end) else []
  }

  /** Every position of `ps` is an index of a sequence of length `len`. */
  predicate InRange(ps: seq<nat>, len: nat)
  {
    forall k :: 0 <= k < |ps| ==> ps[k] < len
  }

  /** The elements of `s` at the positions `ps`. */
  function View(s: seq<int>, ps: seq<nat>): (v: seq<int>)
    requires InRange(ps, |s|)
    ensures |v| == |ps|
  {
    seq(|ps|, k requires 0 <= k < |ps| => s[ps[k]])
  }

  predicate Increasing(ps: seq<nat>)
  {
    forall a, b :: 0 <= a < b < |ps| ==> ps[a] < ps[b]
  }

  lemma {:induction false} ArithIncreasing(lo: nat, r: nat, end: nat)
    requires r >= 1
    ensures Increasing(Arith(lo, r, end))
    ensures forall k :: 0 <= k < |Arith(lo, r, end)| ==> Arith(lo, r, end)[k] >= lo + k
    decreases if lo < end then end - lo else 0
  {
    if lo < end {
      ArithIncreasing(lo + r, r, end);
    }
  }

  lemma {:induction false} ArithEvens(lo: nat, r: nat, end: nat)
    requires r >= 1
    ensures Evens(Arith(lo, r, end)) == Arith(lo, 2 * r, end)
    decreases if lo < end then end - lo else 0
  {
    var ps := Arith(lo, r, end);
    if lo < end && lo + r < end {
      assert Arith(lo + r, r, end) == [lo + r] + Arith(lo + 2 * r, r, end);
      assert ps[2..] == Arith(lo + 2 * r, r, end);
      ArithEvens(lo + 2 * r, r, end);
    }
  }

  lemma {:induction false} ArithOdds(lo: nat, r: nat, end: nat)
    requires r >= 1
    ensures Odds(Arith(lo, r, end)) == Arith(lo + r, 2 * r, end)
    decreases if lo < end then end - lo else 0
  {
    var ps := Arith(lo, r, end);
    if lo < end && lo + r < end {
      assert Arith(lo + r, r, end) == [lo + r] + Arith(lo + 2 * r, r, end);
      assert ps[2..] == Arith(lo + 2 * r, r, end);
      ArithOdds(lo + 2 * r, r, end);
    }
  }

  lemma {:induction false} ArithUnit(lo: nat, end: nat)
    requires lo <= end
    ensures Arith(lo, 1, end) == seq(end - lo, k => lo + k)
    decreases end - lo
  {
    if lo < end {
      ArithUnit(lo + 1, end);
    }
  }

  lemma ViewEvens(s: seq<int>, ps: seq<nat>)
    requires InRange(ps, |s|)
    ensures InRange(Evens(ps), |s|)
    ensures View(s, Evens(ps)) == Evens(View(s, ps))
  {
    var v := View(s, ps);
    EvensAt(ps);
    EvensAt(v);
    var ve, ev := View(s, Evens(ps)), Evens(v);
    forall t | 0 <= t < |ve|
      ensures ve[t] == ev[t]
    {
      assert ve[t] == s[ps[2 * t]];
      assert ev[t] == v[2 * t];
    }
  }

  lemma ViewOdds(s: seq<int>, ps: seq<nat>)
    requires InRange(ps, |s|)
    ensures InRange(Odds(ps), |s|)
    ensures View(s, Odds(ps)) == Odds(View(s, ps))
  {
    var v := View(s, ps);
    OddsAt(ps);
    OddsAt(v);
    var vo, od := View(s, Odds(ps)), Odds(v);
    forall t | 0 <= t < |vo|
      ensures vo[t] == od[t]
    {
      assert vo[t] == s[ps[2 * t + 1]];
      assert od[t] == v[2 * t + 1];
    }
  }

  /** Outside the positions `ps`, `t` agrees with `s`. */
  predicate AgreeOff(s: seq<int>, t: seq<int>, ps: seq<nat>)
  {
    |s| == |t| && forall q :: 0 <= q < |s| && q !in ps ==> s[q] == t[q]
  }

  /** Every pair of `sch` compares two of the positions `ps`. */
  predicate Inside(sch: seq<Pair>, ps: seq<nat>)
  {
    forall k :: 0 <= k < |sch| ==> sch[k].0 in ps && sch[k].1 in ps
  }

  /** A run leaves every position that no pair mentions as it was. */
  lemma {:induction false} RunAgreeOff(s: seq<int>, asc: bool, sch: seq<Pair>, ps: seq<nat>)
    requires Inside(sch, ps)
    ensures AgreeOff(s, Run(s, asc, sch), ps)
    decreases |sch|
  {
    if sch != [] {
      RunAgreeOff(Exchange(s, asc, sch[0]), asc, sch[1..], ps);
    }
  }

  /** A run leaves a position that no pair mentions as it was. */
  lemma RunKeeps(s: seq<int>, asc: bool, sch: seq<Pair>, ps: seq<nat>, q: nat)
    requires Inside(sch, ps) && q < |s| && q !in ps
    ensures Run(s, asc, sch)[q] == s[q]
  {
    RunAgreeOff(s, asc, sch, ps);
  }

  /** The stride from `start = lo + r` in steps of `m = 2r` compares positions among `lo, lo + r, ...`. */
  lemma {:induction false} StrideInside(lo: nat, start: nat, r: nat, m: nat, end: nat)
    requires r >= 1 && start == lo + r && m == 2 * r
    ensures Inside(Stride(start, end, r, m), Arith(lo, r, end))
    decreases if lo < end then end - lo else 0
  {
    if start + r < end {
      var qs := Arith(lo + 2 * r, r, end);
      assert Arith(lo + r, r, end) == [lo + r] + qs;
      assert Arith(lo, r, end) == [lo, lo + r] + qs;
      StrideInside(lo + 2 * r, start + m, r, m, end);
      assert qs[0] == lo + 2 * r;
    }
  }

  /** The fix-up stride acts on the positions `lo, lo + r, ...` as `FixSeq` on their values. */
  lemma {:induction false} StrideSim(s: seq<int>, lo: nat, r: nat, end: nat)
    requires r >= 1 && InRange(Arith(lo, r, end), |s|)
    ensures View(Run(s, true, Stride(lo + r, end, r, 2 * r)), Arith(lo, r, end))
      == FixSeq(View(s, Arith(lo, r, end)))
    decreases if lo < end then end - lo else 0
  {
    if lo + 2 * r < end {
      var lo2 := lo + 2 * r;
      var s' := Exchange(s, true, (lo + r, lo2));
      ArithTailInRange(lo, r, end, |s|);
      StrideSim(s', lo2, r, end);
      StrideSimStep(s, lo, r, end, lo2);
    } else {
      assert Stride(lo + r, end, r, 2 * r) == [];
    }
  }

  /** One step of `StrideSim`: the first exchange, then the rest of the stride. */
  lemma StrideSimStep(s: seq<int>, lo: nat, r: nat, end: nat, lo2: nat)
    requires r >= 1 && InRange(Arith(lo, r, end), |s|) && lo2 == lo + 2 * r && lo2 < end
    requires InRange(Arith(lo2, r, end), |s|)
    requires
      var s' := Exchange(s, true, (lo + r, lo2));
      View(Run(s', true, Stride(lo2 + r, end, r, 2 * r)), Arith(lo2, r, end))
        == FixSeq(View(s', Arith(lo2, r, end)))
    ensures View(Run(s, true, Stride(lo + r, end, r, 2 * r)), Arith(lo, r, end))
      == FixSeq(View(s, Arith(lo, r, end)))
  {
    var ps, qs := Arith(lo, r, end), Arith(lo2, r, end);
    var w := View(s, ps);
    var s' := Exchange(s, true, (lo + r, lo2));
    var out := Run(s', true, Stride(lo2 + r, end, r, 2 * r));
    ArithTailInRange(lo, r, end, |s|);
    ArithUnfold(lo, r, end);
    assert Run(s, true, Stride(lo + r, end, r, 2 * r)) == out by {
      RunStrideUnfold(s, lo, r, end);
    }
    assert View(out, qs) == FixSeq([Upper(w[1], w[2])] + w[3..]) by {
      ExchangedView(s, lo, r, end);
    }
    assert out[lo] == w[0] && out[lo + r] == Lower(w[1], w[2]) by {
      StrideKeepsHead(s', lo, r, end);
      ExchangeLowerAt(s, lo, lo + r, lo + 2 * r);
      assert ps[0] == lo && ps[1] == lo + r && ps[2] == lo + 2 * r;
    }
    var head := [out[lo], out[lo + r]];
    assert head == [w[0], Lower(w[1], w[2])];
    calc {
      View(out, ps);
      View(out, [lo, lo + r] + qs);
      { ViewCons2(out, lo, lo + r, qs); }
      head + View(out, qs);
      [w[0], Lower(w[1], w[2])] + FixSeq([Upper(w[1], w[2])] + w[3..]);
      { FixSeqUnfold(w); }
      FixSeq(w);
    }
  }

  /** The rest of the stride leaves the first two positions as they were. */
  lemma StrideKeepsHead(s: seq<int>, lo: nat, r: nat, end: nat)
    requires r >= 1 && lo + 2 * r < end && InRange(Arith(lo, r, end), |s|)
    ensures lo + 2 * r < |s|
    ensures
      var out := Run(s, true, Stride(lo + 2 * r + r, end, r, 2 * r));
      out[lo] == s[lo] && out[lo + r] == s[lo + r]
  {
    ArithHeadApart(s, lo, r, end);
    StrideKeepsPair(s, lo, r, end);
  }

  /** The first two positions are in range and not among the positions after them. */
  lemma ArithHeadApart(s: seq<int>, lo: nat, r: nat, end: nat)
    requires r >= 1 && lo + 2 * r < end && InRange(Arith(lo, r, end), |s|)
    ensures lo + 2 * r < |s|
    ensures lo !in Arith(lo + 2 * r, r, end) && lo + r !in Arith(lo + 2 * r, r, end)
  {
    ArithTailInRange(lo, r, end, |s|);
    ArithIncreasing(lo + 2 * r, r, end);
  }

  lemma StrideKeepsPair(s: seq<int>, lo: nat, r: nat, end: nat)
    requires r >= 1 && lo + 2 * r < end && lo + 2 * r < |s|
    requires lo !in Arith(lo + 2 * r, r, end) && lo + r !in Arith(lo + 2 * r, r, end)
    ensures
      var out := Run(s, true, Stride(lo + 2 * r + r, end, r, 2 * r));
      out[lo] == s[lo] && out[lo + r] == s[lo + r]
  {
    StrideKeeps(s, lo + 2 * r, lo + 2 * r + r, r, 2 * r, end, lo);
    StrideKeeps(s, lo + 2 * r, lo + 2 * r + r, r, 2 * r, end, lo + r);
  }

  /** A stride from `start = lo + r` leaves a position outside `lo, lo + r, ...` as it was. */
  lemma StrideKeeps(s: seq<int>, lo: nat, start: nat, r: nat, m: nat, end: nat, q: nat)
    requires r >= 1 && start == lo + r && m == 2 * r && q < |s| && q !in Arith(lo, r, end)
    ensures Run(s, true, Stride(start, end, r, m))[q] == s[q]
  {
    StrideInside(lo, start, r, m, end);
    RunKeeps(s, true, Stride(start, end, r, m), Arith(lo, r, end), q);
  }

  /** An ascending compare-exchange of `i < j` puts the smaller value at `i` and leaves `q < i` alone. */
  lemma ExchangeLowerAt(s: seq<int>, q: nat, i: nat, j: nat)
    requires q < i < j < |s|
    ensures Exchange(s, true, (i, j))[q] == s[q]
    ensures Exchange(s, true, (i, j))[i] == Lower(s[i], s[j])
  {
  }

  lemma FixSeqUnfold(w: seq<int>)
    requires |w| >= 3
    ensures FixSeq(w) == [w[0], Lower(w[1], w[2])] + FixSeq([Upper(w[1], w[2])] + w[3..])
  {
  }

  lemma ArithUnfold(lo: nat, r: nat, end: nat)
    requires r >= 1 && lo + 2 * r < end
    ensures Arith(lo, r, end) == [lo, lo + r] + Arith(lo + 2 * r, r, end)
  {
    assert Arith(lo + r, r, end) == [lo + r] + Arith(lo + 2 * r, r, end);
  }

  /** When all positions are in range, so are the first three and the tail after the first two. */
  lemma ArithTailInRange(lo: nat, r: nat, end: nat, len: nat)
    requires r >= 1 && lo + 2 * r < end && InRange(Arith(lo, r, end), len)
    ensures lo + 2 * r < len && InRange(Arith(lo + 2 * r, r, end), len)
  {
    var ps, qs := Arith(lo, r, end), Arith(lo + 2 * r, r, end);
    ArithUnfold(lo, r, end);
    assert ps[2] == lo + 2 * r;
    forall k | 0 <= k < |qs|
      ensures qs[k] < len
    {
      assert qs[k] == ps[k + 2];
    }
  }

  lemma RunStrideUnfold(s: seq<int>, lo: nat, r: nat, end: nat)
    requires r >= 1 && lo + 2 * r < end
    ensures Run(s, true, Stride(lo + r, end, r, 2 * r))
      == Run(Exchange(s, true, (lo + r, lo + 2 * r)), true, Stride(lo + 2 * r + r, end, r, 2 * r))
  {
    var rest := Stride(lo + 2 * r + r, end, r, 2 * r);
    assert Stride(lo + r, end, r, 2 * r) == [(lo + r, lo + 2 * r)] + rest;
    assert ([(lo + r, lo + 2 * r)] + rest)[1..] == rest;
  }

  /** After the first exchange, the remaining positions hold the carried maximum and the untouched tail. */
  lemma ExchangedView(s: seq<int>, lo: nat, r: nat, end: nat)
    requires r >= 1 && InRange(Arith(lo, r, end), |s|) && lo + 2 * r < end
    requires InRange(Arith(lo + 2 * r, r, end), |s|)
    ensures
      var w := View(s, Arith(lo, r, end));
      |w| >= 3 &&
      View(Exchange(s, true, (lo + r, lo + 2 * r)), Arith(lo + 2 * r, r, end))
        == [Upper(w[1], w[2])] + w[3..]
  {
    var i, j := lo + r, lo + 2 * r;
    var qs := Arith(j, r, end);
    ArithUnfold(lo, r, end);
    ArithTailInRange(lo, r, end, |s|);
    assert qs == [j] + Arith(j + r, r, end);
    assert forall k :: 1 <= k < |qs| ==> qs[k] > j by {
      ArithIncreasing(j, r, end);
    }
    var w, vq := View(s, Arith(lo, r, end)), View(s, qs);
    assert w == [s[lo], s[i]] + vq by {
      ViewCons2(s, lo, i, qs);
    }
    assert w[1] == s[i] && w[2] == vq[0] == s[j];
    assert w[3..] == vq[1..];
    ViewAfterExchange(s, i, j, qs);
  }

  /**
    A compare-exchange of `i < j`, seen from positions that start at `j` and
    then avoid both: the larger of the two comes first, the rest is unchanged.
   */
  lemma ViewAfterExchange(s: seq<int>, i: nat, j: nat, qs: seq<nat>)
    requires i < j < |s| && InRange(qs, |s|) && |qs| >= 1 && qs[0] == j
    requires forall k :: 1 <= k < |qs| ==> qs[k] > j
    ensures View(Exchange(s, true, (i, j)), qs) == [Upper(s[i], s[j])] + View(s, qs)[1..]
  {
    var t := Exchange(s, true, (i, j));
    assert t == s[i := Lower(s[i], s[j])][j := Upper(s[i], s[j])];
    var u := [Upper(s[i], s[j])] + View(s, qs)[1..];
    forall k | 0 <= k < |qs|
      ensures View(t, qs)[k] == u[k]
    {
      if k > 0 {
        assert qs[k] != i && qs[k] != j;
      }
    }
  }

  lemma ViewCons2(t: seq<int>, a: nat, b: nat, qs: seq<nat>)
    requires a < |t| && b < |t| && InRange(qs, |t|)
    ensures View(t, [a, b] + qs) == [t[a], t[b]] + View(t, qs)
  {
  }

  // ---------------------------------------------------------------------------
  // The merge and the sort
  // ---------------------------------------------------------------------------

  /** `end` is reached from `lo` in steps of `m`. */
  predicate Aligned(lo: nat, m: nat, end: nat)
    requires m >= 1
    decreases if lo < end then end - lo else 0
  {
    lo == end || (lo < end && Aligned(lo + m, m, end))
  }

  lemma {:induction false} AlignedUnit(lo: nat, end: nat)
    requires lo <= end
    ensures Aligned(lo, 1, end)
    decreases end - lo
  {
    if lo < end {
      AlignedUnit(lo + 1, end);
    }
  }

  lemma {:induction false} AlignedShift(lo: nat, m: nat, end: nat, d: nat)
    requires m >= 1 && Aligned(lo, m, end)
    ensures Aligned(lo + d, m, end + d)
    decreases if lo < end then end - lo else 0
  {
    if lo < end {
      AlignedShift(lo + m, m, end, d);
    }
  }

  /** An even number of steps of `m` is a whole number of steps of `2m`. */
  lemma {:induction false} AlignedDouble(lo: nat, m: nat, end: nat)
    requires m >= 1 && Aligned(lo, m, end) && |Arith(lo, m, end)| % 2 == 0
    ensures Aligned(lo, 2 * m, end)
    decreases if lo < end then end - lo else 0
  {
    if lo < end {
      assert Aligned(lo + m, m, end);
      assert lo + m < end;
      assert Arith(lo + m, m, end) == [lo + m] + Arith(lo + 2 * m, m, end);
      AlignedDouble(lo + 2 * m, m, end);
    }
  }

  /** Moving the end by less than one step, short of an aligned end, changes no position. */
  lemma {:induction false} ArithAlignedEnd(lo: nat, m: nat, end: nat, e: nat)
    requires m >= 1 && Aligned(lo, m, end) && e <= end < e + m
    ensures Arith(lo, m, e) == Arith(lo, m, end)
    decreases if lo < end then end - lo else 0
  {
    if lo < end {
      ArithAlignedEnd(lo + m, m, end, e);
    }
  }

  lemma EvensOddsApart(ps: seq<nat>)
    requires Increasing(ps)
    ensures forall q :: q in Evens(ps) ==> q !in Odds(ps)
    ensures forall q :: q in Evens(ps) ==> q in ps
    ensures forall q :: q in Odds(ps) ==> q in ps
  {
    EvensAt(ps);
    OddsAt(ps);
    forall q | q in Evens(ps)
      ensures q !in Odds(ps) && q in ps
    {
      var a :| 0 <= a < |Evens(ps)| && Evens(ps)[a] == q;
      assert q == ps[2 * a];
      forall b | 0 <= b < |Odds(ps)|
        ensures Odds(ps)[b] != q
      {
        assert Odds(ps)[b] == ps[2 * b + 1];
      }
    }
    forall q | q in Odds(ps)
      ensures q in ps
    {
      var b :| 0 <= b < |Odds(ps)| && Odds(ps)[b] == q;
      assert q == ps[2 * b + 1];
    }
  }

  lemma InsideAppend(a: seq<Pair>, b: seq<Pair>, ps: seq<nat>)
    requires Inside(a, ps) && Inside(b, ps)
    ensures Inside(a + b, ps)
  {
  }

  lemma InsideWiden(sch: seq<Pair>, qs: seq<nat>, ps: seq<nat>)
    requires Inside(sch, qs) && forall q :: q in qs ==> q in ps
    ensures Inside(sch, ps)
  {
  }

  /** The shape under which `MergePairs(lo, n, r)` merges the positions `lo, lo + r, ...` below `lo + n`. */
  predicate MergeShape(lo: nat, n: nat, r: nat)
  {
    r >= 1 && Aligned(lo, r, lo + n) && IsPowerOfTwo(|Arith(lo, r, lo + n)|) && |Arith(lo, r, lo + n)| >= 2
  }

  /** The two sub-merges of `MergePairs(lo, n, r)` run on the even and on the odd positions. */
  lemma MergeShapeSplit(lo: nat, n: nat, r: nat)
    requires MergeShape(lo, n, r) && 2 * r < n
    ensures MergeShape(lo, n, 2 * r) && MergeShape(lo + r, n, 2 * r)
    ensures Arith(lo, 2 * r, lo + n) == Evens(Arith(lo, r, lo + n))
    ensures Arith(lo + r, 2 * r, lo + r + n) == Odds(Arith(lo, r, lo + n))
    ensures |Arith(lo, r, lo + n)| > 2
  {
    var ps := Arith(lo, r, lo + n);
    var m := 2 * r;
    ArithUnfold(lo, r, lo + n);
    assert |ps| >= 3;
    PowerOfTwoHalves(|ps|);
    ArithEvens(lo, r, lo + n);
    AlignedDouble(lo, r, lo + n);
    AlignedShift(lo, m, lo + n, r);
    OddsShifted(lo, r, n, m);
    assert |Arith(lo, m, lo + n)| == |ps| / 2;
  }

  /** The odd positions of `Arith(lo, r, lo + n)` are the doubled progression from `lo + r`. */
  lemma OddsShifted(lo: nat, r: nat, n: nat, m: nat)
    requires r >= 1 && m == 2 * r && Aligned(lo + r, m, lo + r + n)
    ensures Arith(lo + r, m, lo + r + n) == Odds(Arith(lo, r, lo + n))
  {
    ArithOdds(lo, r, lo + n);
    ArithAlignedEnd(lo + r, m, lo + r + n, lo + n);
  }

  /** A power of two above two is even, and its half is a power of two of at least two. */
  lemma PowerOfTwoHalves(p: nat)
    requires IsPowerOfTwo(p) && p >= 3
    ensures p % 2 == 0 && IsPowerOfTwo(p / 2) && p / 2 >= 2
  {
  }

  lemma {:induction false} MergePairsInside(lo: nat, n: nat, r: nat)
    requires MergeShape(lo, n, r)
    ensures Inside(MergePairs(lo, n, r), Arith(lo, r, lo + n))
    decreases n - r
  {
    if 2 * r < n {
      var r2 := 2 * r;
      MergeShapeSplit(lo, n, r);
      assert MergeShape(lo, n, r2) && MergeShape(lo + r, n, r2);
      MergePairsInside(lo, n, r2);
      MergePairsInside(lo + r, n, r2);
      MergePairsInsideStep(lo, n, r);
    } else {
      ArithBase(lo, n, r);
    }
  }

  lemma MergePairsInsideStep(lo: nat, n: nat, r: nat)
    requires MergeShape(lo, n, r) && 2 * r < n
    requires Arith(lo, 2 * r, lo + n) == Evens(Arith(lo, r, lo + n))
    requires Arith(lo + r, 2 * r, lo + r + n) == Odds(Arith(lo, r, lo + n))
    requires Inside(MergePairs(lo, n, 2 * r), Arith(lo, 2 * r, lo + n))
    requires Inside(MergePairs(lo + r, n, 2 * r), Arith(lo + r, 2 * r, lo + r + n))
    ensures Inside(MergePairs(lo, n, r), Arith(lo, r, lo + n))
  {
    var ps := Arith(lo, r, lo + n);
    var first, second := MergePairs(lo, n, 2 * r), MergePairs(lo + r, n, 2 * r);
    var fix := Stride(lo + r, lo + n, r, 2 * r);
    assert Inside(first, ps) && Inside(second, ps) by {
      ArithIncreasing(lo, r, lo + n);
      EvensOddsApart(ps);
      InsideWiden(first, Evens(ps), ps);
      InsideWiden(second, Odds(ps), ps);
    }
    assert Inside(fix, ps) by {
      StrideInside(lo, lo + r, r, 2 * r, lo + n);
    }
    InsideAppend(first, second, ps);
    InsideAppend(first + second, fix, ps);
  }

  /** The two sub-merges of `MergePairs(lo, n, r)` compare even positions only, and odd positions only. */
  lemma MergeHalvesInside(lo: nat, n: nat, r: nat)
    requires MergeShape(lo, n, r) && 2 * r < n
    ensures Inside(MergePairs(lo, n, 2 * r), Evens(Arith(lo, r, lo + n)))
    ensures Inside(MergePairs(lo + r, n, 2 * r), Odds(Arith(lo, r, lo + n)))
  {
    MergeShapeSplit(lo, n, r);
    MergePairsInside(lo, n, 2 * r);
    MergePairsInside(lo + r, n, 2 * r);
  }

  /** When a single comparison is left, the positions are `lo` and `lo + r`. */
  lemma ArithBase(lo: nat, n: nat, r: nat)
    requires r >= 1 && |Arith(lo, r, lo + n)| >= 2 && n <= 2 * r
    ensures Arith(lo, r, lo + n) == [lo, lo + r]
  {
    assert lo < lo + n;
    assert |Arith(lo + r, r, lo + n)| >= 1;
    assert Arith(lo + 2 * r, r, lo + n) == [];
    assert Arith(lo + r, r, lo + n) == [lo + r];
  }

  /** The positions `[lo, end)` in steps of one are exactly the numbers in that range. */
  lemma ArithUnitMember(lo: nat, end: nat)
    requires lo <= end
    ensures forall q :: q in Arith(lo, 1, end) <==> lo <= q < end
  {
    ArithUnit(lo, end);
    forall q | lo <= q < end
      ensures q in Arith(lo, 1, end)
    {
      assert Arith(lo, 1, end)[q - lo] == q;
    }
  }

  /** The even and the odd positions of a merge are within range when all its positions are. */
  lemma MergeShapeInRange(lo: nat, n: nat, r: nat, len: nat)
    requires MergeShape(lo, n, r) && 2 * r < n && InRange(Arith(lo, r, lo + n), len)
    ensures InRange(Arith(lo, 2 * r, lo + n), len) && InRange(Arith(lo + r, 2 * r, lo + r + n), len)
  {
    var ps := Arith(lo, r, lo + n);
    MergeShapeSplit(lo, n, r);
    EvensAt(ps);
    OddsAt(ps);
  }

  /**
    `MergePairs(lo, n, r)` does to the elements at `lo, lo + r, ...` what the
    position-free merge does to their values.
   */
  lemma {:induction false} MergeSim(s: seq<int>, lo: nat, n: nat, r: nat)
    requires MergeShape(lo, n, r) && InRange(Arith(lo, r, lo + n), |s|)
    ensures View(Run(s, true, MergePairs(lo, n, r)), Arith(lo, r, lo + n))
      == MergeSeq(View(s, Arith(lo, r, lo + n)))
    decreases n - r, 2
  {
    if 2 * r < n {
      var ps := Arith(lo, r, lo + n);
      var s2 := Run(Run(s, true, MergePairs(lo, n, 2 * r)), true, MergePairs(lo + r, n, 2 * r));
      MergeSimHalves(s, lo, n, r);
      MergeCombine(View(s, ps), View(s2, ps));
      MergeSimClose(s, s2, lo, n, r);
    } else {
      ArithBase(lo, n, r);
    }
  }

  /**
    The two sub-merges of `MergePairs(lo, n, r)` leave the merge of the even
    positions on the even positions and that of the odd ones on the odd ones.
   */
  lemma {:induction false} MergeSimHalves(s: seq<int>, lo: nat, n: nat, r: nat)
    requires MergeShape(lo, n, r) && 2 * r < n && InRange(Arith(lo, r, lo + n), |s|)
    ensures |Arith(lo, r, lo + n)| > 2
    ensures
      var ps := Arith(lo, r, lo + n);
      var s2 := Run(Run(s, true, MergePairs(lo, n, 2 * r)), true, MergePairs(lo + r, n, 2 * r));
      && InRange(ps, |s2|)
      && Evens(View(s2, ps)) == MergeSeq(Evens(View(s, ps)))
      && Odds(View(s2, ps)) == MergeSeq(Odds(View(s, ps)))
    decreases n - r, 1
  {
    var ps := Arith(lo, r, lo + n);
    var es, os := Evens(ps), Odds(ps);
    var s1 := Run(s, true, MergePairs(lo, n, 2 * r));
    var s2 := Run(s1, true, MergePairs(lo + r, n, 2 * r));
    MergeSimEvens(s, lo, n, r);
    MergeSimOdds(s1, lo, n, r);
    MergeHalvesFrame(s, lo, n, r);
    MergeHalvesFrame(s1, lo, n, r);
    ViewEvens(s, ps);
    ViewOdds(s, ps);
    ViewEvens(s2, ps);
    ViewOdds(s2, ps);
  }

  /** The sub-merge on the even positions merges them (the induction step of `MergeSim`). */
  lemma {:induction false} MergeSimEvens(s: seq<int>, lo: nat, n: nat, r: nat)
    requires MergeShape(lo, n, r) && 2 * r < n && InRange(Arith(lo, r, lo + n), |s|)
    ensures |Arith(lo, r, lo + n)| > 2
    ensures InRange(Evens(Arith(lo, r, lo + n)), |s|) && InRange(Odds(Arith(lo, r, lo + n)), |s|)
    ensures View(Run(s, true, MergePairs(lo, n, 2 * r)), Evens(Arith(lo, r, lo + n)))
      == MergeSeq(View(s, Evens(Arith(lo, r, lo + n))))
    decreases n - r, 0
  {
    MergeShapeSplit(lo, n, r);
    MergeShapeInRange(lo, n, r, |s|);
    MergeSim(s, lo, n, 2 * r);
  }

  /** The sub-merge on the odd positions merges them (the induction step of `MergeSim`). */
  lemma {:induction false} MergeSimOdds(s: seq<int>, lo: nat, n: nat, r: nat)
    requires MergeShape(lo, n, r) && 2 * r < n && InRange(Arith(lo, r, lo + n), |s|)
    ensures IsPowerOfTwo(|Odds(Arith(lo, r, lo + n))|) && |Odds(Arith(lo, r, lo + n))| >= 2
    ensures InRange(Odds(Arith(lo, r, lo + n)), |s|)
    ensures View(Run(s, true, MergePairs(lo + r, n, 2 * r)), Odds(Arith(lo, r, lo + n)))
      == MergeSeq(View(s, Odds(Arith(lo, r, lo + n))))
    decreases n - r, 0
  {
    MergeShapeSplit(lo, n, r);
    MergeShapeInRange(lo, n, r, |s|);
    MergeSim(s, lo + r, n, 2 * r);
  }

  /** The sub-merge on the even positions leaves the odd ones alone, and the other way round. */
  lemma MergeHalvesFrame(s: seq<int>, lo: nat, n: nat, r: nat)
    requires MergeShape(lo, n, r) && 2 * r < n && InRange(Arith(lo, r, lo + n), |s|)
    ensures InRange(Evens(Arith(lo, r, lo + n)), |s|) && InRange(Odds(Arith(lo, r, lo + n)), |s|)
    ensures View(Run(s, true, MergePairs(lo, n, 2 * r)), Odds(Arith(lo, r, lo + n)))
      == View(s, Odds(Arith(lo, r, lo + n)))
    ensures View(Run(s, true, MergePairs(lo + r, n, 2 * r)), Evens(Arith(lo, r, lo + n)))
      == View(s, Evens(Arith(lo, r, lo + n)))
  {
    var ps := Arith(lo, r, lo + n);
    MergeHalvesInside(lo, n, r);
    ArithIncreasing(lo, r, lo + n);
    EvensOddsDisjoint(ps);
    ViewEvens(s, ps);
    ViewOdds(s, ps);
    RunViewUntouched(s, true, MergePairs(lo, n, 2 * r), Evens(ps), Odds(ps));
    RunViewUntouched(s, true, MergePairs(lo + r, n, 2 * r), Odds(ps), Evens(ps));
  }

  /** Positions that a schedule does not mention are viewed alike before and after its run. */
  lemma RunViewUntouched(s: seq<int>, asc: bool, sch: seq<Pair>, qs: seq<nat>, ps: seq<nat>)
    requires Inside(sch, qs) && InRange(ps, |s|)
    requires forall k :: 0 <= k < |ps| ==> ps[k] !in qs
    ensures InRange(ps, |Run(s, asc, sch)|)
    ensures View(Run(s, asc, sch), ps) == View(s, ps)
  {
    RunAgreeOff(s, asc, sch, qs);
  }

  /** No even position of an increasing sequence is one of its odd positions. */
  lemma EvensOddsDisjoint(ps: seq<nat>)
    requires Increasing(ps)
    ensures forall k :: 0 <= k < |Evens(ps)| ==> Evens(ps)[k] !in Odds(ps)
    ensures forall k :: 0 <= k < |Odds(ps)| ==> Odds(ps)[k] !in Evens(ps)
  {
    EvensOddsApart(ps);
  }

  /**
    One level of the merge on values: when the even and the odd halves of `u`
    are the merges of those of `w`, the fix-up makes `u` the merge of `w`.
   */
  lemma MergeCombine(w: seq<int>, u: seq<int>)
    requires IsPowerOfTwo(|w|) && |w| > 2 && |u| == |w|
    requires Evens(u) == MergeSeq(Evens(w)) && Odds(u) == MergeSeq(Odds(w))
    ensures FixSeq(u) == MergeSeq(w)
  {
    InterleaveSplit(u);
    MergeUnfold(w);
  }

  /** `MergePairs(lo, n, r)`, when it splits, runs as its two sub-merges and then its stride. */
  lemma RunMergePairsUnfold(s: seq<int>, lo: nat, n: nat, r: nat)
    requires r >= 1 && 2 * r < n
    ensures Run(s, true, MergePairs(lo, n, r))
      == Run(Run(Run(s, true, MergePairs(lo, n, 2 * r)), true, MergePairs(lo + r, n, 2 * r)),
             true, Stride(lo + r, lo + n, r, 2 * r))
  {
    var first, second := MergePairs(lo, n, 2 * r), MergePairs(lo + r, n, 2 * r);
    var fix := Stride(lo + r, lo + n, r, 2 * r);
    assert MergePairs(lo, n, r) == first + second + fix;
    RunAppend(s, true, first, second);
    RunAppend(s, true, first + second, fix);
  }

  /** After its two sub-merges, `MergePairs(lo, n, r)` leaves the fix-up of what they produced. */
  lemma MergeSimClose(s: seq<int>, s2: seq<int>, lo: nat, n: nat, r: nat)
    requires r >= 1 && 2 * r < n && InRange(Arith(lo, r, lo + n), |s|)
    requires s2 == Run(Run(s, true, MergePairs(lo, n, 2 * r)), true, MergePairs(lo + r, n, 2 * r))
    ensures InRange(Arith(lo, r, lo + n), |s2|)
    ensures View(Run(s, true, MergePairs(lo, n, r)), Arith(lo, r, lo + n))
      == FixSeq(View(s2, Arith(lo, r, lo + n)))
  {
    RunMergePairsUnfold(s, lo, n, r);
    StrideSim(s2, lo, r, lo + n);
  }

  /** The positions `[lo, lo + n)` viewed from a sequence are its slice. */
  lemma ViewUnit(s: seq<int>, lo: nat, n: nat)
    requires lo + n <= |s|
    ensures InRange(Arith(lo, 1, lo + n), |s|)
    ensures View(s, Arith(lo, 1, lo + n)) == s[lo..lo + n]
  {
    ArithUnit(lo, lo + n);
  }

  lemma {:induction false} SortPairsInside(lo: nat, n: nat)
    requires IsPowerOfTwo(n)
    ensures Inside(SortPairs(lo, n), Arith(lo, 1, lo + n))
    decreases n
  {
    if n > 1 {
      var h := n / 2;
      var ps := Arith(lo, 1, lo + n);
      var left, right := SortPairs(lo, h), SortPairs(lo + h, h);
      assert Inside(left, ps) && Inside(right, ps) by {
        SortPairsInside(lo, h);
        SortPairsInside(lo + h, h);
        ArithUnitMember(lo, lo + n);
        ArithUnitMember(lo, lo + h);
        ArithUnitMember(lo + h, lo + h + h);
        InsideWiden(left, Arith(lo, 1, lo + h), ps);
        InsideWiden(right, Arith(lo + h, 1, lo + h + h), ps);
      }
      assert Inside(MergePairs(lo, n, 1), ps) by {
        AlignedUnit(lo, lo + n);
        ArithUnit(lo, lo + n);
        MergePairsInside(lo, n, 1);
      }
      InsideAppend(left, right, ps);
      InsideAppend(left + right, MergePairs(lo, n, 1), ps);
    }
  }

  /** A run of `SortPairs(lo, n)` leaves a position outside `[lo, lo + n)` as it was. */
  lemma SortPairsKeeps(s: seq<int>, asc: bool, lo: nat, n: nat, q: nat)
    requires IsPowerOfTwo(n) && q < |s| && (q < lo || q >= lo + n)
    ensures Run(s, asc, SortPairs(lo, n))[q] == s[q]
  {
    SortPairsInside(lo, n);
    ArithUnitMember(lo, lo + n);
    RunKeeps(s, asc, SortPairs(lo, n), Arith(lo, 1, lo + n), q);
  }

  /** The slice `[b, e)` above the block `[lo, lo + n)` survives its sort. */
  lemma SortPairsKeepsAbove(s: seq<int>, lo: nat, n: nat, b: nat, e: nat)
    requires IsPowerOfTwo(n) && lo + n <= b <= e <= |s|
    ensures Run(s, true, SortPairs(lo, n))[b..e] == s[b..e]
  {
    var out := Run(s, true, SortPairs(lo, n));
    forall k | b <= k < e
      ensures out[k] == s[k]
    {
      SortPairsKeeps(s, true, lo, n, k);
    }
    assert out[b..e] == s[b..e];
  }

  /** The slice `[b, e)` below the block `[lo, lo + n)` survives its sort. */
  lemma SortPairsKeepsBelow(s: seq<int>, lo: nat, n: nat, b: nat, e: nat)
    requires IsPowerOfTwo(n) && b <= e <= lo && e <= |s|
    ensures Run(s, true, SortPairs(lo, n))[b..e] == s[b..e]
  {
    var out := Run(s, true, SortPairs(lo, n));
    forall k | b <= k < e
      ensures out[k] == s[k]
    {
      SortPairsKeeps(s, true, lo, n, k);
    }
    assert out[b..e] == s[b..e];
  }

  lemma HalfOfPowerOfTwo(n: nat, h: nat)
    requires IsPowerOfTwo(n) && n > 1 && h == n / 2
    ensures IsPowerOfTwo(h) && h + h == n
  {
  }


  /** The schedule of a block sort is the two half sorts followed by the merge. */
  lemma SortRunSplit(s: seq<int>, s1: seq<int>, s2: seq<int>, asc: bool, lo: nat, mid: nat, n: nat, h: nat)
    requires n > 1 && h == n / 2 && mid == lo + h
    requires s1 == Run(s, asc, SortPairs(lo, h)) && s2 == Run(s1, asc, SortPairs(mid, h))
    ensures Run(s, asc, SortPairs(lo, n)) == Run(s2, asc, MergePairs(lo, n, 1))
  {
    SortPairsUnfold(lo, n);
    RunAppend(s, asc, SortPairs(lo, h) + SortPairs(mid, h), MergePairs(lo, n, 1));
    RunAppend(s, asc, SortPairs(lo, h), SortPairs(mid, h));
  }

  /** The position-free sort of a block is the merge of its sorted halves. */
  lemma SortSeqSplit(s: seq<int>, lo: nat, n: nat, h: nat)
    requires IsPowerOfTwo(n) && n > 1 && h == n / 2 && lo + n <= |s|
    ensures IsPowerOfTwo(h) && h + h == n
    ensures SortSeq(s[lo..lo + n]) == MergeSeq(SortSeq(s[lo..lo + n][..h]) + SortSeq(s[lo..lo + n][h..]))
  {
    var w := s[lo..lo + n];
    assert |w| == n;
  }

  lemma SliceJoin(t: seq<int>, a: nat, b: nat, c: nat, d: nat)
    requires a <= b <= c <= |t| && c == d
    ensures t[a..c] == t[a..b] + t[b..d]
  {
  }

  lemma SliceHalves(t: seq<int>, lo: nat, mid: nat, h: nat, n: nat)
    requires mid == lo + h && h + h == n && lo + n <= |t|
    ensures t[lo..lo + n][..h] == t[lo..lo + h] && t[lo..lo + n][h..] == t[mid..mid + h]
  {
  }

  /** After both half sorts, the block holds the two sorted halves side by side. */
  lemma SortHalvesJoin(s: seq<int>, s1: seq<int>, s2: seq<int>, lo: nat, mid: nat, n: nat, h: nat)
    requires IsPowerOfTwo(h) && h + h == n && mid == lo + h && lo + n <= |s|
    requires s1 == Run(s, true, SortPairs(lo, h)) && s2 == Run(s1, true, SortPairs(mid, h))
    requires s1[lo..lo + h] == SortSeq(s[lo..lo + h])
    requires s2[mid..mid + h] == SortSeq(s1[mid..mid + h])
    ensures s2[lo..lo + n] == SortSeq(s[lo..lo + n][..h]) + SortSeq(s[lo..lo + n][h..])
  {
    HalvesFrames(s, s1, s2, lo, mid, n, h);
    SortHalvesJoinSeq(s, s1, s2, lo, mid, n, h);
  }

  /** Each half sort leaves the other half as it was. */
  lemma HalvesFrames(s: seq<int>, s1: seq<int>, s2: seq<int>, lo: nat, mid: nat, n: nat, h: nat)
    requires IsPowerOfTwo(h) && h + h == n && mid == lo + h && lo + n <= |s|
    requires s1 == Run(s, true, SortPairs(lo, h)) && s2 == Run(s1, true, SortPairs(mid, h))
    ensures |s1| == |s| && |s2| == |s|
    ensures s1[mid..mid + h] == s[mid..mid + h] && s2[lo..mid] == s1[lo..mid]
  {
    SortPairsKeepsAbove(s, lo, h, mid, mid + h);
    SortPairsKeepsBelow(s1, mid, h, lo, mid);
  }

  lemma SortHalvesJoinSeq(s: seq<int>, s1: seq<int>, s2: seq<int>, lo: nat, mid: nat, n: nat, h: nat)
    requires IsPowerOfTwo(h) && h + h == n && mid == lo + h && lo + n <= |s| && |s1| == |s| && |s2| == |s|
    requires s1[lo..lo + h] == SortSeq(s[lo..lo + h]) && s1[mid..mid + h] == s[mid..mid + h]
    requires s2[mid..mid + h] == SortSeq(s1[mid..mid + h]) && s2[lo..mid] == s1[lo..mid]
    ensures s2[lo..lo + n] == SortSeq(s[lo..lo + n][..h]) + SortSeq(s[lo..lo + n][h..])
  {
    SliceHalves(s, lo, mid, h, n);
    JoinBlocks(s, s1, s2, lo, mid, n, h, SortSeq(s[lo..lo + h]), SortSeq(s1[mid..mid + h]));
  }

  /** Two blocks side by side, each known, make up the whole block. */
  lemma JoinBlocks(s: seq<int>, s1: seq<int>, s2: seq<int>, lo: nat, mid: nat, n: nat, h: nat, a: seq<int>, b: seq<int>)
    requires h + h == n && mid == lo + h && lo + n <= |s| && |s1| == |s| && |s2| == |s|
    requires s1[lo..lo + h] == a && s2[mid..mid + h] == b && s2[lo..mid] == s1[lo..mid]
    ensures s2[lo..lo + n] == a + b
  {
    SliceJoin(s2, lo, mid, lo + n, mid + h);
  }

  lemma MergeShapeUnit(lo: nat, n: nat)
    requires IsPowerOfTwo(n) && n >= 2
    ensures MergeShape(lo, n, 1)
  {
    AlignedUnit(lo, lo + n);
    ArithUnit(lo, lo + n);
  }

  /** `MergePairs(lo, n, 1)` merges the block `[lo, lo + n)` as the position-free merge does. */
  lemma MergeBlockSim(t: seq<int>, lo: nat, n: nat)
    requires IsPowerOfTwo(n) && n >= 2 && lo + n <= |t|
    ensures Run(t, true, MergePairs(lo, n, 1))[lo..lo + n] == MergeSeq(t[lo..lo + n])
  {
    MergeShapeUnit(lo, n);
    ViewUnit(t, lo, n);
    ViewUnit(Run(t, true, MergePairs(lo, n, 1)), lo, n);
    MergeSim(t, lo, n, 1);
  }

  /** `SortPairs(lo, n)` sorts the block `[lo, lo + n)` as the position-free merge sort does. */
  lemma {:induction false} SortSim(s: seq<int>, lo: nat, n: nat)
    requires IsPowerOfTwo(n) && lo + n <= |s|
    ensures Run(s, true, SortPairs(lo, n))[lo..lo + n] == SortSeq(s[lo..lo + n])
    decreases n
  {
    if n > 1 {
      var h := n / 2;
      HalfOfPowerOfTwo(n, h);
      var s1 := Run(s, true, SortPairs(lo, h));
      var mid := lo + h;
      var s2 := Run(s1, true, SortPairs(mid, h));
      SortSim(s, lo, h);
      SortSim(s1, mid, h);
      SortHalvesJoin(s, s1, s2, lo, mid, n, h);
      MergeBlockSim(s2, lo, n);
      SortRunSplit(s, s1, s2, true, lo, mid, n, h);
      SortSeqSplit(s, lo, n, h);
    }
  }
}
