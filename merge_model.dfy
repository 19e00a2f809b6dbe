/**
  A position-free model of the ascending odd-even merge: the merge of a
  sequence is the fix-up step applied to the interleaving of the merges of
  its even- and odd-indexed elements. Proved here: on 0/1 sequences whose two
  halves are sorted the merge yields the sorted sequence, and hence that the
  merge sort sorts every 0/1 sequence whose length is a power of two.
 */
module MergeModel {
  import opened Utils
  import opened Network

  /** The elements at even indices. */
  function Evens<T>(w: seq<T>): (e: seq<T>)
    ensures |e| == (|w| + 1) / 2
    decreases |w|
  {
    if |w| == 0 then [] else if |w| == 1 then [w[0]] else [w[0]] + Evens(w[2..])
  }

  /** The elements at odd indices. */
  function Odds<T>(w: seq<T>): (o: seq<T>)
    ensures |o| == |w| / 2
    decreases |w|
  {
    if |w| < 2 then [] else [w[1]] + Odds(w[2..])
  }

  /** `e[0], o[0], e[1], o[1], ...` */
  function Interleave<T>(e: seq<T>, o: seq<T>): (w: seq<T>)
    requires |e| == |o|
    ensures |w| == 2 * |e|
    decreases |e|
  {
    if e == [] then [] else [e[0], o[0]] + Interleave(e[1..], o[1..])
  }

  lemma {:induction false} EvensAt<T>(w: seq<T>)
    ensures forall t :: 0 <= t < |Evens(w)| ==> Evens(w)[t] == w[2 * t]
    decreases |w|
  {
    if |w| >= 2 {
      EvensAt(w[2..]);
    }
  }

  lemma {:induction false} OddsAt<T>(w: seq<T>)
    ensures forall t :: 0 <= t < |Odds(w)| ==> Odds(w)[t] == w[2 * t + 1]
    decreases |w|
  {
    if |w| >= 2 {
      OddsAt(w[2..]);
    }
  }

  lemma {:induction false} InterleaveAt<T>(e: seq<T>, o: seq<T>)
    requires |e| == |o|
    ensures forall t :: 0 <= t < |e| ==> Interleave(e, o)[2 * t] == e[t] && Interleave(e, o)[2 * t + 1] == o[t]
    decreases |e|
  {
    if e != [] {
      InterleaveAt(e[1..], o[1..]);
    }
  }

  lemma {:induction false} InterleaveSplit<T>(w: seq<T>)
    requires |w| % 2 == 0
    ensures Interleave(Evens(w), Odds(w)) == w
    decreases |w|
  {
    if |w| >= 2 {
      var e, o := Evens(w), Odds(w);
      assert e[1..] == Evens(w[2..]) && o[1..] == Odds(w[2..]);
      InterleaveSplit(w[2..]);
      assert w == [w[0], w[1]] + w[2..];
    }
  }

  /**
    The fix-up loop of the merge in position-free form: `w[1]` against `w[2]`,
    `w[3]` against `w[4]`, and so on, each pair ordered ascending.
   */
  function FixSeq(w: seq<int>): (f: seq<int>)
    ensures |f| == |w|
    decreases |w|
  {
    if |w| < 3 then w
    else [w[0], Lower(w[1], w[2])] + FixSeq([Upper(w[1], w[2])] + w[3..])
  }

  /** What the fix-up leaves at each index. */
  lemma {:induction false} FixSeqAt(w: seq<int>, q: nat)
    requires q < |w|
    ensures q == 0 ==> FixSeq(w)[q] == w[0]
    ensures q % 2 == 1 && q + 1 < |w| ==> FixSeq(w)[q] == Lower(w[q], w[q + 1])
    ensures q % 2 == 1 && q + 1 == |w| ==> FixSeq(w)[q] == w[q]
    ensures q % 2 == 0 && q >= 2 ==> FixSeq(w)[q] == Upper(w[q - 1], w[q])
    decreases |w|
  {
    if |w| >= 3 && q >= 2 {
      var w' := [Upper(w[1], w[2])] + w[3..];
      assert FixSeq(w)[q] == FixSeq(w')[q - 2];
      FixSeqAt(w', q - 2);
      if q >= 3 {
        assert w'[q - 2] == w[q];
        assert q - 1 < |w'| ==> w'[q - 1] == w[q + 1];
      }
      if q >= 4 {
        assert w'[q - 3] == w[q - 1];
      }
    }
  }

  /** The ascending odd-even merge of a sequence whose length is a power of two. */
  function MergeSeq(w: seq<int>): (m: seq<int>)
    requires IsPowerOfTwo(|w|) && |w| >= 2
    ensures |m| == |w|
    decreases |w|
  {
    if |w| == 2 then [Lower(w[0], w[1]), Upper(w[0], w[1])]
    else FixSeq(Interleave(MergeSeq(Evens(w)), MergeSeq(Odds(w))))
  }

  /** The ascending odd-even merge sort of a sequence whose length is a power of two. */
  function SortSeq(w: seq<int>): (m: seq<int>)
    requires IsPowerOfTwo(|w|)
    ensures |m| == |w|
    decreases |w|
  {
    if |w| > 1 then
      var h := |w| / 2;
      MergeSeq(SortSeq(w[..h]) + SortSeq(w[h..]))
    else w
  }

  // ---------------------------------------------------------------------------
  // 0/1 sequences
  // ---------------------------------------------------------------------------

  /** The sorted 0/1 sequence of length `len` with `z` zeros. */
  function Step(len: nat, z: nat): (s: seq<int>)
    ensures |s| == len
  {
    seq(len, q => if q < z then 0 else 1)
  }

  predicate Binary(s: seq<int>)
  {
    forall k :: 0 <= k < |s| ==> s[k] == 0 || s[k] == 1
  }

  function Zeros(s: seq<int>): nat
  {
    if s == [] then 0 else (if s[0] == 0 then 1 else 0) + Zeros(s[1..])
  }

  predicate Ascending(s: seq<int>)
  {
    forall i, j :: 0 <= i < j < |s| ==> s[i] <= s[j]
  }

  lemma {:induction false} ZerosAppend(a: seq<int>, b: seq<int>)
    ensures Zeros(a + b) == Zeros(a) + Zeros(b)
    decreases |a|
  {
    if a == [] {
      assert a + b == b;
    } else {
      assert (a + b)[1..] == a[1..] + b;
      ZerosAppend(a[1..], b);
    }
  }

  lemma EvensStep(len: nat, z: nat)
    ensures Evens(Step(len, z)) == Step((len + 1) / 2, (z + 1) / 2)
  {
    EvensAt(Step(len, z));
  }

  lemma OddsStep(len: nat, z: nat)
    ensures Odds(Step(len, z)) == Step(len / 2, z / 2)
  {
    OddsAt(Step(len, z));
  }

  lemma EvensAppend<T>(a: seq<T>, b: seq<T>)
    requires |a| % 2 == 0
    ensures Evens(a + b) == Evens(a) + Evens(b)
  {
    var l, r := Evens(a + b), Evens(a) + Evens(b);
    EvensAt(a + b);
    EvensAt(a);
    EvensAt(b);
    assert |l| == |r|;
    forall t | 0 <= t < |l|
      ensures l[t] == r[t]
    {
      if t < |Evens(a)| {
        assert r[t] == a[2 * t];
      } else {
        var u := t - |Evens(a)|;
        assert 2 * t == |a| + 2 * u;
        assert r[t] == Evens(b)[u] == b[2 * u];
      }
    }
  }

  lemma OddsAppend<T>(a: seq<T>, b: seq<T>)
    requires |a| % 2 == 0
    ensures Odds(a + b) == Odds(a) + Odds(b)
  {
    var l, r := Odds(a + b), Odds(a) + Odds(b);
    OddsAt(a + b);
    OddsAt(a);
    OddsAt(b);
    assert |l| == |r|;
    forall t | 0 <= t < |l|
      ensures l[t] == r[t]
    {
      if t < |Odds(a)| {
        assert r[t] == a[2 * t + 1];
      } else {
        var u := t - |Odds(a)|;
        assert 2 * t + 1 == |a| + 2 * u + 1;
        assert r[t] == Odds(b)[u] == b[2 * u + 1];
      }
    }
  }

  /**
    The counting step: if the merged even part has `ze` zeros, the merged odd
    part `zo`, and `zo <= ze <= zo + 2`, the fix-up of their interleaving is
    sorted.
   */
  lemma FixInterleaveStep(h: nat, ze: nat, zo: nat)
    requires h >= 1 && zo <= ze <= zo + 2 && ze <= h
    ensures FixSeq(Interleave(Step(h, ze), Step(h, zo))) == Step(2 * h, ze + zo)
  {
    var w := Interleave(Step(h, ze), Step(h, zo));
    var f := FixSeq(w);
    InterleaveAt(Step(h, ze), Step(h, zo));
    forall q | 0 <= q < 2 * h
      ensures f[q] == Step(2 * h, ze + zo)[q]
    {
      FixSeqAt(w, q);
      var t := q / 2;
      if q % 2 == 1 {
        assert w[q] == Step(h, zo)[t];
        if q + 1 < |w| {
          assert w[q + 1] == w[2 * (t + 1)] == Step(h, ze)[t + 1];
        }
      } else if q >= 2 {
        assert w[q] == Step(h, ze)[t];
        assert w[q - 1] == w[2 * (t - 1) + 1] == Step(h, zo)[t - 1];
      } else {
        assert w[0] == Step(h, ze)[0];
      }
    }
  }

  /** Merging two sorted 0/1 halves gives the sorted 0/1 sequence with all their zeros. */
  lemma {:induction false} MergeSteps(h: nat, za: nat, zb: nat)
    requires IsPowerOfTwo(h) && za <= h && zb <= h
    ensures IsPowerOfTwo(2 * h)
    ensures MergeSeq(Step(h, za) + Step(h, zb)) == Step(2 * h, za + zb)
    decreases h
  {
    PowerOfTwoDoubles(h);
    var w := Step(h, za) + Step(h, zb);
    if h > 1 {
      var g := h / 2;
      var ea, eb, oa, ob := (za + 1) / 2, (zb + 1) / 2, za / 2, zb / 2;
      CountsBound(h, g, za, zb);
      HalvesOfSteps(h, g, za, zb);
      MergeSteps(g, ea, eb);
      MergeSteps(g, oa, ob);
      MergeStepsCombine(w, h, g, ea + eb, oa + ob);
    } else {
      MergeStepsBase(za, zb);
    }
  }

  lemma MergeStepsBase(za: nat, zb: nat)
    requires za <= 1 && zb <= 1
    ensures MergeSeq(Step(1, za) + Step(1, zb)) == Step(2, za + zb)
  {
    var a, b := if 0 < za then 0 else 1, if 0 < zb then 0 else 1;
    assert Step(1, za) + Step(1, zb) == [a, b];
    assert Step(2, za + zb) == [if 0 < za + zb then 0 else 1, if 1 < za + zb then 0 else 1];
  }

  /** The merge of a sequence, once the merges of its even and odd parts are known steps. */
  lemma MergeStepsCombine(w: seq<int>, h: nat, g: nat, ze: nat, zo: nat)
    requires |w| == 2 * h && h > 1 && IsPowerOfTwo(|w|) && 2 * g == h
    requires zo <= ze <= zo + 2 && ze <= h
    requires MergeSeq(Evens(w)) == Step(2 * g, ze) && MergeSeq(Odds(w)) == Step(2 * g, zo)
    ensures MergeSeq(w) == Step(2 * h, ze + zo)
  {
    MergeUnfold(w);
    FixInterleaveStep(h, ze, zo);
  }

  lemma MergeUnfold(w: seq<int>)
    requires IsPowerOfTwo(|w|) && |w| > 2
    ensures MergeSeq(w) == FixSeq(Interleave(MergeSeq(Evens(w)), MergeSeq(Odds(w))))
  {
  }

  /** The zero counts of the even and odd parts differ by at most two and add up. */
  lemma CountsBound(h: nat, g: nat, za: nat, zb: nat)
    requires h > 1 && IsPowerOfTwo(h) && g == h / 2 && za <= h && zb <= h
    ensures IsPowerOfTwo(g) && 2 * g == h
    ensures (za + 1) / 2 <= g && (zb + 1) / 2 <= g && za / 2 <= g && zb / 2 <= g
    ensures za / 2 + zb / 2 <= (za + 1) / 2 + (zb + 1) / 2 <= za / 2 + zb / 2 + 2
    ensures (za + 1) / 2 + (zb + 1) / 2 <= h
    ensures (za + 1) / 2 + (zb + 1) / 2 + (za / 2 + zb / 2) == za + zb
  {
    HalvesAdd(za);
    HalvesAdd(zb);
  }

  lemma HalvesAdd(x: nat)
    ensures (x + 1) / 2 + x / 2 == x
    ensures x / 2 <= (x + 1) / 2 <= x / 2 + 1
  {
    if x % 2 == 0 {
      assert x == 2 * (x / 2);
      assert (x + 1) / 2 == x / 2;
    } else {
      assert x == 2 * (x / 2) + 1;
      assert (x + 1) / 2 == x / 2 + 1;
    }
  }

  /** The even and odd parts of two steps are again two steps. */
  lemma HalvesOfSteps(h: nat, g: nat, za: nat, zb: nat)
    requires 2 * g == h
    ensures Evens(Step(h, za) + Step(h, zb)) == Step(g, (za + 1) / 2) + Step(g, (zb + 1) / 2)
    ensures Odds(Step(h, za) + Step(h, zb)) == Step(g, za / 2) + Step(g, zb / 2)
  {
    EvensAppend(Step(h, za), Step(h, zb));
    OddsAppend(Step(h, za), Step(h, zb));
    EvensStep(h, za);
    EvensStep(h, zb);
    OddsStep(h, za);
    OddsStep(h, zb);
  }

  /** A 0/1 sequence is sorted exactly when it is the step with its own zeros. */
  lemma {:induction false} SortedBinaryIsStep(s: seq<int>)
    requires Binary(s) && Ascending(s)
    ensures Zeros(s) <= |s|
    ensures s == Step(|s|, Zeros(s))
    decreases |s|
  {
    if s != [] {
      SortedBinaryIsStep(s[1..]);
      if s[0] == 1 {
        forall k | 0 <= k < |s|
          ensures s[k] == 1
        {
        }
        OnesHaveNoZeros(s[1..]);
      }
    }
  }

  lemma {:induction false} OnesHaveNoZeros(s: seq<int>)
    requires forall k :: 0 <= k < |s| ==> s[k] == 1
    ensures Zeros(s) == 0
    decreases |s|
  {
    if s != [] {
      OnesHaveNoZeros(s[1..]);
    }
  }

  lemma StepAscending(len: nat, z: nat)
    ensures Ascending(Step(len, z)) && Binary(Step(len, z))
  {
  }

  /** The merge sort sorts every 0/1 sequence whose length is a power of two. */
  lemma {:induction false} SortSeqBinary(w: seq<int>)
    requires IsPowerOfTwo(|w|) && Binary(w)
    ensures Zeros(w) <= |w|
    ensures SortSeq(w) == Step(|w|, Zeros(w))
    decreases |w|
  {
    if |w| > 1 {
      var h := |w| / 2;
      var a, b := w[..h], w[h..];
      BinaryHalves(w, h);
      SortSeqBinary(a);
      SortSeqBinary(b);
      MergeSteps(h, Zeros(a), Zeros(b));
      SortSeqUnfold(w, h);
    } else if |w| == 1 {
      assert w == Step(1, Zeros(w));
    }
  }

  /** The halves of a 0/1 sequence of even power-of-two length, and how their zeros add up. */
  lemma BinaryHalves(w: seq<int>, h: nat)
    requires IsPowerOfTwo(|w|) && |w| > 1 && h == |w| / 2 && Binary(w)
    ensures IsPowerOfTwo(h) && 2 * h == |w| && |w[..h]| == h && |w[h..]| == h
    ensures Binary(w[..h]) && Binary(w[h..])
    ensures Zeros(w) == Zeros(w[..h]) + Zeros(w[h..])
  {
    assert w == w[..h] + w[h..];
    ZerosAppend(w[..h], w[h..]);
  }

  /** The merge sort of a sequence of length at least two merges its two sorted halves. */
  lemma SortSeqUnfold(w: seq<int>, h: nat)
    requires IsPowerOfTwo(|w|) && |w| > 1 && h == |w| / 2
    ensures SortSeq(w) == MergeSeq(SortSeq(w[..h]) + SortSeq(w[h..]))
  {
  }

}
