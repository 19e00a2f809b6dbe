/**
  Group-by aggregation over a table of rows (`functions/table/agg.py`): sort
  ascending on the key column, then one left-to-right scan that, wherever two
  neighbouring rows share a key, zeroes the aggregate cell of the first and
  folds it into the second. On sorted input the last row of each key group ends
  up holding the fold of the whole group and the others hold zero.
 */
module Aggregate {
  import opened Values
  import opened Utils
  import opened Network
  import opened Sortedness
  import opened TableSort

  /** The entries of `FUNCTIONS`. */
  datatype AggFunc = SumFunc | MaxFunc | MinFunc

  /** `FUNCTIONS.get(agg_type, None)`, with the missing entry as the `ValueError` `_aggregate` raises for it. */
  function Lookup(name: string): (r: Result<AggFunc>)
  {
    if name == "sum" then Ok(SumFunc)
    else if name == "max" then Ok(MaxFunc)
    else if name == "min" then Ok(MinFunc)
    else Err(ValueError)
  }

  /** Exactly the three names of `FUNCTIONS` are known, each naming its own function. */
  lemma LookupNames(name: string)
    ensures Lookup(name).Ok? <==> name == "sum" || name == "max" || name == "min"
    ensures Lookup(name).Err? ==> Lookup(name).error == ValueError
    ensures Lookup("sum") == Ok(SumFunc) && Lookup("max") == Ok(MaxFunc) && Lookup("min") == Ok(MinFunc)
  {
  }

  /**
    The lambdas of `FUNCTIONS`: `x + y`, `(x > y).if_else(x, y)` and
    `(x < y).if_else(x, y)`.
   */
  function Combine(f: AggFunc, x: Value, y: Value): (z: Value)
    ensures f == SumFunc ==> z.val == x.val + y.val && z.parties == x.parties + y.parties
    ensures f == MaxFunc ==> (z == x || z == y) && z.val >= x.val && z.val >= y.val
    ensures f == MinFunc ==> (z == x || z == y) && z.val <= x.val && z.val <= y.val
  {
    match f
    case SumFunc => Add(x, y)
    case MaxFunc => Select(x.val > y.val, x, y)
    case MinFunc => Select(x.val < y.val, x, y)
  }

  /** Column `c` of the table. */
  function Column(rows: seq<seq<Value>>, c: nat): (col: seq<Value>)
    requires Keyed(rows, c)
    ensures |col| == |rows| && forall k :: 0 <= k < |rows| ==> col[k] == rows[k][c]
  {
    seq(|rows|, k requires 0 <= k < |rows| => rows[k][c])
  }

  // ---------------------------------------------------------------------------
  // The scan `_shift_agg`
  // ---------------------------------------------------------------------------

  /** Both columns the scan uses exist in every row. */
  predicate Fits(rows: seq<seq<Value>>, key: nat, agg: nat)
  {
    Keyed(rows, key) && Keyed(rows, agg)
  }

  /**
    Turn `i` of `_shift_agg`: with `cond` the equality of the keys of rows `i`
    and `i + 1`, the aggregate cell of row `i` becomes `cond.if_else(x - x, x)`
    and that of row `i + 1` becomes `cond.if_else(f(x, y), y)`, both computed
    before either is written.
   */
  function ShiftStep(rows: seq<seq<Value>>, key: nat, agg: nat, f: AggFunc, i: nat): (out: seq<seq<Value>>)
    requires Fits(rows, key, agg) && i + 1 < |rows|
    ensures |out| == |rows| && Fits(out, key, agg)
    ensures forall r :: 0 <= r < |rows| ==> |out[r]| == |rows[r]|
  {
    var cond := rows[i][key].val == rows[i + 1][key].val;
    var x, y := rows[i][agg], rows[i + 1][agg];
    var one := Select(cond, Zero(x), x);
    var two := Select(cond, Combine(f, x, y), y);
    rows[i := rows[i][agg := one]][i + 1 := rows[i + 1][agg := two]]
  }

  /** The turns from `i` on. */
  function ShiftFrom(rows: seq<seq<Value>>, key: nat, agg: nat, f: AggFunc, i: nat): (out: seq<seq<Value>>)
    requires Fits(rows, key, agg)
    ensures |out| == |rows| && Fits(out, key, agg)
    decreases |rows| - i
  {
    if i + 1 >= |rows| then rows
    else ShiftFrom(ShiftStep(rows, key, agg, f, i), key, agg, f, i + 1)
  }

  /** The table `_shift_agg(values, key_col, agg_col, agg_func)` leaves. */
  function Shift(rows: seq<seq<Value>>, key: nat, agg: nat, f: AggFunc): (out: seq<seq<Value>>)
    requires Fits(rows, key, agg)
    ensures |out| == |rows| && Fits(out, key, agg)
  {
    ShiftFrom(rows, key, agg, f, 0)
  }

  /** `_shift_agg(values, key_col, agg_col, agg_func)`, in place. */
  method ShiftAgg(t: array<seq<Value>>, key: nat, agg: nat, f: AggFunc)
    requires Fits(t[..], key, agg)
    modifies t
    ensures t[..] == Shift(old(t[..]), key, agg, f)
  {
    var i := 0;
    while i + 1 < t.Length
      invariant Fits(t[..], key, agg)
      invariant ShiftFrom(t[..], key, agg, f, i) == Shift(old(t[..]), key, agg, f)
      decreases t.Length - i
    {
      ghost var before := t[..];
      var j := i + 1;
      var cond := t[i][key].val == t[j][key].val;
      var one := Select(cond, Zero(t[i][agg]), t[i][agg]);
      var two := Select(cond, Combine(f, t[i][agg], t[j][agg]), t[j][agg]);
      t[i] := t[i][agg := one];
      t[j] := t[j][agg := two];
      assert t[..] == ShiftStep(before, key, agg, f, i);
      i := j;
    }
  }

  // ---------------------------------------------------------------------------
  // What the scan computes
  // ---------------------------------------------------------------------------

  /** The keys of rows `r` and `r + 1` are equal. */
  predicate SameKey(rows: seq<seq<Value>>, key: nat, r: nat)
    requires Keyed(rows, key) && r + 1 < |rows|
  {
    rows[r][key].val == rows[r + 1][key].val
  }

  /**
    Reference definition: the value carried into row `r`, folded over the rows
    of its run of equal keys up to `r`.
   */
  function Acc(rows: seq<seq<Value>>, key: nat, agg: nat, f: AggFunc, r: nat): Value
    requires Fits(rows, key, agg) && r < |rows|
  {
    if r > 0 && SameKey(rows, key, r - 1) then Combine(f, Acc(rows, key, agg, f, r - 1), rows[r][agg])
    else rows[r][agg]
  }

  /** The aggregate cell row `r` ends with: zero unless `r` closes its run. */
  function Final(rows: seq<seq<Value>>, key: nat, agg: nat, f: AggFunc, r: nat): Value
    requires Fits(rows, key, agg) && r < |rows|
  {
    if r + 1 < |rows| && SameKey(rows, key, r) then Zero(Acc(rows, key, agg, f, r))
    else Acc(rows, key, agg, f, r)
  }

  /** Cells outside column `agg` of `s` are those of `rows`. */
  predicate SameOff(rows: seq<seq<Value>>, s: seq<seq<Value>>, agg: nat)
  {
    |s| == |rows| &&
    (forall r :: 0 <= r < |s| ==> |s[r]| == |rows[r]|) &&
    (forall r, c :: 0 <= r < |s| && 0 <= c < |s[r]| && c != agg ==> s[r][c] == rows[r][c])
  }

  /** The state after the first `i` turns of the scan. */
  predicate Partial(rows: seq<seq<Value>>, s: seq<seq<Value>>, key: nat, agg: nat, f: AggFunc, i: nat)
    requires Fits(rows, key, agg)
  {
    SameOff(rows, s, agg) &&
    (forall r :: 0 <= r < i && r < |rows| ==> s[r][agg] == Final(rows, key, agg, f, r)) &&
    (i < |rows| ==> s[i][agg] == Acc(rows, key, agg, f, i)) &&
    (forall r :: i < r < |rows| ==> s[r][agg] == rows[r][agg])
  }

  lemma PartialStart(rows: seq<seq<Value>>, key: nat, agg: nat, f: AggFunc)
    requires Fits(rows, key, agg)
    ensures Partial(rows, rows, key, agg, f, 0)
  {
  }

  /** One turn of the scan extends the finished prefix by one row. */
  lemma PartialStep(rows: seq<seq<Value>>, s: seq<seq<Value>>, key: nat, agg: nat, f: AggFunc, i: nat)
    requires Fits(rows, key, agg) && Fits(s, key, agg) && key != agg
    requires Partial(rows, s, key, agg, f, i) && i + 1 < |rows|
    ensures Partial(rows, ShiftStep(s, key, agg, f, i), key, agg, f, i + 1)
  {
    var out := ShiftStep(s, key, agg, f, i);
    assert s[i][key] == rows[i][key] && s[i + 1][key] == rows[i + 1][key];
    assert out[i][agg] == Final(rows, key, agg, f, i);
    assert out[i + 1][agg] == Acc(rows, key, agg, f, i + 1);
  }

  lemma {:induction false} PartialRun(rows: seq<seq<Value>>, s: seq<seq<Value>>, key: nat, agg: nat, f: AggFunc, i: nat)
    requires Fits(rows, key, agg) && Fits(s, key, agg) && key != agg
    requires Partial(rows, s, key, agg, f, i) && (i < |rows| || i == 0)
    ensures Partial(rows, ShiftFrom(s, key, agg, f, i), key, agg, f, |rows|)
    decreases |rows| - i
  {
    if i + 1 < |rows| {
      PartialStep(rows, s, key, agg, f, i);
      PartialRun(rows, ShiftStep(s, key, agg, f, i), key, agg, f, i + 1);
    }
  }

  /**
    The scan rewrites only the aggregate column, and there row `r` ends with
    the fold of its run so far, zeroed unless `r` closes the run.
   */
  lemma ShiftSpec(rows: seq<seq<Value>>, key: nat, agg: nat, f: AggFunc)
    requires Fits(rows, key, agg) && key != agg
    ensures var out := Shift(rows, key, agg, f);
      SameOff(rows, out, agg) &&
      forall r :: 0 <= r < |rows| ==> out[r][agg] == Final(rows, key, agg, f, r)
  {
    PartialStart(rows, key, agg, f);
    PartialRun(rows, rows, key, agg, f, 0);
  }

  // ---------------------------------------------------------------------------
  // Runs of equal keys, and what a fold over them is
  // ---------------------------------------------------------------------------

  /** The first row of the run of equal keys that contains row `r`. */
  function RunStart(rows: seq<seq<Value>>, key: nat, r: nat): (s: nat)
    requires Keyed(rows, key) && r < |rows|
    ensures s <= r && (s > 0 ==> !SameKey(rows, key, s - 1))
    ensures forall q :: s <= q <= r ==> rows[q][key].val == rows[r][key].val
  {
    if r > 0 && SameKey(rows, key, r - 1) then RunStart(rows, key, r - 1) else r
  }

  /** `f` folded from the left over a non-empty sequence of cells. */
  function Fold(f: AggFunc, vs: seq<Value>): Value
    requires |vs| > 0
  {
    if |vs| == 1 then vs[0] else Combine(f, Fold(f, vs[..|vs| - 1]), vs[|vs| - 1])
  }

  /** Folding `c[s..r + 1]` folds `c[s..r]` and then combines `c[r]`. */
  lemma FoldSnoc(f: AggFunc, c: seq<Value>, s: nat, r: nat)
    requires s < r < |c|
    ensures Fold(f, c[s..r + 1]) == Combine(f, Fold(f, c[s..r]), c[r])
  {
    assert c[s..r + 1][..r - s] == c[s..r];
  }

  /** The carried value is the fold of the aggregate cells of the run up to `r`. */
  lemma {:induction false} AccIsRunFold(rows: seq<seq<Value>>, key: nat, agg: nat, f: AggFunc, r: nat)
    requires Fits(rows, key, agg) && r < |rows|
    ensures Acc(rows, key, agg, f, r) == Fold(f, Column(rows, agg)[RunStart(rows, key, r)..r + 1])
  {
    var col := Column(rows, agg);
    var s := RunStart(rows, key, r);
    if r > 0 && SameKey(rows, key, r - 1) {
      assert s == RunStart(rows, key, r - 1);
      AccIsRunFold(rows, key, agg, f, r - 1);
      FoldSnoc(f, col, s, r);
      assert col[r] == rows[r][agg];
    } else {
      assert col[s..r + 1] == [rows[r][agg]];
    }
  }

  /** A sum fold adds up the numbers. */
  lemma {:induction false} FoldSum(vs: seq<Value>)
    requires |vs| > 0
    ensures Fold(SumFunc, vs).val == SumVals(vs)
    decreases |vs|
  {
    if |vs| > 1 {
      FoldSum(vs[..|vs| - 1]);
    } else {
      assert vs[..0] == [];
    }
  }

  /** A max fold picks one of the cells, and a largest one. */
  lemma {:induction false} FoldMax(vs: seq<Value>)
    requires |vs| > 0
    ensures Fold(MaxFunc, vs) in vs
    ensures forall k :: 0 <= k < |vs| ==> vs[k].val <= Fold(MaxFunc, vs).val
    decreases |vs|
  {
    if |vs| > 1 {
      var front := vs[..|vs| - 1];
      FoldMax(front);
      forall k | 0 <= k < |vs| - 1
        ensures vs[k].val <= Fold(MaxFunc, vs).val
      {
        assert vs[k] == front[k];
      }
    }
  }

  /** A min fold picks one of the cells, and a smallest one. */
  lemma {:induction false} FoldMin(vs: seq<Value>)
    requires |vs| > 0
    ensures Fold(MinFunc, vs) in vs
    ensures forall k :: 0 <= k < |vs| ==> Fold(MinFunc, vs).val <= vs[k].val
    decreases |vs|
  {
    if |vs| > 1 {
      var front := vs[..|vs| - 1];
      FoldMin(front);
      forall k | 0 <= k < |vs| - 1
        ensures Fold(MinFunc, vs).val <= vs[k].val
      {
        assert vs[k] == front[k];
      }
    }
  }

  /**
    With the keys ascending, the run that a row closes is its whole key group:
    a row has that key exactly when it lies between the run's start and `r`.
   */
  lemma GroupIsRun(rows: seq<seq<Value>>, key: nat, r: nat)
    requires Keyed(rows, key) && Ordered(Keys(rows, key), true) && r < |rows|
    requires r + 1 == |rows| || !SameKey(rows, key, r)
    ensures forall q :: 0 <= q < |rows| ==>
      (rows[q][key].val == rows[r][key].val <==> RunStart(rows, key, r) <= q <= r)
  {
    var ks := Keys(rows, key);
    var s := RunStart(rows, key, r);
    forall q | 0 <= q < |rows| && rows[q][key].val == rows[r][key].val
      ensures s <= q <= r
    {
      GroupBound(ks, s, r, q);
    }
  }

  /** In an ascending sequence, the values past either end of a maximal run of equal values differ from it. */
  lemma GroupBound(ks: seq<int>, s: nat, r: nat, q: nat)
    requires Ordered(ks, true) && s <= r < |ks| && q < |ks|
    requires s > 0 ==> ks[s - 1] != ks[s]
    requires r + 1 < |ks| ==> ks[r] != ks[r + 1]
    ensures q > r ==> ks[r] < ks[q]
    ensures q < s ==> ks[q] < ks[s]
  {
    if q > r {
      assert ks[r] <= ks[r + 1] <= ks[q];
    } else if q < s {
      assert ks[q] <= ks[s - 1] <= ks[s];
    }
  }

  /** The scan keeps the total of a summed column. */
  lemma ShiftKeepsSum(rows: seq<seq<Value>>, key: nat, agg: nat)
    requires Fits(rows, key, agg)
    ensures SumVals(Column(Shift(rows, key, agg, SumFunc), agg)) == SumVals(Column(rows, agg))
  {
    ShiftFromKeepsSum(rows, key, agg, 0);
  }

  lemma {:induction false} ShiftFromKeepsSum(rows: seq<seq<Value>>, key: nat, agg: nat, i: nat)
    requires Fits(rows, key, agg)
    ensures SumVals(Column(ShiftFrom(rows, key, agg, SumFunc, i), agg)) == SumVals(Column(rows, agg))
    decreases |rows| - i
  {
    if i + 1 < |rows| {
      var next := ShiftStep(rows, key, agg, SumFunc, i);
      StepKeepsSum(rows, key, agg, i);
      ShiftFromKeepsSum(next, key, agg, i + 1);
    }
  }

  lemma StepKeepsSum(rows: seq<seq<Value>>, key: nat, agg: nat, i: nat)
    requires Fits(rows, key, agg) && i + 1 < |rows|
    ensures SumVals(Column(ShiftStep(rows, key, agg, SumFunc, i), agg)) == SumVals(Column(rows, agg))
  {
    var col := Column(rows, agg);
    var out := ShiftStep(rows, key, agg, SumFunc, i);
    var x, y := col[i], col[i + 1];
    var cond := rows[i][key].val == rows[i + 1][key].val;
    var one := Select(cond, Zero(x), x);
    var two := Select(cond, Combine(SumFunc, x, y), y);
    assert Column(out, agg) == col[i := one][i + 1 := two];
    SumValsUpdate(col, i, one);
    SumValsUpdate(col[i := one], i + 1, two);
  }

  /** Replacing one cell changes the total by the difference. */
  lemma {:induction false} SumValsUpdate(s: seq<Value>, i: nat, v: Value)
    requires i < |s|
    ensures SumVals(s[i := v]) == SumVals(s) - s[i].val + v.val
    decreases |s|
  {
    var last := |s| - 1;
    if i < last {
      assert s[i := v][..last] == s[..last][i := v];
      SumValsUpdate(s[..last], i, v);
    } else {
      assert s[i := v][..last] == s[..last];
    }
  }

  // ---------------------------------------------------------------------------
  // The scan on a table sorted by its key: one total per key group
  // ---------------------------------------------------------------------------

  /** Row `r` is the last of its run of equal keys. */
  predicate Closes(rows: seq<seq<Value>>, key: nat, r: nat)
    requires Keyed(rows, key) && r < |rows|
  {
    r + 1 == |rows| || !SameKey(rows, key, r)
  }

  /**
    On ascending keys, the last row of each key group leaves the scan holding
    `f` folded over the aggregate cells of exactly the rows with that key.
   */
  lemma ShiftClosesGroup(rows: seq<seq<Value>>, key: nat, agg: nat, f: AggFunc, r: nat)
    requires Fits(rows, key, agg) && key != agg && Ordered(Keys(rows, key), true)
    requires r < |rows| && Closes(rows, key, r)
    ensures var s := RunStart(rows, key, r);
      Shift(rows, key, agg, f)[r][agg] == Fold(f, Column(rows, agg)[s..r + 1]) &&
      forall q :: 0 <= q < |rows| ==> (rows[q][key].val == rows[r][key].val <==> s <= q <= r)
  {
    ShiftSpec(rows, key, agg, f);
    AccIsRunFold(rows, key, agg, f, r);
    GroupIsRun(rows, key, r);
  }

  /** Every other row of a group leaves the scan with a zero aggregate cell. */
  lemma ShiftZeroesInside(rows: seq<seq<Value>>, key: nat, agg: nat, f: AggFunc, r: nat)
    requires Fits(rows, key, agg) && key != agg
    requires r < |rows| && !Closes(rows, key, r)
    ensures Shift(rows, key, agg, f)[r][agg].val == 0
  {
    ShiftSpec(rows, key, agg, f);
  }

  /** For `sum`, the closing row holds the total of its group. */
  lemma ShiftSumsGroup(rows: seq<seq<Value>>, key: nat, agg: nat, r: nat)
    requires Fits(rows, key, agg) && key != agg && Ordered(Keys(rows, key), true)
    requires r < |rows| && Closes(rows, key, r)
    ensures Shift(rows, key, agg, SumFunc)[r][agg].val == SumVals(Column(rows, agg)[RunStart(rows, key, r)..r + 1])
  {
    ShiftClosesGroup(rows, key, agg, SumFunc, r);
    FoldSum(Column(rows, agg)[RunStart(rows, key, r)..r + 1]);
  }

  // ---------------------------------------------------------------------------
  // `_aggregate` and the three public aggregations
  // ---------------------------------------------------------------------------

  /** Sorting by the key permutes whole rows, so every column present before is present after. */
  lemma SortKeepsColumns(rows: seq<seq<Value>>, key: nat, c: nat)
    requires Keyed(rows, key) && Keyed(rows, c)
    ensures Keyed(RunRows(rows, key, true, SortPairs(0, PaddedSize(|rows|))), c)
  {
    var out := RunRows(rows, key, true, SortPairs(0, PaddedSize(|rows|)));
    SortRowsOrdered(rows, key, true);
    forall k | 0 <= k < |out|
      ensures c < |out[k]|
    {
      assert out[k] in multiset(out);
      assert out[k] in rows;
    }
  }

  /** The rows by ascending key, as `odd_even_sort(values, key_col, True)` is meant to leave them. */
  function SortedByKey(rows: seq<seq<Value>>, key: nat, agg: nat): (out: seq<seq<Value>>)
    requires Fits(rows, key, agg)
    ensures Fits(out, key, agg) && |out| == |rows|
    ensures multiset(out) == multiset(rows) && Ordered(Keys(out, key), true)
  {
    SortRowsOrdered(rows, key, true);
    SortKeepsColumns(rows, key, agg);
    RunRows(rows, key, true, SortPairs(0, PaddedSize(|rows|)))
  }

  /** What the corrected `_aggregate` leaves: the sorted rows, scanned once. */
  function Aggregated(rows: seq<seq<Value>>, key: nat, agg: nat, f: AggFunc): seq<seq<Value>>
    requires Fits(rows, key, agg)
  {
    Shift(SortedByKey(rows, key, agg), key, agg, f)
  }

  /** The scan keeps the width of every row. */
  lemma {:induction false} ShiftFromKeepsWidth(rows: seq<seq<Value>>, key: nat, agg: nat, f: AggFunc, i: nat, w: nat)
    requires Fits(rows, key, agg) && Uniform(rows, w)
    ensures Uniform(ShiftFrom(rows, key, agg, f, i), w)
    decreases |rows| - i
  {
    if i + 1 < |rows| {
      ShiftFromKeepsWidth(ShiftStep(rows, key, agg, f, i), key, agg, f, i + 1, w);
    }
  }

  /** Sorting and scanning a table of width `w` leaves a table of width `w`. */
  lemma AggregatedKeepsWidth(rows: seq<seq<Value>>, key: nat, agg: nat, f: AggFunc, w: nat)
    requires Fits(rows, key, agg) && Uniform(rows, w)
    ensures Uniform(Aggregated(rows, key, agg, f), w)
  {
    var s := SortedByKey(rows, key, agg);
    forall k | 0 <= k < |s|
      ensures |s[k]| == w
    {
      assert s[k] in multiset(s);
      assert s[k] in rows;
    }
    ShiftFromKeepsWidth(s, key, agg, f, 0, w);
  }

  /**
    `_aggregate` as written: the unknown name is reported first, and every
    known name then reaches `odd_even_sort(values, key_col, True)`, a
    three-argument call of the five-parameter sort imported from
    `functions/table/sort.py`, which fails with `TypeError` before any row
    is touched.
   */
  method AggregateAsWritten(t: array<seq<Value>>, key: nat, agg: nat, name: string) returns (st: Status)
    ensures Lookup(name).Err? ==> st == Failed(ValueError)
    ensures Lookup(name).Ok? ==> st == Failed(TypeError)
  {
    var f := Lookup(name);
    if f.Err? {
      return Failed(ValueError);
    }
    return Failed(TypeError);
  }

  /**
    `_aggregate(values, key_col, agg_col, agg_type)` as intended: an unknown
    name raises `ValueError` before anything changes; otherwise the rows are
    sorted ascending on the key and scanned once.
   */
  method AggregateRows(t: array<seq<Value>>, key: nat, agg: nat, name: string, ghost w: nat) returns (st: Status)
    requires Fits(t[..], key, agg) && Uniform(t[..], w)
    modifies t
    ensures Lookup(name).Err? ==> st == Failed(ValueError) && t[..] == old(t[..])
    ensures Lookup(name).Ok? ==> st == Done && t[..] == Aggregated(old(t[..]), key, agg, Lookup(name).value)
  {
    var f := Lookup(name);
    if f.Err? {
      return Failed(ValueError);
    }
    OddEvenSortRows(t, key, true, w);
    ShiftAgg(t, key, agg, f.value);
    return Done;
  }

  /** `aggregate_sum(values, key_col, agg_col)`. */
  method AggregateSum(t: array<seq<Value>>, key: nat, agg: nat, ghost w: nat) returns (st: Status)
    requires Fits(t[..], key, agg) && Uniform(t[..], w)
    modifies t
    ensures st == Done && t[..] == Aggregated(old(t[..]), key, agg, SumFunc)
  {
    st := AggregateRows(t, key, agg, "sum", w);
  }

  /** `aggregate_max(values, key_col, agg_col)`. */
  method AggregateMax(t: array<seq<Value>>, key: nat, agg: nat, ghost w: nat) returns (st: Status)
    requires Fits(t[..], key, agg) && Uniform(t[..], w)
    modifies t
    ensures st == Done && t[..] == Aggregated(old(t[..]), key, agg, MaxFunc)
  {
    st := AggregateRows(t, key, agg, "max", w);
  }

  /** `aggregate_min(values, key_col, agg_col)`. */
  method AggregateMin(t: array<seq<Value>>, key: nat, agg: nat, ghost w: nat) returns (st: Status)
    requires Fits(t[..], key, agg) && Uniform(t[..], w)
    modifies t
    ensures st == Done && t[..] == Aggregated(old(t[..]), key, agg, MinFunc)
  {
    st := AggregateRows(t, key, agg, "min", w);
  }

  /**
    The aggregation is a group-by: the output is a rearrangement of the
    input rows in which, on every row that closes its key group, the
    aggregate cell is `f` folded over the cells of exactly the rows with
    that key, and every other aggregate cell is zero.
   */
  lemma AggregatedGroups(rows: seq<seq<Value>>, key: nat, agg: nat, f: AggFunc, r: nat)
    requires Fits(rows, key, agg) && key != agg && r < |rows|
    ensures var sorted := SortedByKey(rows, key, agg);
      var out := Aggregated(rows, key, agg, f);
      multiset(sorted) == multiset(rows) && SameOff(sorted, out, agg) &&
      (Closes(sorted, key, r) ==>
        out[r][agg] == Fold(f, Column(sorted, agg)[RunStart(sorted, key, r)..r + 1]) &&
        forall q :: 0 <= q < |sorted| ==>
          (sorted[q][key].val == sorted[r][key].val <==> RunStart(sorted, key, r) <= q <= r)) &&
      (!Closes(sorted, key, r) ==> out[r][agg].val == 0)
  {
    var sorted := SortedByKey(rows, key, agg);
    ShiftSpec(sorted, key, agg, f);
    if Closes(sorted, key, r) {
      ShiftClosesGroup(sorted, key, agg, f, r);
    } else {
      ShiftZeroesInside(sorted, key, agg, f, r);
    }
  }

  // ---------------------------------------------------------------------------
  // The rows `[[1, 2], [3, 4], [1, 3], [3, 3]]` of the aggregation tests
  // ---------------------------------------------------------------------------

  /** The four test rows, as abstract rows with the test's numbers. */
  predicate TestRows(a: seq<Value>, b: seq<Value>, c: seq<Value>, d: seq<Value>)
  {
    |a| == 2 && |b| == 2 && |c| == 2 && |d| == 2 &&
    a[0].val == 1 && a[1].val == 2 && b[0].val == 3 && b[1].val == 4 &&
    c[0].val == 1 && c[1].val == 3 && d[0].val == 3 && d[1].val == 3
  }

  /** Every cell of `rows` holds the number in the matching cell of `m`. */
  predicate Shows(rows: seq<seq<Value>>, m: seq<seq<int>>)
  {
    |rows| == |m| &&
    (forall r :: 0 <= r < |rows| ==> |rows[r]| == |m[r]|) &&
    (forall r, k :: 0 <= r < |rows| && 0 <= k < |rows[r]| && k < |m[r]| ==> rows[r][k].val == m[r][k])
  }

  lemma ShowsFour(rows: seq<seq<Value>>, m: seq<seq<int>>)
    requires |rows| == 4 && |m| == 4
    requires forall r :: 0 <= r < 4 ==>
      |rows[r]| == 2 && |m[r]| == 2 && rows[r][0].val == m[r][0] && rows[r][1].val == m[r][1]
    ensures Shows(rows, m)
  {
    forall r, k | 0 <= r < |rows| && 0 <= k < |rows[r]| && k < |m[r]|
      ensures rows[r][k].val == m[r][k]
    {
      if k == 0 {
      } else {
      }
    }
  }

  lemma KeyedFour(a: seq<Value>, b: seq<Value>, c: seq<Value>, d: seq<Value>, key: nat)
    requires key < |a| && key < |b| && key < |c| && key < |d|
    ensures Keyed([a, b, c, d], key)
  {
    var rows := [a, b, c, d];
    forall k | 0 <= k < |rows|
      ensures key < |rows[k]|
    {
      if k == 0 {
      } else if k == 1 {
      } else if k == 2 {
      } else {
      }
    }
  }

  /** Sorted ascending on column 0, equal keys trade places: the rows come out as `c, a, d, b`. */
  lemma SortTestRowsOnFirst(a: seq<Value>, b: seq<Value>, c: seq<Value>, d: seq<Value>)
    requires TestRows(a, b, c, d)
    ensures Keyed([a, b, c, d], 0)
    ensures RunRows([a, b, c, d], 0, true, SortPairs(0, PaddedSize(4))) == [c, a, d, b]
  {
    assert PaddedSize(4) == 4;
    SortPairsFour();
    KeyedFour(a, b, c, d, 0);
    KeyedFour(c, b, a, d, 0);
    KeyedFour(c, d, a, b, 0);
    assert ExchangeRows([a, b, c, d], 0, true, (0, 1)) == [a, b, c, d];
    assert ExchangeRows([a, b, c, d], 0, true, (2, 3)) == [a, b, c, d];
    assert ExchangeRows([a, b, c, d], 0, true, (0, 2)) == [c, b, a, d];
    assert ExchangeRows([c, b, a, d], 0, true, (1, 3)) == [c, d, a, b];
    assert ExchangeRows([c, d, a, b], 0, true, (1, 2)) == [c, a, d, b];
    RunRowsCons([a, b, c, d], 0, true, (0, 1), [(2, 3), (0, 2), (1, 3), (1, 2)]);
    RunRowsCons([a, b, c, d], 0, true, (2, 3), [(0, 2), (1, 3), (1, 2)]);
    RunRowsCons([a, b, c, d], 0, true, (0, 2), [(1, 3), (1, 2)]);
    RunRowsCons([c, b, a, d], 0, true, (1, 3), [(1, 2)]);
    RunRowsCons([c, d, a, b], 0, true, (1, 2), []);
  }

  /** Sorted ascending on column 1, the rows come out as `a, d, c, b`. */
  lemma SortTestRowsOnSecond(a: seq<Value>, b: seq<Value>, c: seq<Value>, d: seq<Value>)
    requires TestRows(a, b, c, d)
    ensures Keyed([a, b, c, d], 1)
    ensures RunRows([a, b, c, d], 1, true, SortPairs(0, PaddedSize(4))) == [a, d, c, b]
  {
    assert PaddedSize(4) == 4;
    SortPairsFour();
    KeyedFour(a, b, c, d, 1);
    KeyedFour(a, b, d, c, 1);
    KeyedFour(a, c, d, b, 1);
    assert ExchangeRows([a, b, c, d], 1, true, (0, 1)) == [a, b, c, d];
    assert ExchangeRows([a, b, c, d], 1, true, (2, 3)) == [a, b, d, c];
    assert ExchangeRows([a, b, d, c], 1, true, (0, 2)) == [a, b, d, c];
    assert ExchangeRows([a, b, d, c], 1, true, (1, 3)) == [a, c, d, b];
    assert ExchangeRows([a, c, d, b], 1, true, (1, 2)) == [a, d, c, b];
    RunRowsCons([a, b, c, d], 1, true, (0, 1), [(2, 3), (0, 2), (1, 3), (1, 2)]);
    RunRowsCons([a, b, c, d], 1, true, (2, 3), [(0, 2), (1, 3), (1, 2)]);
    RunRowsCons([a, b, d, c], 1, true, (0, 2), [(1, 3), (1, 2)]);
    RunRowsCons([a, b, d, c], 1, true, (1, 3), [(1, 2)]);
    RunRowsCons([a, c, d, b], 1, true, (1, 2), []);
  }

  /** A turn between rows with different keys writes back what it read. */
  lemma StepKeeps(rows: seq<seq<Value>>, key: nat, agg: nat, f: AggFunc, i: nat)
    requires Fits(rows, key, agg) && i + 1 < |rows| && !SameKey(rows, key, i)
    ensures ShiftStep(rows, key, agg, f, i) == rows
  {
    assert rows[i][agg := rows[i][agg]] == rows[i];
    assert rows[i + 1][agg := rows[i + 1][agg]] == rows[i + 1];
  }

  /** Scanned on key column 0 and aggregate column 1, the sorted test rows merge pairwise. */
  lemma ShiftTestRowsOnFirst(a: seq<Value>, b: seq<Value>, c: seq<Value>, d: seq<Value>, f: AggFunc)
    requires TestRows(a, b, c, d)
    ensures Fits([c, a, d, b], 0, 1)
    ensures Shift([c, a, d, b], 0, 1, f) ==
      [c[1 := Zero(c[1])], a[1 := Combine(f, c[1], a[1])], d[1 := Zero(d[1])], b[1 := Combine(f, d[1], b[1])]]
  {
    KeyedFour(c, a, d, b, 0);
    KeyedFour(c, a, d, b, 1);
    var s0 := [c, a, d, b];
    var s1 := ShiftStep(s0, 0, 1, f, 0);
    assert s1 == [c[1 := Zero(c[1])], a[1 := Combine(f, c[1], a[1])], d, b];
    StepKeeps(s1, 0, 1, f, 1);
    var s3 := ShiftStep(s1, 0, 1, f, 2);
    assert s3 == [s1[0], s1[1], d[1 := Zero(d[1])], b[1 := Combine(f, d[1], b[1])]];
    assert Shift(s0, 0, 1, f) == ShiftFrom(s1, 0, 1, f, 1) == ShiftFrom(s1, 0, 1, f, 2) == ShiftFrom(s3, 0, 1, f, 3) == s3;
  }

  /** Scanned on key column 1 and aggregate column 0, only the middle pair shares a key. */
  lemma ShiftTestRowsOnSecond(a: seq<Value>, b: seq<Value>, c: seq<Value>, d: seq<Value>, f: AggFunc)
    requires TestRows(a, b, c, d)
    ensures Fits([a, d, c, b], 1, 0)
    ensures Shift([a, d, c, b], 1, 0, f) == [a, d[0 := Zero(d[0])], c[0 := Combine(f, d[0], c[0])], b]
  {
    KeyedFour(a, d, c, b, 0);
    KeyedFour(a, d, c, b, 1);
    var s0 := [a, d, c, b];
    StepKeeps(s0, 1, 0, f, 0);
    var s2 := ShiftStep(s0, 1, 0, f, 1);
    assert s2 == [a, d[0 := Zero(d[0])], c[0 := Combine(f, d[0], c[0])], b];
    StepKeeps(s2, 1, 0, f, 2);
    assert Shift(s0, 1, 0, f) == ShiftFrom(s0, 1, 0, f, 1) == ShiftFrom(s2, 1, 0, f, 2) == ShiftFrom(s2, 1, 0, f, 3) == s2;
  }

  /** The corrected aggregation of the test rows keyed on column 0, aggregating column 1. */
  lemma AggregatedOnFirst(a: seq<Value>, b: seq<Value>, c: seq<Value>, d: seq<Value>, f: AggFunc)
    requires TestRows(a, b, c, d)
    ensures Fits([a, b, c, d], 0, 1)
    ensures Aggregated([a, b, c, d], 0, 1, f) ==
      [c[1 := Zero(c[1])], a[1 := Combine(f, c[1], a[1])], d[1 := Zero(d[1])], b[1 := Combine(f, d[1], b[1])]]
  {
    KeyedFour(a, b, c, d, 1);
    SortTestRowsOnFirst(a, b, c, d);
    ShiftTestRowsOnFirst(a, b, c, d, f);
  }

  /** The corrected aggregation of the test rows keyed on column 1, aggregating column 0. */
  lemma AggregatedOnSecond(a: seq<Value>, b: seq<Value>, c: seq<Value>, d: seq<Value>, f: AggFunc)
    requires TestRows(a, b, c, d)
    ensures Fits([a, b, c, d], 1, 0)
    ensures Aggregated([a, b, c, d], 1, 0, f) == [a, d[0 := Zero(d[0])], c[0 := Combine(f, d[0], c[0])], b]
  {
    KeyedFour(a, b, c, d, 0);
    SortTestRowsOnSecond(a, b, c, d);
    ShiftTestRowsOnSecond(a, b, c, d, f);
  }

  /**
    Keyed on column 0 and aggregating column 1, the test rows give
    `[[1, 0], [1, 5], [3, 0], [3, 7]]` for `sum`, `[[1, 0], [1, 3], [3, 0], [3, 4]]`
    for `max` and `[[1, 0], [1, 2], [3, 0], [3, 3]]` for `min`.
   */
  lemma AggregateTestRowsOnFirst(a: seq<Value>, b: seq<Value>, c: seq<Value>, d: seq<Value>, f: AggFunc, m: seq<seq<int>>)
    requires TestRows(a, b, c, d)
    requires m == match f
      case SumFunc => [[1, 0], [1, 5], [3, 0], [3, 7]]
      case MaxFunc => [[1, 0], [1, 3], [3, 0], [3, 4]]
      case MinFunc => [[1, 0], [1, 2], [3, 0], [3, 3]]
    ensures Fits([a, b, c, d], 0, 1)
    ensures Shows(Aggregated([a, b, c, d], 0, 1, f), m)
  {
    AggregatedOnFirst(a, b, c, d, f);
    ShowsFour(Aggregated([a, b, c, d], 0, 1, f), m);
  }

  /**
    Keyed on column 1 and aggregating column 0, the test rows give
    `[[1, 2], [0, 3], [4, 3], [3, 4]]` for `sum`, `[[1, 2], [0, 3], [3, 3], [3, 4]]`
    for `max` and `[[1, 2], [0, 3], [1, 3], [3, 4]]` for `min`.
   */
  lemma AggregateTestRowsOnSecond(a: seq<Value>, b: seq<Value>, c: seq<Value>, d: seq<Value>, f: AggFunc, m: seq<seq<int>>)
    requires TestRows(a, b, c, d)
    requires m == match f
      case SumFunc => [[1, 2], [0, 3], [4, 3], [3, 4]]
      case MaxFunc => [[1, 2], [0, 3], [3, 3], [3, 4]]
      case MinFunc => [[1, 2], [0, 3], [1, 3], [3, 4]]
    ensures Fits([a, b, c, d], 1, 0)
    ensures Shows(Aggregated([a, b, c, d], 1, 0, f), m)
  {
    AggregatedOnSecond(a, b, c, d, f);
    ShowsFour(Aggregated([a, b, c, d], 1, 0, f), m);
  }
}
