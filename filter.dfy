/**
  The comparison filters and the running maximum and minimum of the array
  layer (`array/functions/filter.py`, the older `functions/array/filter.py`,
  `basic_ops.py` and `nada_filter.py`).

  Every comparator is the same oblivious pattern, `(item OP cmp).if_else(item,
  item - item)`, in all four files; the files differ only in which element
  classes the array collecting the results accepts, and in whether raw
  integers are converted on the way in.
 */
module Filter {
  import opened Values
  import opened Aggregate

  /** The relation of `nada_lt`, `nada_lteq`, `nada_gt`, `nada_gteq` and `nada_eq`. */
  datatype Cmp = Lt | LtEq | Gt | GtEq | Eq

  predicate Holds(op: Cmp, x: int, y: int)
  {
    match op
    case Lt => x < y
    case LtEq => x <= y
    case Gt => x > y
    case GtEq => x >= y
    case Eq => x == y
  }

  /** `nada_<op>(item, cmp)`: the item where the relation holds, its zero where it does not. */
  function Compare(op: Cmp, item: Value, cmp: Value): (r: Value)
    ensures r.kind == item.kind && r.parties == item.parties
    ensures r.val == (if Holds(op, item.val, cmp.val) then item.val else 0)
  {
    Select(Holds(op, item.val, cmp.val), item, Zero(item))
  }

  /** A comparator as the callable the filters take. */
  function Comparator(op: Cmp): (Value, Value) -> Value
  {
    (item, cmp) => Compare(op, item, cmp)
  }

  /**
    `nada_pubeq(item, cmp)`: the same pattern gated by the value type's own
    `public_equals`, which is outside the model and passed in as `pe`.
   */
  function PubEq(pe: (Value, Value) -> bool, item: Value, cmp: Value): (r: Value)
    ensures r.kind == item.kind && r.parties == item.parties
    ensures r.val == (if pe(item, cmp) then item.val else 0)
  {
    Select(pe(item, cmp), item, Zero(item))
  }

  /** Every comparator hands back the item itself or its zero, never anything else. */
  lemma CompareItemOrZero(op: Cmp, pe: (Value, Value) -> bool, item: Value, cmp: Value)
    ensures Compare(op, item, cmp) == item || Compare(op, item, cmp) == Zero(item)
    ensures PubEq(pe, item, cmp) == item || PubEq(pe, item, cmp) == Zero(item)
    ensures Compare(op, item, cmp) == item <== Holds(op, item.val, cmp.val)
    ensures Compare(op, item, cmp) == Zero(item) <== !Holds(op, item.val, cmp.val)
  {
  }

  /**
    Complementary comparators split an item: exactly one of `lt` and `gteq`
    (and of `gt` and `lteq`) passes it, and `lteq` passes what `lt` or `eq` does.
   */
  lemma CompareSplits(item: Value, cmp: Value)
    ensures Compare(Lt, item, cmp).val + Compare(GtEq, item, cmp).val == item.val
    ensures Compare(Gt, item, cmp).val + Compare(LtEq, item, cmp).val == item.val
    ensures Compare(LtEq, item, cmp).val == Compare(Lt, item, cmp).val + Compare(Eq, item, cmp).val
  {
  }

  /** The comparator cases of the two filter test files. */
  lemma CompareExamples(one: Value, two: Value)
    requires one.val == 1 && two.val == 2
    ensures Compare(Lt, one, one).val == 0 && Compare(LtEq, one, one).val == 1
    ensures Compare(Gt, two, one).val == 2 && Compare(Eq, one, two).val == 0
    ensures Compare(Lt, one, two).val == 1 && Compare(GtEq, one, one).val == 1
    ensures Compare(Eq, two, one).val == 0 && Compare(GtEq, one, two).val == 0
  {
  }

  // ---------------------------------------------------------------------------
  // Filtering an array
  // ---------------------------------------------------------------------------

  /** Reference definition: `op(item, cmp)` for every item, in order. */
  function Filtered(xs: seq<Value>, op: (Value, Value) -> Value, cmp: Value): (ys: seq<Value>)
    ensures |ys| == |xs|
  {
    seq(|xs|, k requires 0 <= k < |xs| => op(xs[k], cmp))
  }

  /**
    `filter_nada_array(argument, op, cmp)` of `array/functions/filter.py`:
    each result is appended to a fresh array, whose `append` raises
    `TypeError` for anything but a secret integer.
   */
  method FilterNadaArray(xs: seq<Value>, op: (Value, Value) -> Value, cmp: Value) returns (r: Result<seq<Value>>)
    ensures r.Ok? <==> forall k :: 0 <= k < |xs| ==> SecretKind(op(xs[k], cmp).kind)
    ensures r.Ok? ==> r.value == Filtered(xs, op, cmp)
    ensures r.Err? ==> r.error == TypeError
  {
    var out: seq<Value> := [];
    var k := 0;
    while k < |xs|
      invariant k <= |xs| && out == Filtered(xs[..k], op, cmp)
      invariant forall q :: 0 <= q < k ==> SecretKind(op(xs[q], cmp).kind)
    {
      var y := op(xs[k], cmp);
      if !SecretKind(y.kind) {
        return Err(TypeError);
      }
      out := out + [y];
      k := k + 1;
    }
    assert xs[..k] == xs;
    return Ok(out);
  }

  /**
    `filter_nada_array(argument, op, cmp)` of `functions/array/filter.py`:
    the list-based array converts a raw integer result to `Integer` and then
    admits secret integers, public integers and integers.
   */
  method FilterLegacy(xs: seq<Value>, op: (Value, Value) -> Value, cmp: Value) returns (r: Result<seq<Value>>)
    ensures r.Ok? <==> forall k :: 0 <= k < |xs| ==> LegacyKind(Coerce(op(xs[k], cmp)).kind)
    ensures r.Ok? ==> |r.value| == |xs| && forall k :: 0 <= k < |xs| ==> r.value[k] == Coerce(op(xs[k], cmp))
    ensures r.Err? ==> r.error == TypeError
  {
    var out: seq<Value> := [];
    var k := 0;
    while k < |xs|
      invariant k <= |xs| && |out| == k
      invariant forall q :: 0 <= q < k ==> out[q] == Coerce(op(xs[q], cmp)) && LegacyKind(out[q].kind)
    {
      var y := Coerce(op(xs[k], cmp));
      if !LegacyKind(y.kind) {
        return Err(TypeError);
      }
      out := out + [y];
      k := k + 1;
    }
    return Ok(out);
  }

  /**
    `nada_filter(argument, op, cmp)` of `basic_ops.py` and `nada_filter.py`:
    a raw integer `cmp` is converted once before the loop and every raw
    integer item just before `op` sees it; results go into the list-based
    array as in `FilterLegacy`.
   */
  method NadaFilter(xs: seq<Value>, op: (Value, Value) -> Value, cmp: Value) returns (r: Result<seq<Value>>)
    ensures r.Ok? <==> forall k :: 0 <= k < |xs| ==> LegacyKind(Coerce(op(Coerce(xs[k]), Coerce(cmp))).kind)
    ensures r.Ok? ==> |r.value| == |xs|
    ensures r.Ok? ==> forall k :: 0 <= k < |xs| ==> r.value[k] == Coerce(op(Coerce(xs[k]), Coerce(cmp)))
    ensures r.Err? ==> r.error == TypeError
  {
    var c := Coerce(cmp);
    var out: seq<Value> := [];
    var k := 0;
    while k < |xs|
      invariant k <= |xs| && |out| == k
      invariant forall q :: 0 <= q < k ==> out[q] == Coerce(op(Coerce(xs[q]), c)) && LegacyKind(out[q].kind)
    {
      var item := Coerce(xs[k]);
      var y := Coerce(op(item, c));
      if !LegacyKind(y.kind) {
        return Err(TypeError);
      }
      out := out + [y];
      k := k + 1;
    }
    return Ok(out);
  }

  /** Filtering a concatenation is concatenating the filtered parts. */
  lemma FilteredAppend(xs: seq<Value>, ys: seq<Value>, op: (Value, Value) -> Value, cmp: Value)
    ensures Filtered(xs + ys, op, cmp) == Filtered(xs, op, cmp) + Filtered(ys, op, cmp)
  {
    var l, r := Filtered(xs + ys, op, cmp), Filtered(xs, op, cmp) + Filtered(ys, op, cmp);
    assert |l| == |r|;
    forall k | 0 <= k < |l|
      ensures l[k] == r[k]
    {
      if k < |xs| {
        assert (xs + ys)[k] == xs[k];
      } else {
        assert (xs + ys)[k] == ys[k - |xs|];
      }
    }
  }

  /** A comparator filter keeps each element or zeroes it, according to the relation. */
  lemma FilteredByComparator(xs: seq<Value>, op: Cmp, cmp: Value)
    ensures forall k :: 0 <= k < |xs| ==>
      Filtered(xs, Comparator(op), cmp)[k] == (if Holds(op, xs[k].val, cmp.val) then xs[k] else Zero(xs[k]))
  {
  }

  /** The numbers in a sequence of values. */
  function Vals(xs: seq<Value>): (ns: seq<int>)
    ensures |ns| == |xs| && forall k :: 0 <= k < |xs| ==> ns[k] == xs[k].val
  {
    seq(|xs|, k requires 0 <= k < |xs| => xs[k].val)
  }

  /** The filter cases on `[1, 2, 3]` of `array/functions/filter.py`'s tests. */
  lemma FilterExamples(x: Value, y: Value, z: Value, two: Value, three: Value)
    requires x.val == 1 && y.val == 2 && z.val == 3 && two.val == 2 && three.val == 3
    ensures Vals(Filtered([x, y, z], Comparator(Lt), three)) == [1, 2, 0]
    ensures Vals(Filtered([x, y, z], Comparator(LtEq), three)) == [1, 2, 3]
    ensures Vals(Filtered([x, y, z], Comparator(Gt), two)) == [0, 0, 3]
    ensures Vals(Filtered([x, y, z], Comparator(GtEq), two)) == [0, 2, 3]
    ensures Vals(Filtered([x, y, z], Comparator(Eq), two)) == [0, 2, 0]
  {
  }

  /** The concatenation case: `[1, 2, 3] + [2, 3, 4]` filtered by `lt 3` is `[1, 2, 0, 2, 0, 0]`. */
  lemma FilterConcatExample(xs: seq<Value>, ys: seq<Value>, three: Value)
    requires |xs| == 3 && |ys| == 3 && three.val == 3
    requires xs[0].val == 1 && xs[1].val == 2 && xs[2].val == 3
    requires ys[0].val == 2 && ys[1].val == 3 && ys[2].val == 4
    ensures Vals(Filtered(xs + ys, Comparator(Lt), three)) == [1, 2, 0, 2, 0, 0]
  {
    FilteredAppend(xs, ys, Comparator(Lt), three);
    var l := Filtered(xs, Comparator(Lt), three);
    var r := Filtered(ys, Comparator(Lt), three);
    assert Vals(l) == [1, 2, 0];
    assert Vals(r) == [2, 0, 0];
    assert Vals(l + r) == Vals(l) + Vals(r);
  }

  // ---------------------------------------------------------------------------
  // Running maximum and minimum
  // ---------------------------------------------------------------------------

  /**
    Where the running maximum settles: the last position holding the
    largest number (a later equal element wins, because the test is strict).
   */
  function MaxIndex(vs: seq<Value>): (i: nat)
    requires |vs| > 0
    ensures i < |vs| && vs[i] == Fold(MaxFunc, vs)
    ensures forall k :: i < k < |vs| ==> vs[k].val < vs[i].val
  {
    if |vs| == 1 then 0
    else
      var front := vs[..|vs| - 1];
      if Fold(MaxFunc, front).val > vs[|vs| - 1].val then MaxIndex(front) else |vs| - 1
  }

  /** Where the running minimum settles: the last position holding the smallest number. */
  function MinIndex(vs: seq<Value>): (i: nat)
    requires |vs| > 0
    ensures i < |vs| && vs[i] == Fold(MinFunc, vs)
    ensures forall k :: i < k < |vs| ==> vs[i].val < vs[k].val
  {
    if |vs| == 1 then 0
    else
      var front := vs[..|vs| - 1];
      if Fold(MinFunc, front).val < vs[|vs| - 1].val then MinIndex(front) else |vs| - 1
  }

  /**
    `nada_max(argument)`: `argument[0]` fails on an empty input; otherwise the
    result is an element of the input with the largest number, the last such.
   */
  method NadaMax(xs: seq<Value>) returns (r: Result<Value>)
    ensures r.Err? <==> xs == []
    ensures r.Err? ==> r.error == IndexError
    ensures r.Ok? ==> r.value == Fold(MaxFunc, xs)
  {
    if |xs| == 0 {
      return Err(IndexError);
    }
    var output := xs[0];
    var i := 1;
    while i < |xs|
      invariant 1 <= i <= |xs| && output == Fold(MaxFunc, xs[..i])
    {
      assert xs[..i + 1][..i] == xs[..i];
      output := Select(output.val > xs[i].val, output, xs[i]);
      i := i + 1;
    }
    assert xs[..i] == xs;
    return Ok(output);
  }

  /** `nada_min(argument)`: the same scan with the comparison reversed. */
  method NadaMin(xs: seq<Value>) returns (r: Result<Value>)
    ensures r.Err? <==> xs == []
    ensures r.Err? ==> r.error == IndexError
    ensures r.Ok? ==> r.value == Fold(MinFunc, xs)
  {
    if |xs| == 0 {
      return Err(IndexError);
    }
    var output := xs[0];
    var i := 1;
    while i < |xs|
      invariant 1 <= i <= |xs| && output == Fold(MinFunc, xs[..i])
    {
      assert xs[..i + 1][..i] == xs[..i];
      output := Select(output.val < xs[i].val, output, xs[i]);
      i := i + 1;
    }
    assert xs[..i] == xs;
    return Ok(output);
  }

  /** The running maximum is the largest element, and the last of the largest. */
  lemma MaxIsLastLargest(xs: seq<Value>)
    requires |xs| > 0
    ensures var i := MaxIndex(xs);
      Fold(MaxFunc, xs) == xs[i] &&
      (forall k :: 0 <= k < |xs| ==> xs[k].val <= xs[i].val) &&
      (forall k :: i < k < |xs| ==> xs[k].val < xs[i].val)
  {
    FoldMax(xs);
  }

  /** The running minimum is the smallest element, and the last of the smallest. */
  lemma MinIsLastSmallest(xs: seq<Value>)
    requires |xs| > 0
    ensures var i := MinIndex(xs);
      Fold(MinFunc, xs) == xs[i] &&
      (forall k :: 0 <= k < |xs| ==> xs[i].val <= xs[k].val) &&
      (forall k :: i < k < |xs| ==> xs[i].val < xs[k].val)
  {
    FoldMin(xs);
  }

  /** `[4, 1, 3, 2, 5, 6, 5]` has maximum 6 and minimum 1. */
  lemma MaxMinExample(xs: seq<Value>)
    requires |xs| == 7
    requires xs[0].val == 4 && xs[1].val == 1 && xs[2].val == 3 && xs[3].val == 2
    requires xs[4].val == 5 && xs[5].val == 6 && xs[6].val == 5
    ensures Fold(MaxFunc, xs).val == 6 && Fold(MinFunc, xs).val == 1
  {
    FoldMax(xs);
    FoldMin(xs);
    var i, j := MaxIndex(xs), MinIndex(xs);
    assert xs[i].val >= xs[5].val && xs[j].val <= xs[1].val;
  }
}
