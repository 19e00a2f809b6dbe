/**
  The summations of the array layer: `sum_nada_array` (`array/arithmetic.py`)
  and `nada_sum` (`basic_ops.py`), which start from the unchecked first
  element and type-check the rest, and `nada_sum` of `nada_sum.py`, which
  first picks a starting element by class priority.
 */
module Sums {
  import opened Values
  import opened Aggregate

  /** A running `+` from the left is numeric addition, keeps the first operand's kind and joins all parties. */
  lemma {:induction false} FoldSumShape(xs: seq<Value>)
    requires |xs| > 0
    ensures Fold(SumFunc, xs).val == SumVals(xs)
    ensures Fold(SumFunc, xs).kind == xs[0].kind
    ensures Fold(SumFunc, xs).parties == UnionParties(xs)
    decreases |xs|
  {
    FoldSum(xs);
    if |xs| > 1 {
      var front := xs[..|xs| - 1];
      FoldSumShape(front);
      assert front[0] == xs[0];
    } else {
      assert xs[..0] == [];
    }
  }

  /**
    `sum_nada_array(argument)` (classes `{SecretInteger}`) and `nada_sum` of
    `basic_ops.py` (classes `{SecretInteger, PublicInteger}`): `argument[0]`
    fails on an empty input, the first element is taken unchecked, and each
    later one must be of an allowed class or the sum stops with `TypeError`.
   */
  method SumFirstUnchecked(xs: seq<Value>, allowed: set<Kind>) returns (r: Result<Value>)
    ensures xs == [] ==> r == Err(IndexError)
    ensures xs != [] ==> (r.Err? <==> exists k :: 1 <= k < |xs| && xs[k].kind !in allowed)
    ensures r.Err? ==> r.error == IndexError || r.error == TypeError
    ensures r.Ok? ==> r.value == Fold(SumFunc, xs)
  {
    if |xs| == 0 {
      return Err(IndexError);
    }
    var output := xs[0];
    var i := 1;
    while i < |xs|
      invariant 1 <= i <= |xs| && output == Fold(SumFunc, xs[..i])
      invariant forall k :: 1 <= k < i ==> xs[k].kind in allowed
    {
      if xs[i].kind !in allowed {
        return Err(TypeError);
      }
      assert xs[..i + 1][..i] == xs[..i];
      output := Add(output, xs[i]);
      i := i + 1;
    }
    assert xs[..i] == xs;
    return Ok(output);
  }

  /** The classes `sum_nada_array` accepts after the first element. */
  const SecretKinds: set<Kind> := {SecretInteger}

  /** The classes `nada_sum` of `basic_ops.py` accepts after the first element. */
  const NumericKinds: set<Kind> := {SecretInteger, PublicInteger}

  /** A single element comes back from the running sum as itself. */
  lemma SumTotals(xs: seq<Value>)
    requires |xs| > 0
    ensures |xs| == 1 ==> Fold(SumFunc, xs) == xs[0]
  {
  }

  /** The first element is never checked: a public first element still sums under `SecretKinds`. */
  lemma FirstUnchecked(p: Value, s: Value)
    requires p.kind == PublicInteger && s.kind == SecretInteger
    ensures !exists k :: 1 <= k < |[p, s]| && [p, s][k].kind !in SecretKinds
    ensures Fold(SumFunc, [p, s]).kind == PublicInteger
  {
    assert [p, s][..1] == [p];
  }

  // ---------------------------------------------------------------------------
  // `nada_sum.py`
  // ---------------------------------------------------------------------------

  /** The position of the first element of class `k`, or -1. */
  function FirstOf(xs: seq<Value>, k: Kind): (i: int)
    ensures -1 <= i < |xs|
    ensures i == -1 <==> forall j :: 0 <= j < |xs| ==> xs[j].kind != k
    ensures i >= 0 ==> xs[i].kind == k && forall j :: 0 <= j < i ==> xs[j].kind != k
  {
    if xs == [] then -1
    else if xs[0].kind == k then 0
    else
      var r := FirstOf(xs[1..], k);
      assert forall j :: 1 <= j < |xs| ==> xs[j] == xs[1..][j - 1];
      if r < 0 then -1 else r + 1
  }

  /**
    Reference definition of `identify_first_element`: the first secret
    integer, else the first public integer, else the first integer, else
    `(-1, Integer(0))`.
   */
  function Chosen(xs: seq<Value>): (int, Value)
  {
    if FirstOf(xs, SecretInteger) >= 0 then (FirstOf(xs, SecretInteger), xs[FirstOf(xs, SecretInteger)])
    else if FirstOf(xs, PublicInteger) >= 0 then (FirstOf(xs, PublicInteger), xs[FirstOf(xs, PublicInteger)])
    else if FirstOf(xs, Integer) >= 0 then (FirstOf(xs, Integer), xs[FirstOf(xs, Integer)])
    else (-1, Literal(0))
  }

  /**
    `identify_first_element(argument)`: one pass that returns at the first
    secret integer and otherwise remembers the first public integer and the
    first integer it meets.
   */
  method IdentifyFirstElement(xs: seq<Value>) returns (idx: int, e: Value)
    ensures (idx, e) == Chosen(xs)
  {
    var pubIdx, intIdx := -1, -1;
    var i := 0;
    while i < |xs|
      invariant 0 <= i <= |xs|
      invariant forall j :: 0 <= j < i ==> xs[j].kind != SecretInteger
      invariant FirstBefore(xs, PublicInteger, i, pubIdx)
      invariant FirstBefore(xs, Integer, i, intIdx)
    {
      if xs[i].kind == SecretInteger {
        FirstIs(xs, SecretInteger, i);
        return i, xs[i];
      }
      if xs[i].kind == PublicInteger && pubIdx < 0 {
        pubIdx := i;
      }
      if xs[i].kind == Integer && intIdx < 0 {
        intIdx := i;
      }
      i := i + 1;
    }
    FirstIs(xs, SecretInteger, -1);
    FirstIs(xs, PublicInteger, pubIdx);
    FirstIs(xs, Integer, intIdx);
    if pubIdx >= 0 {
      return pubIdx, xs[pubIdx];
    }
    if intIdx >= 0 {
      return intIdx, xs[intIdx];
    }
    return -1, Literal(0);
  }

  /** `p` is the first position of class `k` among the first `i` elements, or -1 if there is none. */
  predicate FirstBefore(xs: seq<Value>, k: Kind, i: nat, p: int)
    requires i <= |xs|
  {
    -1 <= p < i &&
    (p == -1 ==> forall j :: 0 <= j < i ==> xs[j].kind != k) &&
    (p >= 0 ==> xs[p].kind == k && forall j :: 0 <= j < p ==> xs[j].kind != k)
  }

  /** The first position of a class is unique. */
  lemma FirstIs(xs: seq<Value>, k: Kind, p: int)
    requires FirstBefore(xs, k, |xs|, p) || (0 <= p < |xs| && xs[p].kind == k && forall j :: 0 <= j < p ==> xs[j].kind != k)
    ensures FirstOf(xs, k) == p
  {
  }

  /** The choice is a real position holding the returned element, and follows the class priority. */
  lemma ChosenSpec(xs: seq<Value>)
    ensures var (idx, e) := Chosen(xs);
      -1 <= idx < |xs| && (idx >= 0 ==> xs[idx] == e) &&
      (idx == -1 <==> forall j :: 0 <= j < |xs| ==> !LegacyKind(xs[j].kind)) &&
      (idx == -1 ==> e == Literal(0)) &&
      (e.kind == PublicInteger ==> forall j :: 0 <= j < |xs| ==> xs[j].kind != SecretInteger) &&
      (e.kind == Integer && idx >= 0 ==> forall j :: 0 <= j < |xs| ==> xs[j].kind != SecretInteger && xs[j].kind != PublicInteger) &&
      (forall j :: 0 <= j < idx ==> xs[j].kind != e.kind)
  {
  }

  /**
    `nada_sum(argument)` of `nada_sum.py`: starts from the chosen element and
    adds every other element once, a raw integer as an `Integer`. The result
    is the total of the whole input in the chosen element's class, owned by
    every party of the converted input; an empty input gives `Integer(0)`.
   */
  method NadaSum(xs: seq<Value>) returns (output: Value)
    ensures output.val == SumVals(xs)
    ensures output.kind == Chosen(xs).1.kind
    ensures output.parties == UnionParties(CoerceAll(xs))
    ensures xs == [] ==> output == Literal(0)
  {
    var idx, first := IdentifyFirstElement(xs);
    ChosenSpec(xs);
    output := first;
    var i := 0;
    while i < |xs|
      invariant 0 <= i <= |xs|
      invariant output.kind == first.kind
      invariant output.val == first.val + SumVals(xs[..i]) - (if 0 <= idx < i then xs[idx].val else 0)
      invariant output.parties == first.parties + UnionParties(CoerceAll(xs[..i]))
    {
      assert xs[..i + 1][..i] == xs[..i];
      assert CoerceAll(xs[..i + 1])[..i] == CoerceAll(xs[..i]);
      if i != idx {
        var e := Coerce(xs[i]);
        output := Add(output, e);
      }
      i := i + 1;
    }
    assert xs[..i] == xs;
    if idx < 0 {
      assert first == Literal(0);
    }
    PartiesInclude(xs, idx);
  }

  /** The chosen element's parties are among those of the converted input. */
  lemma PartiesInclude(xs: seq<Value>, idx: int)
    requires idx == Chosen(xs).0
    ensures Chosen(xs).1.parties <= UnionParties(CoerceAll(xs))
  {
    ChosenSpec(xs);
    if idx >= 0 {
      forall p | p in Chosen(xs).1.parties
        ensures p in UnionParties(CoerceAll(xs))
      {
        UnionPartiesMember(CoerceAll(xs), p);
        assert p in CoerceAll(xs)[idx].parties;
      }
    }
  }

  /** One more element adds its number. */
  lemma SumPrefix(s: seq<Value>, n: nat)
    requires n < |s|
    ensures SumVals(s[..n + 1]) == SumVals(s[..n]) + s[n].val
  {
    assert s[..n + 1][..n] == s[..n];
  }

  /** The total of a sequence is that of its prefixes grown one element at a time. */
  lemma {:induction false} SumUpTo(s: seq<Value>, n: nat)
    requires n <= |s|
    ensures SumVals(s[..n]) == if n == 0 then 0 else SumVals(s[..n - 1]) + s[n - 1].val
  {
    if n > 0 {
      SumPrefix(s, n - 1);
    } else {
      assert s[..0] == [];
    }
  }

  /** `[1, 2, 3]` sums to 6 and `[1, 2, 3] + [2, 3, 4]` to 15. */
  lemma SumExampleSmall(a: seq<Value>, b: seq<Value>)
    requires |a| == 3 && a[0].val == 1 && a[1].val == 2 && a[2].val == 3
    requires |b| == 3 && b[0].val == 2 && b[1].val == 3 && b[2].val == 4
    ensures SumVals(a) == 6 && SumVals(a + b) == 15
  {
    SumValsAppend(a, b);
    SumUpTo(a, 0); SumUpTo(a, 1); SumUpTo(a, 2); SumUpTo(a, 3);
    SumUpTo(b, 0); SumUpTo(b, 1); SumUpTo(b, 2); SumUpTo(b, 3);
    assert a[..3] == a && b[..3] == b;
  }

  /** `[5, 6]` sums to 11 and `[5, 6] + [7, 10, 5, 2, 9]` to 44. */
  lemma SumExampleLarge(c: seq<Value>, d: seq<Value>)
    requires |c| == 2 && c[0].val == 5 && c[1].val == 6
    requires |d| == 5 && d[0].val == 7 && d[1].val == 10 && d[2].val == 5 && d[3].val == 2 && d[4].val == 9
    ensures SumVals(c) == 11 && SumVals(c + d) == 44
  {
    SumValsAppend(c, d);
    SumUpTo(c, 0); SumUpTo(c, 1); SumUpTo(c, 2);
    SumUpTo(d, 0); SumUpTo(d, 1); SumUpTo(d, 2); SumUpTo(d, 3); SumUpTo(d, 4); SumUpTo(d, 5);
    assert c[..2] == c && d[..5] == d;
  }
}
