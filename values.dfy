/**
  The values the collection engine manipulates, and the small capability
  interface it uses on them.

  An oblivious value is modelled by its numeric content `val`, a kind tag
  standing for its runtime class, and the set of parties that supplied it.
  Conditional selection `cond.if_else(a, b)` is `if cond then a else b`, and
  the zero `item - item` keeps the item's kind and parties with content 0.
 */
module Values {

  /** A provenance identifier (a party name). */
  type Party = string

  /** The runtime classes the source distinguishes with `type(...)`/`isinstance`. */
  datatype Kind = SecretInteger | PublicInteger | Integer | RawInt | Other

  datatype Value = Value(kind: Kind, val: int, parties: set<Party>)

  /** `secret_int_types` of the array and table packages: exactly the secret integers. */
  predicate SecretKind(k: Kind)
  {
    k == SecretInteger
  }

  /** The classes the list-based array of `nada_array.py` admits, and `identify_first_element` looks for. */
  predicate LegacyKind(k: Kind)
  {
    k == SecretInteger || k == PublicInteger || k == Integer
  }

  /** The Python exceptions the core raises. */
  datatype Error = TypeError | ValueError | IndexError

  datatype Result<T> = Ok(value: T) | Err(error: Error)

  /** Outcome of an operation that returns nothing or raises. */
  datatype Status = Done | Failed(error: Error)

  /** `cond.if_else(a, b)` */
  function Select(cond: bool, a: Value, b: Value): Value
  {
    if cond then a else b
  }

  /** `item - item`: the additive identity in the item's own representation. */
  function Zero(a: Value): Value
  {
    a.(val := 0)
  }

  /** `a + b`: the sum keeps the left operand's kind and joins the parties. */
  function Add(a: Value, b: Value): Value
  {
    Value(a.kind, a.val + b.val, a.parties + b.parties)
  }

  /** `Integer(n)`: a public literal, owned by no party. */
  function Literal(n: int): Value
  {
    Value(Integer, n, {})
  }

  /** `Integer(item) if isinstance(item, int) else item` */
  function Coerce(v: Value): Value
  {
    if v.kind == RawInt then Literal(v.val) else v
  }

  /**
    Every element with a raw integer turned into an `Integer`: no raw integer
    is left, the numbers are kept, a raw integer becomes a literal owned by
    nobody and every other element is kept as it is.
   */
  function CoerceAll(xs: seq<Value>): (ys: seq<Value>)
    ensures |ys| == |xs|
    ensures forall k :: 0 <= k < |ys| ==> ys[k].kind != RawInt && ys[k].val == xs[k].val
    ensures forall k :: 0 <= k < |ys| ==> xs[k].kind == RawInt ==> ys[k].kind == Integer && ys[k].parties == {}
    ensures forall k :: 0 <= k < |ys| ==> xs[k].kind != RawInt ==> ys[k] == xs[k]
  {
    seq(|xs|, k requires 0 <= k < |xs| => Coerce(xs[k]))
  }

  /** Sum of the numeric contents, accumulated from the left. */
  function SumVals(s: seq<Value>): int
  {
    if s == [] then 0 else SumVals(s[..|s| - 1]) + s[|s| - 1].val
  }

  /** The union of the parties of every value in `s`. */
  function UnionParties(s: seq<Value>): set<Party>
  {
    if s == [] then {} else UnionParties(s[..|s| - 1]) + s[|s| - 1].parties
  }

  lemma {:induction false} SumValsAppend(a: seq<Value>, b: seq<Value>)
    ensures SumVals(a + b) == SumVals(a) + SumVals(b)
    decreases |b|
  {
    if b == [] {
      assert a + b == a;
    } else {
      assert (a + b)[..|a + b| - 1] == a + b[..|b| - 1];
      SumValsAppend(a, b[..|b| - 1]);
    }
  }

  /** Coercion keeps the sum of a sequence and adds no owner to it. */
  lemma {:induction false} CoerceAllKeeps(xs: seq<Value>)
    ensures SumVals(CoerceAll(xs)) == SumVals(xs)
    ensures UnionParties(CoerceAll(xs)) <= UnionParties(xs)
    decreases |xs|
  {
    if xs != [] {
      var init := xs[..|xs| - 1];
      var ys := CoerceAll(xs);
      assert ys[..|ys| - 1] == CoerceAll(init);
      CoerceAllKeeps(init);
    }
  }

  /** A party is an owner of `s` exactly when it owns one of its values. */
  lemma {:induction false} UnionPartiesMember(s: seq<Value>, p: Party)
    ensures p in UnionParties(s) <==> exists k :: 0 <= k < |s| && p in s[k].parties
    decreases |s|
  {
    if s != [] {
      var init := s[..|s| - 1];
      UnionPartiesMember(init, p);
      if p in UnionParties(init) {
        var k :| 0 <= k < |init| && p in init[k].parties;
        assert s[k] == init[k];
      }
      if k :| 0 <= k < |s| && p in s[k].parties {
        if k < |init| {
          assert init[k] == s[k];
        }
      }
    }
  }

  lemma {:induction false} UnionPartiesAppend(a: seq<Value>, b: seq<Value>)
    ensures UnionParties(a + b) == UnionParties(a) + UnionParties(b)
    decreases |b|
  {
    if b == [] {
      assert a + b == a;
    } else {
      assert (a + b)[..|a + b| - 1] == a + b[..|b| - 1];
      UnionPartiesAppend(a, b[..|b| - 1]);
    }
  }

  /**
    Python's index normalisation for `lst[index]` and `lst[index] = x`:
    negative indices count from the end; anything else out of range is an
    IndexError.
   */
  function NormIndex(index: int, len: nat): (r: Result<nat>)
    ensures r.Ok? <==> -(len as int) <= index < len
    ensures r.Ok? ==> r.value < len && (r.value == index || r.value == index + len)
  {
    if 0 <= index < len then Ok(index)
    else if -(len as int) <= index < 0 then Ok(index + len)
    else Err(IndexError)
  }

  /**
    Where Python's `lst.insert(index, x)` places `x`: a negative index counts
    from the end, and an index beyond either end is clamped to it.
   */
  function InsertPos(index: int, len: nat): (r: nat)
    ensures r <= len
    ensures 0 <= index <= len ==> r == index
    ensures index > len ==> r == len
    ensures -(len as int) <= index < 0 ==> r == index + len
    ensures index < -(len as int) ==> r == 0
  {
    if index < 0 then (if index + len < 0 then 0 else index + len)
    else if index > len then len
    else index
  }
}
