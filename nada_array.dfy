/**
  The two array containers.

  `NadaArray` of `array/nada_array.py` keeps a list `_data` of secret integers
  and a party set `_parties` that every insertion extends; `NadaArray` of the
  older `nada_array.py` is a Python list that admits secret, public and
  literal integers and turns a raw `int` into an `Integer` on the way in.
  Both are classes whose fields the methods reassign; a Python exception is a
  `Failed`/`Err` outcome after which the fields are as the source leaves them.
 */
module NadaArrays {
  import opened Values

  /**
    How a constructor's `*args` arrive: several (or no) loose items, one
    Python list, or one generator (a sequence here).
   */
  datatype Args = Items(items: seq<Value>) | ListArg(list: seq<Value>) | GenArg(gen: seq<Value>)

  /** The items the arguments stand for, once a list or generator is unpacked. */
  function Unpacked(args: Args): seq<Value>
  {
    match args
    case Items(s) => s
    case ListArg(s) => s
    case GenArg(s) => s
  }

  /** The length of the longest prefix of `xs` whose kinds `ok` admits. */
  function FirstRejected(xs: seq<Value>, ok: Kind -> bool): (n: nat)
    ensures n <= |xs|
    ensures forall k :: 0 <= k < n ==> ok(xs[k].kind)
    ensures n < |xs| ==> !ok(xs[n].kind)
    decreases |xs|
  {
    if xs == [] || !ok(xs[0].kind) then 0 else 1 + FirstRejected(xs[1..], ok)
  }

  /** Every item is admitted exactly when no item is rejected. */
  lemma AllAdmitted(xs: seq<Value>, ok: Kind -> bool)
    ensures FirstRejected(xs, ok) == |xs| <==> forall k :: 0 <= k < |xs| ==> ok(xs[k].kind)
  {
  }

  /** `_update_parties()`: the union of the parties of the items. */
  function UpdateParties(data: seq<Value>): (ps: set<Party>)
    ensures forall p :: p in ps <==> exists k :: 0 <= k < |data| && p in data[k].parties
  {
    UnionPartiesMembers(data);
    UnionParties(data)
  }

  lemma UnionPartiesMembers(data: seq<Value>)
    ensures forall p :: p in UnionParties(data) <==> exists k :: 0 <= k < |data| && p in data[k].parties
  {
    forall p {
      UnionPartiesMember(data, p);
    }
  }

  /** Inserting an item joins its parties to those of the sequence. */
  lemma UnionPartiesInsert(s: seq<Value>, pos: nat, x: Value)
    requires pos <= |s|
    ensures UnionParties(s[..pos] + [x] + s[pos..]) == UnionParties(s) + x.parties
  {
    UnionPartiesAppend(s[..pos] + [x], s[pos..]);
    UnionPartiesAppend(s[..pos], [x]);
    UnionPartiesAppend(s[..pos], s[pos..]);
    assert s[..pos] + s[pos..] == s;
    assert UnionParties([x]) == UnionParties([]) + x.parties;
  }

  /**
    Overwriting an item with one owned by a party no item owned changes the
    union of the parties: the set `__setitem__` leaves in place (it calls
    `_update_parties` and drops the result) is then stale.
   */
  lemma SetItemDesyncs(data: seq<Value>, pos: nat, item: Value, p: Party)
    requires pos < |data|
    requires p in item.parties && p !in UnionParties(data)
    ensures UnionParties(data[pos := item]) != UnionParties(data)
  {
    UnionPartiesMember(data[pos := item], p);
    assert data[pos := item][pos] == item;
  }

  /**
    `NadaArray` of `array/nada_array.py`.
   */
  class NadaArray {
    var data: seq<Value>
    var parties: set<Party>

    /** Every item is a secret integer, as `_check_type` demands on entry. */
    predicate Valid()
      reads this
    {
      forall k :: 0 <= k < |data| ==> SecretKind(data[k].kind)
    }

    /** The party set is the union of the items' parties. */
    predicate Synced()
      reads this
    {
      parties == UnionParties(data)
    }

    /** `NadaArray()`: no items and no parties. */
    constructor Empty()
      ensures data == [] && parties == {}
      ensures Valid() && Synced()
    {
      data := [];
      parties := {};
    }

    /**
      `NadaArray(*args)`: a single list is unpacked (and an empty one fails
      at `args[0]` with an IndexError), a single generator is drained, and
      each item is appended in turn, so the first non-secret item raises a
      TypeError.
     */
    static method New(args: Args) returns (r: Result<NadaArray>)
      ensures args == ListArg([]) ==> r == Err(IndexError)
      ensures args != ListArg([]) ==>
        (r.Ok? <==> forall k :: 0 <= k < |Unpacked(args)| ==> SecretKind(Unpacked(args)[k].kind))
      ensures r.Err? && args != ListArg([]) ==> r.error == TypeError
      ensures r.Ok? ==> fresh(r.value) && r.value.data == Unpacked(args)
      ensures r.Ok? ==> r.value.parties == UnionParties(Unpacked(args))
      ensures r.Ok? ==> r.value.Valid() && r.value.Synced()
    {
      if args == ListArg([]) {
        return Err(IndexError);
      }
      var items := Unpacked(args);
      var a := new NadaArray.Empty();
      for k := 0 to |items|
        invariant a.data == items[..k] && a.parties == UnionParties(items[..k])
        invariant forall q :: 0 <= q < k ==> SecretKind(items[q].kind)
      {
        assert items[..k + 1] == items[..k] + [items[k]];
        var st := a.Append(items[k]);
        if st.Failed? {
          return Err(st.error);
        }
      }
      assert items[..|items|] == items;
      return Ok(a);
    }

    /** `append(item)`: a secret integer goes last and its parties join the set. */
    method Append(item: Value) returns (st: Status)
      modifies this
      ensures !SecretKind(item.kind) ==> st == Failed(TypeError) && data == old(data) && parties == old(parties)
      ensures SecretKind(item.kind) ==> st == Done && data == old(data) + [item] && parties == old(parties) + item.parties
      ensures old(Valid()) ==> Valid()
      ensures old(Synced()) ==> Synced()
    {
      if !SecretKind(item.kind) {
        return Failed(TypeError);
      }
      UnionPartiesAppend(data, [item]);
      assert UnionParties([item]) == UnionParties([]) + item.parties;
      data := data + [item];
      parties := parties + item.parties;
      return Done;
    }

    /**
      `extend(iterable)`: every item is checked, and its parties added, before
      the data grows; a rejected item stops the loop with the data untouched
      but the parties of the items before it already added.
     */
    method Extend(items: seq<Value>) returns (st: Status)
      modifies this
      ensures st.Done? <==> forall k :: 0 <= k < |items| ==> SecretKind(items[k].kind)
      ensures st.Done? ==> data == old(data) + items && parties == old(parties) + UnionParties(items)
      ensures st.Failed? ==> st.error == TypeError && data == old(data)
      ensures st.Failed? ==> parties == old(parties) + UnionParties(items[..FirstRejected(items, SecretKind)])
      ensures old(Valid()) ==> Valid()
      ensures st.Done? && old(Synced()) ==> Synced()
    {
      AllAdmitted(items, SecretKind);
      for k := 0 to |items|
        invariant data == old(data)
        invariant parties == old(parties) + UnionParties(items[..k])
        invariant forall q :: 0 <= q < k ==> SecretKind(items[q].kind)
      {
        if !SecretKind(items[k].kind) {
          assert FirstRejected(items, SecretKind) == k;
          return Failed(TypeError);
        }
        assert items[..k + 1] == items[..k] + [items[k]];
        UnionPartiesAppend(items[..k], [items[k]]);
        assert UnionParties([items[k]]) == UnionParties([]) + items[k].parties;
        parties := parties + items[k].parties;
      }
      assert items[..|items|] == items;
      UnionPartiesAppend(data, items);
      data := data + items;
      return Done;
    }

    /**
      `insert(index, item)`: a secret integer is placed where Python's
      `list.insert` puts it (an index past the end appends) and its parties
      join the set.
     */
    method Insert(index: int, item: Value) returns (st: Status)
      modifies this
      ensures !SecretKind(item.kind) ==> st == Failed(TypeError) && data == old(data) && parties == old(parties)
      ensures SecretKind(item.kind) ==> st == Done && parties == old(parties) + item.parties
      ensures SecretKind(item.kind) ==>
        var pos := InsertPos(index, |old(data)|);
        data == old(data)[..pos] + [item] + old(data)[pos..]
      ensures old(Valid()) ==> Valid()
      ensures old(Synced()) ==> Synced()
    {
      if !SecretKind(item.kind) {
        return Failed(TypeError);
      }
      var pos := InsertPos(index, |data|);
      UnionPartiesInsert(data, pos, item);
      assert forall k :: 0 <= k < |data| + 1 ==>
          (data[..pos] + [item] + data[pos..])[k] == (if k < pos then data[k] else if k == pos then item else data[k - 1]);
      data := data[..pos] + [item] + data[pos..];
      parties := parties + item.parties;
      return Done;
    }

    /**
      `self[index] = item`: the type check, then Python's index check, then
      the overwrite. The party set is never touched: the union
      `_update_parties` computes is discarded, so parties of the replaced
      item stay and those of the new item are missing (see `SetItemDesyncs`).
     */
    method SetItem(index: int, item: Value) returns (st: Status)
      modifies this
      ensures !SecretKind(item.kind) ==> st == Failed(TypeError)
      ensures SecretKind(item.kind) && NormIndex(index, |old(data)|).Err? ==> st == Failed(IndexError)
      ensures st.Failed? ==> data == old(data)
      ensures SecretKind(item.kind) && NormIndex(index, |old(data)|).Ok? ==>
        st == Done && data == old(data)[NormIndex(index, |old(data)|).value := item]
      ensures parties == old(parties)
      ensures old(Valid()) ==> Valid()
    {
      if !SecretKind(item.kind) {
        return Failed(TypeError);
      }
      var pos := NormIndex(index, |data|);
      if pos.Err? {
        return Failed(pos.error);
      }
      data := data[pos.value := item];
      var _ := UpdateParties(data);
      return Done;
    }

    /** `self[index]`: Python indexing, negative indices from the end. */
    function GetItem(index: int): (r: Result<Value>)
      reads this
      ensures r.Ok? <==> -|data| <= index < |data|
      ensures r.Err? ==> r.error == IndexError
      ensures 0 <= index < |data| ==> r == Ok(data[index])
      ensures -|data| <= index < 0 ==> r == Ok(data[|data| + index])
    {
      match NormIndex(index, |data|)
      case Ok(p) => Ok(data[p])
      case Err(e) => Err(e)
    }

    /**
      `self + other`: a new array built from the list `self._data +
      other._data`, so both operands stay as they are, and two empty arrays
      make the constructor fail at `args[0]`.
     */
    method Plus(other: NadaArray) returns (r: Result<NadaArray>)
      ensures data + other.data == [] ==> r == Err(IndexError)
      ensures data + other.data != [] && Valid() && other.Valid() ==> r.Ok?
      ensures r.Ok? ==> fresh(r.value) && r.value.data == data + other.data
      ensures r.Ok? ==> r.value.parties == UnionParties(data) + UnionParties(other.data)
      ensures r.Ok? && Synced() && other.Synced() ==> r.value.parties == parties + other.parties
    {
      var both := data + other.data;
      r := New(ListArg(both));
      UnionPartiesAppend(data, other.data);
      if both != [] && Valid() && other.Valid() {
        assert forall k :: 0 <= k < |both| ==> both[k] == (if k < |data| then data[k] else other.data[k - |data|]);
      }
    }
  }

  /**
    `NadaArray` of `nada_array.py`, a Python list of secret, public and
    literal integers.
   */
  class LegacyArray {
    var items: seq<Value>

    predicate Valid()
      reads this
    {
      forall k :: 0 <= k < |items| ==> LegacyKind(items[k].kind)
    }

    constructor Empty()
      ensures items == []
    {
      items := [];
    }

    /**
      `NadaArray(*args)`: a single list is unpacked, anything else is taken as
      the items. Each argument is type-checked BEFORE a raw `int` would be
      converted, so a raw integer is rejected, and so is a generator, which
      stays one argument of its own.
     */
    static method New(args: Args) returns (r: Result<LegacyArray>)
      ensures args.GenArg? ==> r == Err(TypeError)
      ensures !args.GenArg? ==>
        (r.Ok? <==> forall k :: 0 <= k < |Unpacked(args)| ==> LegacyKind(Unpacked(args)[k].kind))
      ensures r.Err? ==> r.error == TypeError
      ensures r.Ok? ==> fresh(r.value) && r.value.items == Unpacked(args) && r.value.Valid()
    {
      if args.GenArg? {
        return Err(TypeError);
      }
      var argument := Unpacked(args);
      var a := new LegacyArray.Empty();
      for k := 0 to |argument|
        invariant a.items == argument[..k]
        invariant forall q :: 0 <= q < k ==> LegacyKind(argument[q].kind)
      {
        var item := argument[k];
        if !LegacyKind(item.kind) {
          return Err(TypeError);
        }
        assert argument[..k + 1] == argument[..k] + [item];
        var st := a.Append(item);
      }
      assert argument[..|argument|] == argument;
      return Ok(a);
    }

    /** `append(item)`: a raw `int` becomes an `Integer`, then the type check. */
    method Append(item: Value) returns (st: Status)
      modifies this
      ensures !LegacyKind(Coerce(item).kind) ==> st == Failed(TypeError) && items == old(items)
      ensures LegacyKind(Coerce(item).kind) ==> st == Done && items == old(items) + [Coerce(item)]
      ensures old(Valid()) ==> Valid()
    {
      var c := Coerce(item);
      if !LegacyKind(c.kind) {
        return Failed(TypeError);
      }
      items := items + [c];
      return Done;
    }

    /**
      `extend(iterable)`: one `append` per item, so the items before a
      rejected one stay appended.
     */
    method Extend(xs: seq<Value>) returns (st: Status)
      modifies this
      ensures st.Done? <==> forall k :: 0 <= k < |xs| ==> LegacyKind(Coerce(xs[k]).kind)
      ensures st.Done? ==> items == old(items) + CoerceAll(xs)
      ensures st.Failed? ==> st.error == TypeError
      ensures st.Failed? ==> items == old(items) + CoerceAll(xs)[..FirstRejected(CoerceAll(xs), LegacyKind)]
      ensures old(Valid()) ==> Valid()
    {
      ghost var cs := CoerceAll(xs);
      AllAdmitted(cs, LegacyKind);
      for k := 0 to |xs|
        invariant items == old(items) + cs[..k]
        invariant forall q :: 0 <= q < k ==> LegacyKind(cs[q].kind)
        invariant old(Valid()) ==> Valid()
      {
        assert cs[..k + 1] == cs[..k] + [cs[k]];
        st := Append(xs[k]);
        if st.Failed? {
          assert FirstRejected(cs, LegacyKind) == k;
          return;
        }
      }
      assert cs[..|xs|] == cs;
      return Done;
    }

    /** `insert(index, item)`: coerce, check, then Python's `list.insert`. */
    method Insert(index: int, item: Value) returns (st: Status)
      modifies this
      ensures !LegacyKind(Coerce(item).kind) ==> st == Failed(TypeError) && items == old(items)
      ensures LegacyKind(Coerce(item).kind) ==> st == Done
      ensures LegacyKind(Coerce(item).kind) ==>
        var pos := InsertPos(index, |old(items)|);
        items == old(items)[..pos] + [Coerce(item)] + old(items)[pos..]
      ensures old(Valid()) ==> Valid()
    {
      var c := Coerce(item);
      if !LegacyKind(c.kind) {
        return Failed(TypeError);
      }
      var pos := InsertPos(index, |items|);
      assert forall k :: 0 <= k < |items| + 1 ==>
          (items[..pos] + [c] + items[pos..])[k] == (if k < pos then items[k] else if k == pos then c else items[k - 1]);
      items := items[..pos] + [c] + items[pos..];
      return Done;
    }

    /** `self[index] = item`: coerce, check, then Python's index check. */
    method SetItem(index: int, item: Value) returns (st: Status)
      modifies this
      ensures !LegacyKind(Coerce(item).kind) ==> st == Failed(TypeError)
      ensures LegacyKind(Coerce(item).kind) && NormIndex(index, |old(items)|).Err? ==> st == Failed(IndexError)
      ensures st.Failed? ==> items == old(items)
      ensures LegacyKind(Coerce(item).kind) && NormIndex(index, |old(items)|).Ok? ==>
        st == Done && items == old(items)[NormIndex(index, |old(items)|).value := Coerce(item)]
      ensures old(Valid()) ==> Valid()
    {
      var c := Coerce(item);
      if !LegacyKind(c.kind) {
        return Failed(TypeError);
      }
      var pos := NormIndex(index, |items|);
      if pos.Err? {
        return Failed(pos.error);
      }
      items := items[pos.value := c];
      return Done;
    }
  }
}
