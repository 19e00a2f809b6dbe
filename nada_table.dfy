/**
  The two table containers.

  `NadaTable` of `table/nada_table.py` holds a list of column names, a list
  of rows (each a `NadaArray`) and a party set; `NadaTable` of the older
  `nada_table.py` holds column names and rows of the list-based array. A row
  is held here as a value: the items of its array and the party set that
  array carries.
 */
module NadaTables {
  import opened Values
  import opened Utils
  import opened Network
  import opened Sortedness
  import opened TableSort
  import opened Aggregate
  import opened NadaArrays

  /** A row of `table/nada_table.py`: the items of a `NadaArray` and its `get_parties()`. */
  datatype Row = Row(data: seq<Value>, parties: set<Party>)

  /** An argument where the source expects an array: an array `R`, or something else. */
  datatype Input<R> = Array(row: R) | NotArray

  /** A column name argument: a `str`, or something else. */
  datatype Col = Str(name: string) | NotStr

  /** The items of every row, as the sorting network and the scan see them. */
  function Data(rows: seq<Row>): (d: seq<seq<Value>>)
    ensures |d| == |rows| && forall k :: 0 <= k < |rows| ==> d[k] == rows[k].data
  {
    seq(|rows|, k requires 0 <= k < |rows| => rows[k].data)
  }

  /** `rows` with the items of row `k` replaced by `d[k]`, each row keeping its party set. */
  function WithData(rows: seq<Row>, d: seq<seq<Value>>): (out: seq<Row>)
    requires |d| == |rows|
    ensures |out| == |rows| && Data(out) == d
    ensures forall k :: 0 <= k < |rows| ==> out[k].parties == rows[k].parties
  {
    var out := seq(|rows|, k requires 0 <= k < |rows| => Row(d[k], rows[k].parties));
    assert Data(out) == d;
    out
  }

  /** The union of the rows' party sets: what `_update_parties` assigns. */
  function RowParties(rows: seq<Row>): set<Party>
  {
    if rows == [] then {} else RowParties(rows[..|rows| - 1]) + rows[|rows| - 1].parties
  }

  lemma {:induction false} RowPartiesAppend(a: seq<Row>, b: seq<Row>)
    ensures RowParties(a + b) == RowParties(a) + RowParties(b)
    decreases |b|
  {
    if b == [] {
      assert a + b == a;
    } else {
      assert (a + b)[..|a + b| - 1] == a + b[..|b| - 1];
      RowPartiesAppend(a, b[..|b| - 1]);
    }
  }

  /** A party owns a table's rows exactly when it owns one of them. */
  lemma {:induction false} RowPartiesMember(rows: seq<Row>, p: Party)
    ensures p in RowParties(rows) <==> exists k :: 0 <= k < |rows| && p in rows[k].parties
    decreases |rows|
  {
    if rows != [] {
      var init := rows[..|rows| - 1];
      RowPartiesMember(init, p);
      if p in RowParties(init) {
        var k :| 0 <= k < |init| && p in init[k].parties;
        assert rows[k] == init[k];
      }
      if k :| 0 <= k < |rows| && p in rows[k].parties {
        if k < |init| {
          assert init[k] == rows[k];
        }
      }
    }
  }

  /** Inserting a row joins its parties to those of the table. */
  lemma RowPartiesInsert(rows: seq<Row>, pos: nat, x: Row)
    requires pos <= |rows|
    ensures RowParties(rows[..pos] + [x] + rows[pos..]) == RowParties(rows) + x.parties
  {
    RowPartiesAppend(rows[..pos] + [x], rows[pos..]);
    RowPartiesAppend(rows[..pos], [x]);
    RowPartiesAppend(rows[..pos], rows[pos..]);
    assert rows[..pos] + rows[pos..] == rows;
    assert RowParties([x]) == RowParties([]) + x.parties;
  }

  function RowWidth(r: Row): nat
  {
    |r.data|
  }

  function ListWidth(r: seq<Value>): nat
  {
    |r|
  }

  /**
    The check `_check_input` (and, in the older table, `_set_data` and
    `add_row`) applies to a candidate row for a table of `w` columns.
   */
  function CheckInput<R>(x: Input<R>, width: R -> nat, w: nat): (st: Status)
  {
    if x.NotArray? then Failed(TypeError)
    else if width(x.row) != w then Failed(ValueError)
    else Done
  }

  /** The number of leading candidates that pass `CheckInput`. */
  function FirstMisfit<R>(xs: seq<Input<R>>, width: R -> nat, w: nat): (n: nat)
    ensures n <= |xs|
    ensures forall k :: 0 <= k < n ==> xs[k].Array? && width(xs[k].row) == w
    ensures n < |xs| ==> CheckInput(xs[n], width, w).Failed?
    decreases |xs|
  {
    if xs == [] || CheckInput(xs[0], width, w).Failed? then 0 else 1 + FirstMisfit(xs[1..], width, w)
  }

  /** The exception raised for the first rejected candidate. */
  function MisfitError<R>(xs: seq<Input<R>>, width: R -> nat, w: nat): (e: Error)
    requires FirstMisfit(xs, width, w) < |xs|
    ensures e == CheckInput(xs[FirstMisfit(xs, width, w)], width, w).error
    ensures e == TypeError || e == ValueError
  {
    CheckInput(xs[FirstMisfit(xs, width, w)], width, w).error
  }

  /** The arrays of candidates that are all arrays. */
  function Rows<R>(xs: seq<Input<R>>): (rs: seq<R>)
    requires forall k :: 0 <= k < |xs| ==> xs[k].Array?
    ensures |rs| == |xs| && forall k :: 0 <= k < |xs| ==> rs[k] == xs[k].row
  {
    seq(|xs|, k requires 0 <= k < |xs| => xs[k].row)
  }

  /** The candidate at `k` is the first rejected one. */
  lemma FirstMisfitAt<R>(xs: seq<Input<R>>, width: R -> nat, w: nat, k: nat)
    requires k <= |xs|
    requires forall q :: 0 <= q < k ==> CheckInput(xs[q], width, w).Done?
    requires k < |xs| ==> CheckInput(xs[k], width, w).Failed?
    ensures FirstMisfit(xs, width, w) == k
  {
  }

  /** Column `q` is a `str` not among the names before it: `_set_columns` accepts it. */
  predicate Admits(cols: seq<Col>, q: nat)
    requires q < |cols|
  {
    cols[q].Str? && cols[q] !in cols[..q]
  }

  /**
    `_set_columns(*columns)` on an emptied column list: each name is checked
    to be a `str` (TypeError) and new (ValueError) and then appended, so on
    an error the names before the rejected one stay.
   */
  method CollectColumns(cols: seq<Col>) returns (names: seq<string>, st: Status)
    ensures |names| <= |cols|
    ensures forall q :: 0 <= q < |names| ==> Admits(cols, q) && names[q] == cols[q].name
    ensures st.Done? <==> |names| == |cols|
    ensures st.Failed? ==> !Admits(cols, |names|)
    ensures st.Failed? ==> st.error == (if cols[|names|].NotStr? then TypeError else ValueError)
    ensures forall i, j :: 0 <= i < j < |names| ==> names[i] != names[j]
  {
    names := [];
    for k := 0 to |cols|
      invariant |names| == k
      invariant forall q :: 0 <= q < k ==> Admits(cols, q) && names[q] == cols[q].name
      invariant forall i, j :: 0 <= i < j < k ==> names[i] != names[j]
    {
      var c := cols[k];
      if c.NotStr? {
        return names, Failed(TypeError);
      }
      if c.name in names {
        var q :| 0 <= q < k && names[q] == c.name;
        assert cols[..k][q] == cols[q] == c;
        return names, Failed(ValueError);
      }
      names := names + [c.name];
    }
    st := Done;
  }

  /** `columns.index(name)`: the first position holding `name`, else ValueError. */
  function IndexOf(columns: seq<string>, name: string): (r: Result<nat>)
    ensures r.Ok? <==> name in columns
    ensures r.Ok? ==> r.value < |columns| && columns[r.value] == name && name !in columns[..r.value]
    ensures r.Err? ==> r.error == ValueError
    decreases |columns|
  {
    if columns == [] then Err(ValueError)
    else if columns[0] == name then Ok(0)
    else
      match IndexOf(columns[1..], name)
      case Ok(i) =>
        assert columns[1..][..i] == columns[1..i + 1];
        assert columns[..i + 1] == [columns[0]] + columns[1..i + 1];
        Ok(i + 1)
      case Err(e) => Err(e)
  }

  /** `[columns.index(c) for c in cols]` */
  function ColumnIndices(columns: seq<string>, cols: seq<string>): (r: Result<seq<nat>>)
    ensures r.Ok? <==> forall k :: 0 <= k < |cols| ==> cols[k] in columns
    ensures r.Ok? ==> |r.value| == |cols|
    ensures r.Ok? ==> forall k :: 0 <= k < |cols| ==> r.value[k] < |columns| && columns[r.value[k]] == cols[k]
    ensures r.Ok? ==> forall k :: 0 <= k < |cols| ==> IndexOf(columns, cols[k]) == Ok(r.value[k])
    ensures r.Err? ==> r.error == ValueError
  {
    if exists k :: 0 <= k < |cols| && cols[k] !in columns then Err(ValueError)
    else Ok(seq(|cols|, k requires 0 <= k < |cols| => IndexOf(columns, cols[k]).value))
  }

  /** `[r[i] for i in idx]` over the items of one row. */
  function Pick(data: seq<Value>, idx: seq<nat>): (r: Result<seq<Value>>)
    ensures r.Ok? <==> forall k :: 0 <= k < |idx| ==> idx[k] < |data|
    ensures r.Ok? ==> |r.value| == |idx| && forall k :: 0 <= k < |idx| ==> r.value[k] == data[idx[k]]
    ensures r.Ok? ==> forall k :: 0 <= k < |r.value| ==> r.value[k] in data
    ensures r.Err? ==> r.error == IndexError
  {
    if exists k :: 0 <= k < |idx| && idx[k] >= |data| then Err(IndexError)
    else Ok(seq(|idx|, k requires 0 <= k < |idx| => data[idx[k]]))
  }

  /** Every owner of the picked items is an owner of the row they come from. */
  lemma PickOwners(data: seq<Value>, idx: seq<nat>)
    requires Pick(data, idx).Ok?
    ensures UnionParties(Pick(data, idx).value) <= UnionParties(data)
  {
    var v := Pick(data, idx).value;
    forall p | p in UnionParties(v)
      ensures p in UnionParties(data)
    {
      UnionPartiesMember(v, p);
      var k :| 0 <= k < |v| && p in v[k].parties;
      assert v[k] == data[idx[k]];
      UnionPartiesMember(data, p);
    }
  }

  /**
    `NadaArray(r[i] for i in idx)`: the generator is drained first (an
    IndexError on a short row), then every item is appended (a TypeError on
    a non-secret one); the new array owns the parties of the picked items.
   */
  function ProjectRow(row: Row, idx: seq<nat>): (r: Result<Row>)
    ensures r.Ok? ==> r.value.parties == UnionParties(r.value.data)
  {
    match Pick(row.data, idx)
    case Err(e) => Err(e)
    case Ok(d) => if forall k :: 0 <= k < |d| ==> SecretKind(d[k].kind) then Ok(Row(d, UnionParties(d))) else Err(TypeError)
  }

  /** `[f(x) for x in xs]` where `f` may raise: the first exception, or every result. */
  function MapResult<R>(xs: seq<R>, f: R -> Result<R>): (r: Result<seq<R>>)
    ensures r.Ok? <==> forall k :: 0 <= k < |xs| ==> f(xs[k]).Ok?
    ensures r.Ok? ==> |r.value| == |xs| && forall k :: 0 <= k < |xs| ==> r.value[k] == f(xs[k]).value
    ensures r.Err? ==> exists k :: 0 <= k < |xs| && f(xs[k]).Err? && r.error == f(xs[k]).error &&
                                  (forall q :: 0 <= q < k ==> f(xs[q]).Ok?)
    decreases |xs|
  {
    if xs == [] then Ok([])
    else
      match f(xs[0])
      case Err(e) => Err(e)
      case Ok(y) =>
        match MapResult(xs[1..], f)
        case Err(e) =>
          assert forall k :: 0 <= k < |xs| - 1 ==> xs[1..][k] == xs[k + 1];
          Err(e)
        case Ok(ys) =>
          assert forall k :: 0 <= k < |xs| - 1 ==> xs[1..][k] == xs[k + 1];
          Ok([y] + ys)
  }

  /** A comprehension whose element `k` is the first to raise raises that exception. */
  lemma MapResultStops<R>(xs: seq<R>, f: R -> Result<R>, k: nat)
    requires k < |xs| && f(xs[k]).Err?
    requires forall q :: 0 <= q < k ==> f(xs[q]).Ok?
    ensures MapResult(xs, f) == Err(f(xs[k]).error)
  {
    var r := MapResult(xs, f);
    var j :| 0 <= j < |xs| && f(xs[j]).Err? && r.error == f(xs[j]).error && (forall q :: 0 <= q < j ==> f(xs[q]).Ok?);
    assert j == k;
  }

  /** `NadaArray(r[i] for i in idx)`, built by the array's own constructor. */
  method ProjectArray(row: Row, idx: seq<nat>) returns (r: Result<Row>)
    ensures r == ProjectRow(row, idx)
  {
    var picked := Pick(row.data, idx);
    if picked.Err? {
      return Err(picked.error);
    }
    var a := NadaArray.New(GenArg(picked.value));
    if a.Err? {
      return Err(a.error);
    }
    return Ok(Row(a.value.data, a.value.parties));
  }

  /**
    The rows `select(*cols)` builds: the column lookups run once per row, so
    a missing column is a ValueError only when there is a row; each row is
    then projected in turn.
   */
  function Selected(columns: seq<string>, rows: seq<Row>, cols: seq<string>): Result<seq<Row>>
  {
    if rows == [] then Ok([])
    else
      match ColumnIndices(columns, cols)
      case Err(e) => Err(e)
      case Ok(idx) => MapResult(rows, (r: Row) => ProjectRow(r, idx))
  }

  /** Once every row has been projected, the projections are `Selected` and all fit. */
  lemma SelectedRows(columns: seq<string>, rows: seq<Row>, cols: seq<string>, idx: seq<nat>, out: seq<Input<Row>>)
    requires rows != [] && ColumnIndices(columns, cols) == Ok(idx) && |out| == |rows|
    requires forall q :: 0 <= q < |rows| ==> ProjectRow(rows[q], idx).Ok? && out[q] == Array(ProjectRow(rows[q], idx).value)
    ensures forall q :: 0 <= q < |out| ==> out[q].Array?
    ensures FirstMisfit(out, RowWidth, |cols|) == |out|
    ensures Selected(columns, rows, cols) == Ok(Rows(out))
  {
    var spec := MapResult(rows, (q: Row) => ProjectRow(q, idx));
    assert spec.Ok?;
    assert Rows(out) == spec.value;
    FirstMisfitAt(out, RowWidth, |cols|, |out|);
  }

  /**
    On a table whose rows are as wide as its column list and hold secret
    integers, `select` fails exactly when a requested column is missing and
    there is a row; otherwise row `k` of the result holds, in the requested
    order, the items of row `k` under the requested names, and owns their
    parties.
   */
  lemma SelectedSpec(columns: seq<string>, rows: seq<Row>, cols: seq<string>)
    requires forall k :: 0 <= k < |rows| ==> |rows[k].data| == |columns|
    requires forall k, j :: 0 <= k < |rows| && 0 <= j < |rows[k].data| ==> SecretKind(rows[k].data[j].kind)
    ensures var r := Selected(columns, rows, cols);
      (r.Ok? <==> rows == [] || forall j :: 0 <= j < |cols| ==> cols[j] in columns) &&
      (r.Err? ==> r.error == ValueError) &&
      (r.Ok? ==> |r.value| == |rows| && forall k :: 0 <= k < |rows| ==>
        |r.value[k].data| == |cols| && r.value[k].parties == UnionParties(r.value[k].data) &&
        forall j :: 0 <= j < |cols| ==> r.value[k].data[j] == rows[k].data[IndexOf(columns, cols[j]).value])
  {
    if rows != [] {
      var ci := ColumnIndices(columns, cols);
      if ci.Ok? {
        var idx := ci.value;
        forall k | 0 <= k < |rows|
          ensures ProjectRow(rows[k], idx).Ok?
          ensures |ProjectRow(rows[k], idx).value.data| == |cols|
          ensures forall j :: 0 <= j < |cols| ==> ProjectRow(rows[k], idx).value.data[j] == rows[k].data[IndexOf(columns, cols[j]).value]
        {
          var p := Pick(rows[k].data, idx);
          assert p.Ok?;
          forall j | 0 <= j < |cols|
            ensures idx[j] == IndexOf(columns, cols[j]).value
          {
            IndexOfUnique(columns, cols[j], idx[j]);
          }
        }
      }
    }
  }

  /** `cols[j]` found at `i` is found by `IndexOf` at `i` only if no earlier column has the name. */
  lemma IndexOfUnique(columns: seq<string>, name: string, i: nat)
    requires i < |columns| && columns[i] == name
    ensures IndexOf(columns, name).Ok? && IndexOf(columns, name).value <= i
  {
  }

  /** A table whose rows are the new table's `[[1, 2, 3], [4, 5, 6]]` over secret integers. */
  predicate TestTable(rows: seq<Row>)
  {
    |rows| == 2 && |rows[0].data| == 3 && |rows[1].data| == 3 &&
    (forall k, j :: 0 <= k < 2 && 0 <= j < 3 ==> SecretKind(rows[k].data[j].kind)) &&
    rows[0].data[0].val == 1 && rows[0].data[1].val == 2 && rows[0].data[2].val == 3 &&
    rows[1].data[0].val == 4 && rows[1].data[1].val == 5 && rows[1].data[2].val == 6
  }

  lemma ColumnExamples()
    ensures IndexOf(["a", "b"], "a") == Ok(0) && IndexOf(["a", "b"], "b") == Ok(1)
    ensures IndexOf(["a", "b", "c"], "a") == Ok(0) && IndexOf(["a", "b", "c"], "b") == Ok(1) && IndexOf(["a", "b", "c"], "c") == Ok(2)
    ensures IndexOf(["a", "b"], "c") == Err(ValueError)
  {
    assert ["a", "b"][1..] == ["b"];
    assert ["a", "b", "c"][1..] == ["b", "c"];
    assert ["b", "c"][1..] == ["c"];
    assert ["b"][1..] == [];
    assert "a" != "b" && "a" != "c" && "b" != "c";
  }

  /**
    The selections of the table tests on `[[1, 2, 3], [4, 5, 6]]` with
    columns `a, b, c`: here of `a, b`.
   */
  lemma SelectAB(rows: seq<Row>)
    requires TestTable(rows)
    ensures Selected(["a", "b", "c"], rows, ["a", "b"]).Ok?
    ensures Shows(Data(Selected(["a", "b", "c"], rows, ["a", "b"]).value), [[1, 2], [4, 5]])
  {
    ColumnExamples();
    ColumnIndicesOf(["a", "b", "c"], ["a", "b"], [0, 1]);
    SelectShows(["a", "b", "c"], rows, ["a", "b"], [0, 1], [[1, 2], [4, 5]]);
  }

  /** The same table, selecting `a, c`. */
  lemma SelectAC(rows: seq<Row>)
    requires TestTable(rows)
    ensures Selected(["a", "b", "c"], rows, ["a", "c"]).Ok?
    ensures Shows(Data(Selected(["a", "b", "c"], rows, ["a", "c"]).value), [[1, 3], [4, 6]])
  {
    ColumnExamples();
    ColumnIndicesOf(["a", "b", "c"], ["a", "c"], [0, 2]);
    SelectShows(["a", "b", "c"], rows, ["a", "c"], [0, 2], [[1, 3], [4, 6]]);
  }

  /** The same table, selecting `b`. */
  lemma SelectB(rows: seq<Row>)
    requires TestTable(rows)
    ensures Selected(["a", "b", "c"], rows, ["b"]).Ok?
    ensures Shows(Data(Selected(["a", "b", "c"], rows, ["b"]).value), [[2], [5]])
  {
    ColumnExamples();
    ColumnIndicesOf(["a", "b", "c"], ["b"], [1]);
    SelectShows(["a", "b", "c"], rows, ["b"], [1], [[2], [5]]);
  }

  /** The same table, selecting `c`. */
  lemma SelectC(rows: seq<Row>)
    requires TestTable(rows)
    ensures Selected(["a", "b", "c"], rows, ["c"]).Ok?
    ensures Shows(Data(Selected(["a", "b", "c"], rows, ["c"]).value), [[3], [6]])
  {
    ColumnExamples();
    ColumnIndicesOf(["a", "b", "c"], ["c"], [2]);
    SelectShows(["a", "b", "c"], rows, ["c"], [2], [[3], [6]]);
  }

  /** Column indices are the `IndexOf` of each requested name, whenever those are found. */
  lemma ColumnIndicesOf(columns: seq<string>, cols: seq<string>, idx: seq<nat>)
    requires |idx| == |cols| && forall j :: 0 <= j < |cols| ==> IndexOf(columns, cols[j]) == Ok(idx[j])
    ensures ColumnIndices(columns, cols) == Ok(idx)
  {
    var r := ColumnIndices(columns, cols);
    assert r.Ok? by {
      forall j | 0 <= j < |cols| ensures cols[j] in columns {
        assert IndexOf(columns, cols[j]).Ok?;
      }
    }
    assert r.value == idx;
  }

  /** Select on a non-empty table shows `m` when `m` holds the picked numbers. */
  lemma SelectShows(columns: seq<string>, rows: seq<Row>, cols: seq<string>, idx: seq<nat>, m: seq<seq<int>>)
    requires rows != [] && ColumnIndices(columns, cols) == Ok(idx)
    requires forall k :: 0 <= k < |rows| ==> |rows[k].data| == |columns|
    requires forall k, j :: 0 <= k < |rows| && 0 <= j < |rows[k].data| ==> SecretKind(rows[k].data[j].kind)
    requires |m| == |rows| && forall k :: 0 <= k < |rows| ==> |m[k]| == |idx|
    requires forall k, j :: 0 <= k < |rows| && 0 <= j < |idx| ==> m[k][j] == rows[k].data[idx[j]].val
    ensures Selected(columns, rows, cols).Ok?
    ensures Shows(Data(Selected(columns, rows, cols).value), m)
  {
    forall k | 0 <= k < |rows|
      ensures ProjectRow(rows[k], idx).Ok?
      ensures |ProjectRow(rows[k], idx).value.data| == |idx|
      ensures forall j :: 0 <= j < |idx| ==> ProjectRow(rows[k], idx).value.data[j] == rows[k].data[idx[j]]
    {
      assert Pick(rows[k].data, idx).Ok?;
    }
  }

  /**
    `NadaTable` of `table/nada_table.py`.
   */
  class NadaTable {
    var columns: seq<string>
    var rows: seq<Row>
    var parties: set<Party>

    /** Every row is as wide as the column list, as `_check_input` demands on entry. */
    predicate Fitted()
      reads this
    {
      forall k :: 0 <= k < |rows| ==> |rows[k].data| == |columns|
    }

    /** The party set is the union of the rows' party sets. */
    predicate Synced()
      reads this
    {
      parties == RowParties(rows)
    }

    /** `NadaTable(*columns)`: the names are taken as given, unchecked. */
    constructor Init(cols: seq<string>)
      ensures columns == cols && rows == [] && parties == {}
      ensures Fitted() && Synced()
    {
      columns := cols;
      rows := [];
      parties := {};
    }

    /** `NadaTable(*columns, rows=data)`: the names unchecked, then `set_data(data)`. */
    static method New(cols: seq<string>, data: seq<Input<Row>>) returns (r: Result<NadaTable>)
      ensures r.Ok? <==> FirstMisfit(data, RowWidth, |cols|) == |data|
      ensures r.Err? ==> r.error == MisfitError(data, RowWidth, |cols|)
      ensures r.Ok? ==> fresh(r.value) && r.value.columns == cols && r.value.rows == Rows(data)
      ensures r.Ok? ==> r.value.Fitted() && r.value.Synced()
    {
      var t := new NadaTable.Init(cols);
      var st := t.SetData(data);
      if st.Failed? {
        return Err(st.error);
      }
      return Ok(t);
    }

    /**
      `extend(rows)`: every row is checked, and its parties added, before the
      rows grow; a rejected row stops the loop with the rows untouched but
      the parties of the rows before it already added.
     */
    method Extend(data: seq<Input<Row>>) returns (st: Status)
      modifies this
      ensures columns == old(columns)
      ensures st.Done? <==> FirstMisfit(data, RowWidth, |columns|) == |data|
      ensures st.Done? ==> rows == old(rows) + Rows(data) && parties == old(parties) + RowParties(Rows(data))
      ensures st.Failed? ==> rows == old(rows) && st.error == MisfitError(data, RowWidth, |columns|)
      ensures st.Failed? ==> parties == old(parties) + RowParties(Rows(data[..FirstMisfit(data, RowWidth, |columns|)]))
      ensures old(Fitted()) ==> Fitted()
      ensures st.Done? && old(Synced()) ==> Synced()
    {
      for k := 0 to |data|
        invariant rows == old(rows) && columns == old(columns)
        invariant forall q :: 0 <= q < k ==> CheckInput(data[q], RowWidth, |columns|).Done?
        invariant parties == old(parties) + RowParties(Rows(data[..k]))
      {
        var c := CheckInput(data[k], RowWidth, |columns|);
        if c.Failed? {
          FirstMisfitAt(data, RowWidth, |columns|, k);
          return c;
        }
        assert data[..k + 1] == data[..k] + [data[k]];
        assert Rows(data[..k + 1]) == Rows(data[..k]) + [data[k].row];
        RowPartiesAppend(Rows(data[..k]), [data[k].row]);
        assert RowParties([data[k].row]) == RowParties([]) + data[k].row.parties;
        parties := parties + data[k].row.parties;
      }
      FirstMisfitAt(data, RowWidth, |columns|, |data|);
      assert data[..|data|] == data;
      RowPartiesAppend(rows, Rows(data));
      rows := rows + Rows(data);
      return Done;
    }

    /** `append(row)`: a checked row goes last and its parties join the set. */
    method Append(x: Input<Row>) returns (st: Status)
      modifies this
      ensures columns == old(columns)
      ensures st == CheckInput(x, RowWidth, |columns|)
      ensures st.Failed? ==> rows == old(rows) && parties == old(parties)
      ensures st.Done? ==> rows == old(rows) + [x.row] && parties == old(parties) + x.row.parties
      ensures old(Fitted()) ==> Fitted()
      ensures old(Synced()) ==> Synced()
    {
      st := CheckInput(x, RowWidth, |columns|);
      if st.Failed? {
        return;
      }
      RowPartiesAppend(rows, [x.row]);
      assert RowParties([x.row]) == RowParties([]) + x.row.parties;
      rows := rows + [x.row];
      parties := parties + x.row.parties;
    }

    /** `insert(index, row)`: a checked row goes where `list.insert` puts it. */
    method Insert(index: int, x: Input<Row>) returns (st: Status)
      modifies this
      ensures columns == old(columns)
      ensures st == CheckInput(x, RowWidth, |columns|)
      ensures st.Failed? ==> rows == old(rows) && parties == old(parties)
      ensures st.Done? ==>
        var pos := InsertPos(index, |old(rows)|);
        rows == old(rows)[..pos] + [x.row] + old(rows)[pos..]
      ensures st.Done? ==> parties == old(parties) + x.row.parties
      ensures old(Fitted()) ==> Fitted()
      ensures old(Synced()) ==> Synced()
    {
      st := CheckInput(x, RowWidth, |columns|);
      if st.Failed? {
        return;
      }
      var pos := InsertPos(index, |rows|);
      RowPartiesInsert(rows, pos, x.row);
      assert forall k :: 0 <= k < |rows| + 1 ==>
          (rows[..pos] + [x.row] + rows[pos..])[k] == (if k < pos then rows[k] else if k == pos then x.row else rows[k - 1]);
      rows := rows[..pos] + [x.row] + rows[pos..];
      parties := parties + x.row.parties;
    }

    /**
      `self[index] = row`: the check, Python's index check, the overwrite, and
      the party set recomputed from the rows.
     */
    method SetItem(index: int, x: Input<Row>) returns (st: Status)
      modifies this
      ensures columns == old(columns)
      ensures CheckInput(x, RowWidth, |columns|).Failed? ==> st == CheckInput(x, RowWidth, |columns|)
      ensures CheckInput(x, RowWidth, |columns|).Done? && NormIndex(index, |old(rows)|).Err? ==> st == Failed(IndexError)
      ensures st.Failed? ==> rows == old(rows) && parties == old(parties)
      ensures st.Done? ==> x.Array? && NormIndex(index, |old(rows)|).Ok?
      ensures st.Done? ==> rows == old(rows)[NormIndex(index, |old(rows)|).value := x.row] && Synced()
      ensures old(Fitted()) ==> Fitted()
    {
      st := CheckInput(x, RowWidth, |columns|);
      if st.Failed? {
        return;
      }
      var pos := NormIndex(index, |rows|);
      if pos.Err? {
        return Failed(pos.error);
      }
      rows := rows[pos.value := x.row];
      parties := RowParties(rows);
    }

    /** `self[index]`: Python indexing, negative indices from the end. */
    function GetItem(index: int): (r: Result<Row>)
      reads this
      ensures r.Ok? <==> -|rows| <= index < |rows|
      ensures r.Err? ==> r.error == IndexError
      ensures 0 <= index < |rows| ==> r == Ok(rows[index])
      ensures -|rows| <= index < 0 ==> r == Ok(rows[|rows| + index])
    {
      match NormIndex(index, |rows|)
      case Ok(p) => Ok(rows[p])
      case Err(e) => Err(e)
    }

    /** `del self[index]`: the row goes and the party set is recomputed. */
    method DelItem(index: int) returns (st: Status)
      modifies this
      ensures columns == old(columns)
      ensures NormIndex(index, |old(rows)|).Err? ==> st == Failed(IndexError) && rows == old(rows) && parties == old(parties)
      ensures NormIndex(index, |old(rows)|).Ok? ==> st == Done
      ensures NormIndex(index, |old(rows)|).Ok? ==>
        var p := NormIndex(index, |old(rows)|).value;
        rows == old(rows)[..p] + old(rows)[p + 1..]
      ensures st.Done? ==> Synced()
      ensures old(Fitted()) ==> Fitted()
    {
      var pos := NormIndex(index, |rows|);
      if pos.Err? {
        return Failed(pos.error);
      }
      var p := pos.value;
      assert forall k :: 0 <= k < |rows| - 1 ==> (rows[..p] + rows[p + 1..])[k] == (if k < p then rows[k] else rows[k + 1]);
      rows := rows[..p] + rows[p + 1..];
      parties := RowParties(rows);
      return Done;
    }

    /**
      `set_columns(*columns)`: the list is emptied and refilled by
      `_set_columns`, so a rejected name leaves the names before it. The rows
      are not re-checked against the new width.
     */
    method SetColumns(cols: seq<Col>) returns (st: Status)
      modifies this
      ensures rows == old(rows) && parties == old(parties)
      ensures |columns| <= |cols|
      ensures forall q :: 0 <= q < |columns| ==> Admits(cols, q) && columns[q] == cols[q].name
      ensures st.Done? <==> |columns| == |cols|
      ensures st.Failed? ==> !Admits(cols, |columns|)
      ensures st.Failed? ==> st.error == (if cols[|columns|].NotStr? then TypeError else ValueError)
      ensures forall i, j :: 0 <= i < j < |columns| ==> columns[i] != columns[j]
    {
      columns := [];
      columns, st := CollectColumns(cols);
    }

    /**
      `set_data(data)`: the rows are emptied and refilled by `extend`; the
      party set is NOT emptied first, so parties of the replaced rows stay.
     */
    method SetData(data: seq<Input<Row>>) returns (st: Status)
      modifies this
      ensures columns == old(columns)
      ensures st.Done? <==> FirstMisfit(data, RowWidth, |columns|) == |data|
      ensures st.Done? ==> rows == Rows(data) && parties == old(parties) + RowParties(Rows(data))
      ensures st.Failed? ==> rows == [] && st.error == MisfitError(data, RowWidth, |columns|)
      ensures st.Failed? ==> parties == old(parties) + RowParties(Rows(data[..FirstMisfit(data, RowWidth, |columns|)]))
      ensures Fitted()
    {
      rows := [];
      st := Extend(data);
    }

    /**
      `select(*cols)`: a new table named `cols` whose rows are the projected
      arrays; this table is left as it is.
     */
    method Select(cols: seq<string>) returns (r: Result<NadaTable>)
      ensures r.Ok? <==> Selected(columns, rows, cols).Ok?
      ensures r.Err? ==> r.error == Selected(columns, rows, cols).error
      ensures r.Ok? ==> fresh(r.value) && r.value.columns == cols && r.value.rows == Selected(columns, rows, cols).value
      ensures r.Ok? ==> r.value.Fitted() && r.value.Synced()
    {
      if rows == [] {
        r := New(cols, []);
        return;
      }
      var ci := ColumnIndices(columns, cols);
      if ci.Err? {
        return Err(ci.error);
      }
      var idx := ci.value;
      var out: seq<Input<Row>> := [];
      for k := 0 to |rows|
        invariant |out| == k
        invariant forall q :: 0 <= q < k ==> ProjectRow(rows[q], idx).Ok? && out[q] == Array(ProjectRow(rows[q], idx).value)
      {
        var p := ProjectArray(rows[k], idx);
        if p.Err? {
          MapResultStops(rows, (q: Row) => ProjectRow(q, idx), k);
          return Err(p.error);
        }
        out := out + [Array(p.value)];
      }
      SelectedRows(columns, rows, cols, idx, out);
      r := New(cols, out);
    }

    /**
      `concat(other)`: the column lists must agree (ValueError); the new table
      holds this table's rows, then the other's, each checked again.
     */
    method Concat(other: NadaTable) returns (r: Result<NadaTable>)
      ensures columns != other.columns ==> r == Err(ValueError)
      ensures columns == other.columns ==>
        (r.Ok? <==> forall k :: 0 <= k < |rows + other.rows| ==> |(rows + other.rows)[k].data| == |columns|)
      ensures r.Err? ==> r.error == ValueError
      ensures r.Ok? ==> fresh(r.value) && r.value.columns == columns && r.value.rows == rows + other.rows
      ensures r.Ok? ==> r.value.parties == RowParties(rows) + RowParties(other.rows)
      ensures r.Ok? && Synced() && other.Synced() ==> r.value.parties == parties + other.parties
    {
      if columns != other.columns {
        return Err(ValueError);
      }
      var both := rows + other.rows;
      var data := seq(|both|, k requires 0 <= k < |both| => Array(both[k]));
      assert forall k :: 0 <= k < |data| ==> (CheckInput(data[k], RowWidth, |columns|).Done? <==> |both[k].data| == |columns|);
      assert forall k :: 0 <= k < |data| ==> data[k].Array?;
      assert forall k :: 0 <= k < |data| ==> Rows(data)[k] == both[k];
      r := New(columns, data);
      RowPartiesAppend(rows, other.rows);
      if r.Ok? {
        assert Rows(data) == both;
      } else {
        var n := FirstMisfit(data, RowWidth, |columns|);
        assert CheckInput(data[n], RowWidth, |columns|).Failed?;
      }
    }

    /**
      `sort_by(key_col, ascending)`: the key name is looked up (ValueError),
      then the row sort runs over the rows in place. Each row object keeps
      its position and its party set; only its items are rewritten.

      The rows need only share a width `w`, which `set_columns` may have left
      different from the number of column names. A key index at or past `w`
      fails with IndexError at the first exchange, `(0, 1)`, before anything
      is written; a single row meets no exchange at all.
     */
    method SortBy(keyCol: string, asc: bool, ghost w: nat) returns (st: Status)
      requires Uniform(Data(rows), w)
      modifies this
      ensures columns == old(columns) && parties == old(parties) && Uniform(Data(rows), w)
      ensures old(Fitted()) ==> Fitted()
      ensures IndexOf(columns, keyCol).Err? ==> st == Failed(ValueError) && rows == old(rows)
      ensures IndexOf(columns, keyCol).Ok? && IndexOf(columns, keyCol).value >= w && |old(rows)| >= 2 ==>
        st == Failed(IndexError) && rows == old(rows) &&
        var ps := SortPairs(0, PaddedSize(|old(rows)|));
        |ps| > 0 && ps[0] == (0, 1)
      ensures IndexOf(columns, keyCol).Ok? && IndexOf(columns, keyCol).value >= w && |old(rows)| == 1 ==>
        st == Done && rows == old(rows)
      ensures IndexOf(columns, keyCol).Ok? && (IndexOf(columns, keyCol).value < w || |old(rows)| == 0) ==>
        var key := IndexOf(columns, keyCol).value;
        st == Done && Keyed(Data(old(rows)), key) &&
        rows == WithData(old(rows), RunRows(Data(old(rows)), key, asc, SortPairs(0, PaddedSize(|old(rows)|))))
      ensures IndexOf(columns, keyCol).Ok? && (IndexOf(columns, keyCol).value < w || |old(rows)| == 0) ==>
        var key := IndexOf(columns, keyCol).value;
        Keyed(Data(rows), key) && Ordered(Keys(Data(rows), key), asc) &&
        multiset(Data(rows)) == multiset(Data(old(rows)))
    {
      var i := IndexOf(columns, keyCol);
      if i.Err? {
        return Failed(i.error);
      }
      var key := i.value;
      if |rows| >= 1 && key >= |rows[0].data| {
        if |rows| == 1 {
          return Done;
        }
        // the first scheduled exchange reads the key cell of row 0
        PaddedSizeSpec(|rows|);
        SortPairsOpens(0, PaddedSize(|rows|));
        return Failed(IndexError);
      }
      var t := new seq<Value>[|rows|](k requires 0 <= k < |rows| reads this => rows[k].data);
      assert t[..] == Data(rows);
      OddEvenSortRows(t, key, asc, w);
      rows := WithData(rows, t[..]);
      return Done;
    }

    /**
      `aggregate_sum`, `aggregate_max` and `aggregate_min(key_col, agg_col)`:
      equal names are a ValueError before anything else, then both names are
      looked up (ValueError), then the corrected aggregation of
      `functions/table/agg.py` rewrites the items in place; each row keeps its
      position and its party set.

      As for `SortBy`, the rows need only share a width `w`. With two rows or
      more, a key index at or past `w` fails in the sort before anything is
      written; an aggregate index at or past `w` lets the sort finish and then
      fails when the shift reads the aggregate cell of row 0.
     */
    method Aggregate(keyCol: string, aggCol: string, f: AggFunc, ghost w: nat) returns (st: Status)
      requires Uniform(Data(rows), w)
      modifies this
      ensures columns == old(columns) && parties == old(parties) && Uniform(Data(rows), w)
      ensures old(Fitted()) ==> Fitted()
      ensures keyCol == aggCol ==> st == Failed(ValueError) && rows == old(rows)
      ensures keyCol != aggCol && (IndexOf(columns, keyCol).Err? || IndexOf(columns, aggCol).Err?) ==>
        st == Failed(ValueError) && rows == old(rows)
      ensures keyCol != aggCol && IndexOf(columns, keyCol).Ok? && IndexOf(columns, aggCol).Ok? ==>
        var key := IndexOf(columns, keyCol).value;
        var agg := IndexOf(columns, aggCol).value;
        key != agg &&
        ((key < w && agg < w) || |old(rows)| == 0 ==>
          st == Done && Fits(Data(old(rows)), key, agg) &&
          rows == WithData(old(rows), Aggregated(Data(old(rows)), key, agg, f)))
      ensures keyCol != aggCol && IndexOf(columns, keyCol).Ok? && IndexOf(columns, aggCol).Ok? ==>
        var key := IndexOf(columns, keyCol).value;
        var agg := IndexOf(columns, aggCol).value;
        |old(rows)| == 1 && !(key < w && agg < w) ==> st == Done && rows == old(rows)
      ensures keyCol != aggCol && IndexOf(columns, keyCol).Ok? && IndexOf(columns, aggCol).Ok? ==>
        var key := IndexOf(columns, keyCol).value;
        |old(rows)| >= 2 && key >= w ==> st == Failed(IndexError) && rows == old(rows)
      ensures keyCol != aggCol && IndexOf(columns, keyCol).Ok? && IndexOf(columns, aggCol).Ok? ==>
        var key := IndexOf(columns, keyCol).value;
        var agg := IndexOf(columns, aggCol).value;
        |old(rows)| >= 2 && key < w && agg >= w ==>
          st == Failed(IndexError) && Keyed(Data(old(rows)), key) &&
          rows == WithData(old(rows), RunRows(Data(old(rows)), key, true, SortPairs(0, PaddedSize(|old(rows)|))))
    {
      if keyCol == aggCol {
        return Failed(ValueError);
      }
      var ki := IndexOf(columns, keyCol);
      if ki.Err? {
        return Failed(ki.error);
      }
      var ai := IndexOf(columns, aggCol);
      if ai.Err? {
        return Failed(ai.error);
      }
      var key, agg := ki.value, ai.value;
      if |rows| >= 1 && (key >= |rows[0].data| || agg >= |rows[0].data|) {
        if |rows| == 1 {
          return Done;
        }
        if key >= |rows[0].data| {
          // the first scheduled exchange reads the key cell of row 0
          return Failed(IndexError);
        }
        var s := new seq<Value>[|rows|](k requires 0 <= k < |rows| reads this => rows[k].data);
        assert s[..] == Data(rows);
        OddEvenSortRows(s, key, true, w);
        rows := WithData(rows, s[..]);
        // the shift then reads the aggregate cell of row 0
        return Failed(IndexError);
      }
      var t := new seq<Value>[|rows|](k requires 0 <= k < |rows| reads this => rows[k].data);
      assert t[..] == Data(rows);
      match f {
        case SumFunc => st := AggregateSum(t, key, agg, w);
        case MaxFunc => st := AggregateMax(t, key, agg, w);
        case MinFunc => st := AggregateMin(t, key, agg, w);
      }
      AggregatedKeepsWidth(Data(old(rows)), key, agg, f, w);
      rows := WithData(rows, t[..]);
    }
  }

  /** `NadaArray(*[r[i] for i in idx])` for a row of the list-based array. */
  function LegacyProjectRow(row: seq<Value>, idx: seq<nat>): Result<seq<Value>>
  {
    match Pick(row, idx)
    case Err(e) => Err(e)
    case Ok(d) => if forall k :: 0 <= k < |d| ==> LegacyKind(d[k].kind) then Ok(d) else Err(TypeError)
  }

  /** `NadaArray([r[i] for i in idx])` with the list-based array's constructor. */
  method LegacyProjectArray(row: seq<Value>, idx: seq<nat>) returns (r: Result<seq<Value>>)
    ensures r == LegacyProjectRow(row, idx)
  {
    var picked := Pick(row, idx);
    if picked.Err? {
      return Err(picked.error);
    }
    var a := LegacyArray.New(ListArg(picked.value));
    if a.Err? {
      return Err(a.error);
    }
    return Ok(a.value.items);
  }

  /** What the older `select(*cols)` evidently means: every row projected onto `cols`. */
  function LegacySelected(columns: seq<string>, rows: seq<seq<Value>>, cols: seq<string>): Result<seq<seq<Value>>>
  {
    if rows == [] then Ok([])
    else
      match ColumnIndices(columns, cols)
      case Err(e) => Err(e)
      case Ok(idx) => MapResult(rows, (r: seq<Value>) => LegacyProjectRow(r, idx))
  }

  /**
    What the older `select(*cols)` does: `NadaArray(<generator>)` of
    `nada_array.py` type-checks its single generator argument, so the first
    row fails with a TypeError once its column lookups succeed.
   */
  function LegacySelectedAsWritten(columns: seq<string>, rows: seq<seq<Value>>, cols: seq<string>): (r: Result<seq<seq<Value>>>)
    ensures r.Ok? <==> rows == []
  {
    if rows == [] then Ok([])
    else
      match ColumnIndices(columns, cols)
      case Err(e) => Err(e)
      case Ok(_) => Err(TypeError)
  }

  /**
    On a table of fitting rows of admitted items, the projection fails only
    for a missing column of a non-empty table, and row `k` of its result
    holds the items of row `k` under the requested names.
   */
  lemma LegacySelectedSpec(columns: seq<string>, rows: seq<seq<Value>>, cols: seq<string>)
    requires forall k :: 0 <= k < |rows| ==> |rows[k]| == |columns|
    requires forall k, j :: 0 <= k < |rows| && 0 <= j < |rows[k]| ==> LegacyKind(rows[k][j].kind)
    ensures var r := LegacySelected(columns, rows, cols);
      (r.Ok? <==> rows == [] || forall j :: 0 <= j < |cols| ==> cols[j] in columns) &&
      (r.Err? ==> r.error == ValueError) &&
      (r.Ok? ==> |r.value| == |rows| && forall k :: 0 <= k < |rows| ==>
        |r.value[k]| == |cols| &&
        forall j :: 0 <= j < |cols| ==> r.value[k][j] == rows[k][IndexOf(columns, cols[j]).value])
  {
    if rows != [] {
      var ci := ColumnIndices(columns, cols);
      if ci.Ok? {
        var idx := ci.value;
        forall k | 0 <= k < |rows|
          ensures LegacyProjectRow(rows[k], idx).Ok?
          ensures |LegacyProjectRow(rows[k], idx).value| == |cols|
          ensures forall j :: 0 <= j < |cols| ==> LegacyProjectRow(rows[k], idx).value[j] == rows[k][IndexOf(columns, cols[j]).value]
        {
          var p := Pick(rows[k], idx);
          assert p.Ok?;
          forall j | 0 <= j < |cols|
            ensures idx[j] == IndexOf(columns, cols[j]).value
          {
            IndexOfUnique(columns, cols[j], idx[j]);
          }
        }
      }
    }
  }

  /**
    The list-based table on a vector borrowed from the select test of
    `test/test_nada_table.py` (a test of the array-based table): `['a', 'c']`
    of `[[1, 2, 3], [4, 5, 6]]` fails as written, and the evident intent gives
    `[[1, 3], [4, 6]]`.
   */
  lemma LegacySelectExample(rows: seq<seq<Value>>)
    requires |rows| == 2 && |rows[0]| == 3 && |rows[1]| == 3
    requires forall k, j :: 0 <= k < 2 && 0 <= j < 3 ==> rows[k][j].kind == SecretInteger
    requires rows[0][0].val == 1 && rows[0][1].val == 2 && rows[0][2].val == 3
    requires rows[1][0].val == 4 && rows[1][1].val == 5 && rows[1][2].val == 6
    ensures LegacySelectedAsWritten(["a", "b", "c"], rows, ["a", "c"]) == Err(TypeError)
    ensures LegacySelected(["a", "b", "c"], rows, ["a", "c"]).Ok?
    ensures Shows(LegacySelected(["a", "b", "c"], rows, ["a", "c"]).value, [[1, 3], [4, 6]])
  {
    ColumnExamples();
    LegacySelectedSpec(["a", "b", "c"], rows, ["a", "c"]);
    assert ColumnIndices(["a", "b", "c"], ["a", "c"]).Ok?;
  }

  /**
    `NadaTable` of `nada_table.py`.
   */
  class LegacyTable {
    var columns: seq<string>
    var rows: seq<seq<Value>>

    predicate Fitted()
      reads this
    {
      forall k :: 0 <= k < |rows| ==> |rows[k]| == |columns|
    }

    constructor Init(cols: seq<string>)
      ensures columns == cols && rows == []
    {
      columns := cols;
      rows := [];
    }

    /** `NadaTable(*columns, rows=data)`: the names unchecked, the rows by `_set_data`. */
    static method New(cols: seq<string>, data: seq<Input<seq<Value>>>) returns (r: Result<LegacyTable>)
      ensures r.Ok? <==> FirstMisfit(data, ListWidth, |cols|) == |data|
      ensures r.Err? ==> r.error == MisfitError(data, ListWidth, |cols|)
      ensures r.Ok? ==> fresh(r.value) && r.value.columns == cols && r.value.rows == Rows(data) && r.value.Fitted()
    {
      var t := new LegacyTable.Init(cols);
      var checked := t.CheckData(data);
      if checked.Err? {
        return Err(checked.error);
      }
      t.rows := checked.value;
      return Ok(t);
    }

    /**
      `_set_data(data)`: every row must be an array (TypeError) as wide as
      the column list (ValueError); the data comes back unchanged.
     */
    method CheckData(data: seq<Input<seq<Value>>>) returns (r: Result<seq<seq<Value>>>)
      ensures r.Ok? <==> FirstMisfit(data, ListWidth, |columns|) == |data|
      ensures r.Err? ==> r.error == MisfitError(data, ListWidth, |columns|)
      ensures r.Ok? ==> r.value == Rows(data) && forall k :: 0 <= k < |data| ==> |r.value[k]| == |columns|
    {
      for k := 0 to |data|
        invariant forall q :: 0 <= q < k ==> CheckInput(data[q], ListWidth, |columns|).Done?
      {
        var c := CheckInput(data[k], ListWidth, |columns|);
        if c.Failed? {
          FirstMisfitAt(data, ListWidth, |columns|, k);
          return Err(c.error);
        }
      }
      FirstMisfitAt(data, ListWidth, |columns|, |data|);
      return Ok(Rows(data));
    }

    /** `set_data(data)`: the rows are replaced only when `_set_data` accepts them. */
    method SetData(data: seq<Input<seq<Value>>>) returns (st: Status)
      modifies this
      ensures columns == old(columns)
      ensures st.Done? <==> FirstMisfit(data, ListWidth, |columns|) == |data|
      ensures st.Done? ==> rows == Rows(data) && Fitted()
      ensures st.Failed? ==> rows == old(rows) && st.error == MisfitError(data, ListWidth, |columns|)
    {
      var checked := CheckData(data);
      if checked.Err? {
        return Failed(checked.error);
      }
      rows := checked.value;
      return Done;
    }

    /** `add_row(row)`: the same two checks, then one row appended. */
    method AddRow(x: Input<seq<Value>>) returns (st: Status)
      modifies this
      ensures columns == old(columns)
      ensures st == CheckInput(x, ListWidth, |columns|)
      ensures st.Failed? ==> rows == old(rows)
      ensures st.Done? ==> rows == old(rows) + [x.row]
      ensures old(Fitted()) ==> Fitted()
    {
      st := CheckInput(x, ListWidth, |columns|);
      if st.Done? {
        rows := rows + [x.row];
      }
    }

    /** `set_columns(*columns)`: as in the newer table, rows not re-checked. */
    method SetColumns(cols: seq<Col>) returns (st: Status)
      modifies this
      ensures rows == old(rows)
      ensures |columns| <= |cols|
      ensures forall q :: 0 <= q < |columns| ==> Admits(cols, q) && columns[q] == cols[q].name
      ensures st.Done? <==> |columns| == |cols|
      ensures st.Failed? ==> !Admits(cols, |columns|)
      ensures st.Failed? ==> st.error == (if cols[|columns|].NotStr? then TypeError else ValueError)
      ensures forall i, j :: 0 <= i < j < |columns| ==> columns[i] != columns[j]
    {
      columns := [];
      columns, st := CollectColumns(cols);
    }

    /**
      `select(*cols)` as written: any row makes it fail, with ValueError for a
      missing column and TypeError otherwise.
     */
    method SelectAsWritten(cols: seq<string>) returns (r: Result<LegacyTable>)
      ensures r.Ok? <==> rows == []
      ensures r.Err? ==> LegacySelectedAsWritten(columns, rows, cols) == Err(r.error)
      ensures r.Ok? ==> fresh(r.value) && r.value.columns == cols && r.value.rows == []
    {
      if rows == [] {
        r := New(cols, []);
        return;
      }
      var ci := ColumnIndices(columns, cols);
      if ci.Err? {
        return Err(ci.error);
      }
      // the generator handed to the array is refused by its class alone and never
      // drained, so no item of the row is read
      var a := LegacyArray.New(GenArg([]));
      return Err(a.error);
    }

    /**
      `select(*cols)` as evidently meant, with the picked items given to the
      array as a list: a new table named `cols` holding every row projected.
     */
    method Select(cols: seq<string>) returns (r: Result<LegacyTable>)
      ensures r.Ok? <==> LegacySelected(columns, rows, cols).Ok?
      ensures r.Err? ==> r.error == LegacySelected(columns, rows, cols).error
      ensures r.Ok? ==> fresh(r.value) && r.value.columns == cols && r.value.rows == LegacySelected(columns, rows, cols).value
    {
      if rows == [] {
        r := New(cols, []);
        return;
      }
      var ci := ColumnIndices(columns, cols);
      if ci.Err? {
        return Err(ci.error);
      }
      var idx := ci.value;
      var out: seq<Input<seq<Value>>> := [];
      for k := 0 to |rows|
        invariant |out| == k
        invariant forall q :: 0 <= q < k ==> LegacyProjectRow(rows[q], idx).Ok? && out[q] == Array(LegacyProjectRow(rows[q], idx).value)
      {
        var p := LegacyProjectArray(rows[k], idx);
        if p.Err? {
          MapResultStops(rows, (q: seq<Value>) => LegacyProjectRow(q, idx), k);
          return Err(p.error);
        }
        out := out + [Array(p.value)];
      }
      ghost var spec := MapResult(rows, (q: seq<Value>) => LegacyProjectRow(q, idx));
      assert forall q :: 0 <= q < |rows| ==> Rows(out)[q] == spec.value[q];
      FirstMisfitAt(out, ListWidth, |cols|, |out|);
      r := New(cols, out);
    }
  }
}
