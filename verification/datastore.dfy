/** The in-memory data store: one table per schema item, each holding rows
    keyed by their id, plus the checks every data store runs on relational
    paths and variables before reading them. A failed insert keeps the rows
    inserted before the failing one, so inserts return the store reached
    together with the verdict. */
module DataStores {
  import opened Wrappers
  import opened Schemas
  import opened RelVars
  import opened Aggregators
  import opened Collections
  import Strings
  import Validity

  type Row = map<string, Value>

  /** Rows keyed by id; `ids` keeps the keys in insertion order, as a Python dict does. */
  datatype Table = Table(ids: seq<Value>, rows: map<Value, Row>)

  /** Tables keyed by item name; `names` keeps insertion order. */
  datatype Store = Store(names: seq<string>, tables: map<string, Table>)

  predicate TableOk(t: Table) {
    PairwiseDistinct(t.ids) && t.rows.Keys == SetOf(t.ids)
  }

  predicate StoreOk(st: Store) {
    PairwiseDistinct(st.names) && st.tables.Keys == SetOf(st.names)
    && forall n :: n in st.tables ==> TableOk(st.tables[n])
  }

  const EmptyStore := Store([], map[])
  const EmptyTable := Table([], map[])

  const IdColumn := "id"
  const NoItemForTable := "Schema does not contain schema item"
  const TableExists := "Table already exists."
  const NoTable := "Table does not exist yet."
  const UnknownColumn := "Column name does not exist in table"
  const EmptyColumns := "Column names are empty."
  const NoIdColumn := "Column name 'id' not found."
  const DuplicateColumn := "Duplicate column name found."
  const CountMismatch := "Column count and row count differ"
  const RowExists := "Row id already exists."
  const NoTableForItem := "No table found for item in path"
  const NotAlternating := "invalid item pair in relational path: types must alternate between entities and relationships"
  const NoAttributeForItem := "Attribute does not exist for item"

  lemma EmptyStoreOk()
    ensures StoreOk(EmptyStore)
  {
  }

  // ---------------------------------------------------------------------------
  // Tables.

  /** `addTable`: only for a schema item, and only once. */
  function AddTable(st: Store, s: Schema, n: string): (r: Result<Store>)
    ensures r.Ok? <==> HasSchemaItem(s, n) && n !in st.tables
    ensures !HasSchemaItem(s, n) ==> r == Err(NoItemForTable)
    ensures r.Ok? ==> r.value.tables.Keys == st.tables.Keys + {n} && r.value.tables[n] == EmptyTable
                      && forall m :: m in st.tables ==> r.value.tables[m] == st.tables[m]
  {
    if !HasSchemaItem(s, n) then Err(NoItemForTable)
    else if n in st.tables then Err(TableExists)
    else Ok(Store(st.names + [n], st.tables[n := EmptyTable]))
  }

  lemma AddTableOk(st: Store, s: Schema, n: string)
    requires StoreOk(st) && AddTable(st, s, n).Ok?
    ensures StoreOk(AddTable(st, s, n).value)
  {
    var st' := AddTable(st, s, n).value;
    assert n !in st.names;
    assert SetOf(st'.names) == SetOf(st.names) + {n};
    forall i, j | 0 <= i < j < |st'.names| ensures st'.names[i] != st'.names[j] {
      if j == |st.names| {
        assert st'.names[i] in st.names;
      }
    }
  }

  /** `getTableNames`: every table's name, lower-cased, in insertion order. */
  function TableNames(st: Store): (r: seq<string>)
    ensures |r| == |st.names|
    ensures forall i :: 0 <= i < |st.names| ==> r[i] == Strings.Lower(st.names[i])
  {
    seq(|st.names|, i requires 0 <= i < |st.names| => Strings.Lower(st.names[i]))
  }

  /** A name is listed exactly when some table's name lower-cases to it. */
  lemma TableNamesListed(st: Store, x: string)
    requires StoreOk(st)
    ensures x in TableNames(st) <==> exists n :: n in st.tables && Strings.Lower(n) == x
  {
    var names := TableNames(st);
    if x in names {
      var i :| 0 <= i < |names| && names[i] == x;
      assert st.names[i] in SetOf(st.names);
    }
    if exists n :: n in st.tables && Strings.Lower(n) == x {
      var n :| n in st.tables && Strings.Lower(n) == x;
      assert n in SetOf(st.names);
      var i :| 0 <= i < |st.names| && st.names[i] == n;
      assert names[i] == x;
    }
  }

  predicate EndsWithId(c: string) {
    |c| >= 2 && c[|c| - 2..] == IdColumn
  }

  /** A row's values for the given columns, None where the row has no such column. */
  function Project(row: Row, cols: seq<string>): (r: seq<Value>)
    ensures |r| == |cols|
    ensures forall k :: 0 <= k < |cols| ==> r[k] == (if cols[k] in row then row[cols[k]] else NoneVal)
  {
    seq(|cols|, k requires 0 <= k < |cols| => if cols[k] in row then row[cols[k]] else NoneVal)
  }

  /** `getAllRows`: the table must exist and every column not ending in "id"
      must be an attribute of the item; then one tuple per row, in insertion order. */
  function GetAllRows(st: Store, s: Schema, n: string, cols: seq<string>): (r: Result<seq<seq<Value>>>)
    ensures r.Ok? <==> n in st.tables && HasSchemaItem(s, n)
                       && forall c :: c in cols && !EndsWithId(c) ==> c in AttrNames(GetSchemaItem(s, n).value.attributes)
    ensures n !in st.tables ==> r == Err(NoTable)
    ensures r.Ok? ==> |r.value| == |st.tables[n].ids|
                      && forall i :: 0 <= i < |r.value| ==> |r.value[i]| == |cols|
  {
    if n !in st.tables then Err(NoTable)
    else
      var item :- GetSchemaItem(s, n);
      if exists c :: c in cols && !EndsWithId(c) && c !in AttrNames(item.attributes) then Err(UnknownColumn)
      else
        var t := st.tables[n];
        Ok(seq(|t.ids|, i requires 0 <= i < |t.ids| =>
                 Project(if t.ids[i] in t.rows then t.rows[t.ids[i]] else map[], cols)))
  }

  // ---------------------------------------------------------------------------
  // Inserting rows.

  /** The row built from one list of values, column by column. */
  function RowOf(cols: seq<string>, vals: seq<Value>): (r: Row)
    requires PairwiseDistinct(cols) && |vals| == |cols|
    ensures r.Keys == SetOf(cols)
    ensures forall k :: 0 <= k < |cols| ==> r[cols[k]] == vals[k]
  {
    map k | 0 <= k < |cols| :: cols[k] := vals[k]
  }

  /** The first position of `c`, as `list.index` gives it. */
  function Position(cols: seq<string>, c: string): (k: nat)
    requires c in cols
    ensures k < |cols| && cols[k] == c
    ensures forall j :: 0 <= j < k ==> cols[j] != c
  {
    if cols[0] == c then 0 else 1 + Position(cols[1..], c)
  }

  predicate Fits(rows: seq<seq<Value>>, cols: seq<string>) {
    forall j :: 0 <= j < |rows| ==> |rows[j]| == |cols|
  }

  function IdsOf(rows: seq<seq<Value>>, idAt: nat): (r: seq<Value>)
    requires forall j :: 0 <= j < |rows| ==> idAt < |rows[j]|
    ensures |r| == |rows| && forall j :: 0 <= j < |rows| ==> r[j] == rows[j][idAt]
  {
    seq(|rows|, j requires 0 <= j < |rows| && idAt < |rows[j]| => rows[j][idAt])
  }

  /** Rows that can all go in: each has one value per column, and the ids are
      new to the table and distinct from each other. */
  predicate Insertable(t: Table, cols: seq<string>, idAt: nat, rows: seq<seq<Value>>)
    requires idAt < |cols|
  {
    Fits(rows, cols) && PairwiseDistinct(IdsOf(rows, idAt)) && SetOf(IdsOf(rows, idAt)) !! t.rows.Keys
  }

  /** The rows keyed by their ids, later rows written last. */
  function AddedRows(cols: seq<string>, idAt: nat, rows: seq<seq<Value>>): map<Value, Row>
    requires PairwiseDistinct(cols) && idAt < |cols| && Fits(rows, cols)
    decreases |rows|
  {
    if |rows| == 0 then map[]
    else
      var last := rows[|rows| - 1];
      AddedRows(cols, idAt, rows[..|rows| - 1])[last[idAt] := RowOf(cols, last)]
  }

  /** The table with the rows added after its own. */
  function Appended(t: Table, cols: seq<string>, idAt: nat, rows: seq<seq<Value>>): Table
    requires PairwiseDistinct(cols) && idAt < |cols| && Fits(rows, cols)
  {
    Table(t.ids + IdsOf(rows, idAt), t.rows + AddedRows(cols, idAt, rows))
  }

  lemma {:induction false} AddedRowsKeys(cols: seq<string>, idAt: nat, rows: seq<seq<Value>>)
    requires PairwiseDistinct(cols) && idAt < |cols| && Fits(rows, cols)
    ensures AddedRows(cols, idAt, rows).Keys == SetOf(IdsOf(rows, idAt))
    decreases |rows|
  {
    if |rows| > 0 {
      var init := rows[..|rows| - 1];
      AddedRowsKeys(cols, idAt, init);
      assert IdsOf(rows, idAt) == IdsOf(init, idAt) + [rows[|rows| - 1][idAt]];
      SetOfConcat(IdsOf(init, idAt), [rows[|rows| - 1][idAt]]);
    }
  }

  /** With distinct ids, each added row is found under its own id. */
  lemma {:induction false} AddedRowsAt(cols: seq<string>, idAt: nat, rows: seq<seq<Value>>, j: nat)
    requires PairwiseDistinct(cols) && idAt < |cols| && Fits(rows, cols)
    requires PairwiseDistinct(IdsOf(rows, idAt)) && j < |rows|
    ensures rows[j][idAt] in AddedRows(cols, idAt, rows)
    ensures AddedRows(cols, idAt, rows)[rows[j][idAt]] == RowOf(cols, rows[j])
    decreases |rows|
  {
    var k := |rows| - 1;
    if j < k {
      var init := rows[..k];
      assert IdsOf(rows, idAt)[j] != IdsOf(rows, idAt)[k];
      assert IdsOf(init, idAt) == IdsOf(rows, idAt)[..k];
      DistinctPrefix(IdsOf(rows, idAt), k);
      assert init[j] == rows[j];
      AddedRowsAt(cols, idAt, init, j);
    }
  }

  /** `insertRowsWithValues`: the checks on the table and the columns come
      first and leave the store untouched; then the rows go in one by one, and
      the first row with the wrong length or an id already present stops the
      insert, keeping the rows before it. */
  method InsertRows(st: Store, n: string, cols: seq<string>, rows: seq<seq<Value>>)
    returns (r: Store, outcome: Outcome)
    ensures n !in st.tables ==> r == st && outcome == Fail(NoTable)
    ensures n in st.tables && |cols| == 0 ==> r == st && outcome == Fail(EmptyColumns)
    ensures n in st.tables && |cols| > 0 && IdColumn !in cols ==> r == st && outcome == Fail(NoIdColumn)
    ensures n in st.tables && IdColumn in cols && !NoDuplicates(cols) ==> r == st && outcome == Fail(DuplicateColumn)
    ensures r.names == st.names && r.tables.Keys == st.tables.Keys
    ensures forall m :: m in st.tables && m != n ==> r.tables[m] == st.tables[m]
    ensures n in st.tables && IdColumn in cols && NoDuplicates(cols) ==>
              PairwiseDistinct(cols)
              && exists k :: 0 <= k <= |rows| && Insertable(st.tables[n], cols, Position(cols, IdColumn), rows[..k])
                             && r.tables[n] == Appended(st.tables[n], cols, Position(cols, IdColumn), rows[..k])
                             && (outcome.Pass? <==> k == |rows|)
                             && (k < |rows| ==> !Insertable(st.tables[n], cols, Position(cols, IdColumn), rows[..k + 1]))
    ensures StoreOk(st) ==> StoreOk(r)
  {
    r, outcome := st, Pass;
    if n !in st.tables {
      outcome := Fail(NoTable);
      return;
    }
    if |cols| == 0 {
      outcome := Fail(EmptyColumns);
      return;
    }
    if IdColumn !in cols {
      outcome := Fail(NoIdColumn);
      return;
    }
    if !NoDuplicates(cols) {
      outcome := Fail(DuplicateColumn);
      return;
    }
    NoDuplicatesIff(cols);
    var idAt := Position(cols, IdColumn);
    var t0 := st.tables[n];
    var t := t0;
    var i := 0;
    assert rows[..0] == [];
    while i < |rows|
      invariant i <= |rows| && Insertable(t0, cols, idAt, rows[..i])
      invariant t == Appended(t0, cols, idAt, rows[..i])
      decreases |rows| - i
    {
      if |rows[i]| != |cols| {
        outcome := Fail(CountMismatch);
        NotInsertableLength(t0, cols, idAt, rows, i);
        break;
      }
      var id := rows[i][idAt];
      if id in t.rows {
        outcome := Fail(RowExists);
        NotInsertableId(t0, cols, idAt, rows, i);
        break;
      }
      AppendOne(t0, cols, idAt, rows, i);
      t := Table(t.ids + [id], t.rows[id := RowOf(cols, rows[i])]);
      i := i + 1;
    }
    assert i == |rows| ==> rows[..i] == rows;
    r := Store(st.names, st.tables[n := t]);
    if StoreOk(st) {
      AppendedOk(t0, cols, idAt, rows[..i]);
    }
  }

  /** Appending one more insertable row to the appended table. */
  lemma AppendOne(t0: Table, cols: seq<string>, idAt: nat, rows: seq<seq<Value>>, i: nat)
    requires PairwiseDistinct(cols) && idAt < |cols| && i < |rows|
    requires Insertable(t0, cols, idAt, rows[..i]) && |rows[i]| == |cols|
    requires rows[i][idAt] !in Appended(t0, cols, idAt, rows[..i]).rows
    ensures Insertable(t0, cols, idAt, rows[..i + 1])
    ensures var t := Appended(t0, cols, idAt, rows[..i]);
            Appended(t0, cols, idAt, rows[..i + 1])
            == Table(t.ids + [rows[i][idAt]], t.rows[rows[i][idAt] := RowOf(cols, rows[i])])
  {
    var p, q := rows[..i], rows[..i + 1];
    assert q == p + [rows[i]];
    var id := rows[i][idAt];
    AddedRowsKeys(cols, idAt, p);
    AppendOneInsertable(t0, cols, idAt, p, rows[i]);
    AppendOneTable(t0, cols, idAt, p, rows[i]);
  }

  lemma AppendOneTable(t0: Table, cols: seq<string>, idAt: nat, p: seq<seq<Value>>, last: seq<Value>)
    requires PairwiseDistinct(cols) && idAt < |cols| && Fits(p, cols) && |last| == |cols|
    ensures Fits(p + [last], cols)
    ensures var t := Appended(t0, cols, idAt, p);
            Appended(t0, cols, idAt, p + [last])
            == Table(t.ids + [last[idAt]], t.rows[last[idAt] := RowOf(cols, last)])
  {
    var q := p + [last];
    assert Fits(q, cols) by {
      forall j | 0 <= j < |q| ensures |q[j]| == |cols| {
        if j < |p| { assert q[j] == p[j]; }
      }
    }
    assert q[..|q| - 1] == p;
    var id, v := last[idAt], RowOf(cols, last);
    assert IdsOf(q, idAt) == IdsOf(p, idAt) + [id];
    var m := AddedRows(cols, idAt, p);
    assert AddedRows(cols, idAt, q) == m[id := v];
    UpdateUnion(t0.rows, m, id, v);
  }

  lemma UpdateUnion<K, V>(a: map<K, V>, b: map<K, V>, k: K, v: V)
    ensures a + b[k := v] == (a + b)[k := v]
  {
  }

  lemma AppendOneInsertable(t0: Table, cols: seq<string>, idAt: nat, p: seq<seq<Value>>, last: seq<Value>)
    requires idAt < |cols| && Insertable(t0, cols, idAt, p) && |last| == |cols|
    requires last[idAt] !in t0.rows && last[idAt] !in SetOf(IdsOf(p, idAt))
    ensures Insertable(t0, cols, idAt, p + [last])
  {
    var q := p + [last];
    assert Fits(q, cols) by {
      forall j | 0 <= j < |q| ensures |q[j]| == |cols| {
        if j < |p| { assert q[j] == p[j]; }
      }
    }
    assert IdsOf(q, idAt) == IdsOf(p, idAt) + [last[idAt]];
    SetOfConcat(IdsOf(p, idAt), [last[idAt]]);
    DistinctConcat(IdsOf(p, idAt), [last[idAt]]);
  }

  lemma NotInsertableLength(t0: Table, cols: seq<string>, idAt: nat, rows: seq<seq<Value>>, i: nat)
    requires idAt < |cols| && i < |rows| && |rows[i]| != |cols|
    ensures !Insertable(t0, cols, idAt, rows[..i + 1])
  {
    assert rows[..i + 1][i] == rows[i];
  }

  lemma NotInsertableId(t0: Table, cols: seq<string>, idAt: nat, rows: seq<seq<Value>>, i: nat)
    requires PairwiseDistinct(cols) && idAt < |cols| && i < |rows|
    requires Insertable(t0, cols, idAt, rows[..i]) && |rows[i]| == |cols|
    requires rows[i][idAt] in Appended(t0, cols, idAt, rows[..i]).rows
    ensures !Insertable(t0, cols, idAt, rows[..i + 1])
  {
    var p := rows[..i];
    assert rows[..i + 1] == p + [rows[i]];
    AddedRowsKeys(cols, idAt, p);
    RepeatedId(t0, cols, idAt, p, rows[i]);
  }

  /** A row whose id is already in the table, or among the ids before it,
      cannot go in. */
  lemma RepeatedId(t0: Table, cols: seq<string>, idAt: nat, p: seq<seq<Value>>, last: seq<Value>)
    requires idAt < |cols| && Fits(p, cols) && |last| == |cols|
    requires last[idAt] in t0.rows || last[idAt] in SetOf(IdsOf(p, idAt))
    ensures !Insertable(t0, cols, idAt, p + [last])
  {
    var q := p + [last];
    var id := last[idAt];
    assert Fits(q, cols) by {
      forall j | 0 <= j < |q| ensures |q[j]| == |cols| {
        if j < |p| { assert q[j] == p[j]; }
      }
    }
    var ids := IdsOf(q, idAt);
    assert ids[|p|] == id;
    if id in t0.rows {
      assert id in SetOf(ids);
    } else {
      var j :| 0 <= j < |p| && IdsOf(p, idAt)[j] == id;
      assert q[j] == p[j];
      assert ids[j] == ids[|p|];
    }
  }

  lemma AppendedOk(t: Table, cols: seq<string>, idAt: nat, rows: seq<seq<Value>>)
    requires PairwiseDistinct(cols) && idAt < |cols| && TableOk(t) && Insertable(t, cols, idAt, rows)
    ensures TableOk(Appended(t, cols, idAt, rows))
  {
    AddedRowsKeys(cols, idAt, rows);
    SetOfConcat(t.ids, IdsOf(rows, idAt));
    DistinctConcat(t.ids, IdsOf(rows, idAt));
  }

  /** After a successful insert, reading the table back gives every old row
      followed by the inserted values, column by column. */
  lemma ReadBackAppended(t: Table, cols: seq<string>, idAt: nat, rows: seq<seq<Value>>, j: nat)
    requires PairwiseDistinct(cols) && idAt < |cols| && Insertable(t, cols, idAt, rows) && j < |rows|
    ensures var u := Appended(t, cols, idAt, rows);
            |u.ids| == |t.ids| + |rows| && u.ids[|t.ids| + j] in u.rows
            && Project(u.rows[u.ids[|t.ids| + j]], cols) == rows[j]
  {
    AddedRowsAt(cols, idAt, rows, j);
    var u := Appended(t, cols, idAt, rows);
    assert u.ids[|t.ids| + j] == rows[j][idAt];
    assert u.rows[rows[j][idAt]] == RowOf(cols, rows[j]);
  }

  // ---------------------------------------------------------------------------
  // Updating and deleting.

  /** The value in a cell, if the table, the row and the column are all there. */
  function Cell(st: Store, m: string, x: Value, c: string): Option<Value> {
    if m in st.tables && x in st.tables[m].rows && c in st.tables[m].rows[x] then Some(st.tables[m].rows[x][c])
    else None
  }

  /** `updateRowValue`: a missing table raises, a missing row is left alone;
      otherwise exactly one cell changes. */
  function UpdateRowValue(st: Store, n: string, id: Value, col: string, v: Value): (r: Result<Store>)
    ensures r.Ok? <==> n in st.tables
    ensures r.Ok? ==> r.value.names == st.names && r.value.tables.Keys == st.tables.Keys
                      && (forall m :: m in st.tables ==> r.value.tables[m].ids == st.tables[m].ids
                                                         && r.value.tables[m].rows.Keys == st.tables[m].rows.Keys)
    ensures r.Ok? ==> forall m, x, c :: Cell(r.value, m, x, c)
                        == if m == n && x == id && c == col && x in st.tables[n].rows then Some(v) else Cell(st, m, x, c)
  {
    if n !in st.tables then Err(NoTable)
    else
      var t := st.tables[n];
      if id in t.rows then
        Ok(Store(st.names, st.tables[n := Table(t.ids, t.rows[id := t.rows[id][col := v]])]))
      else Ok(st)
  }

  /** The ids with one value taken out, order kept. */
  function Without(ids: seq<Value>, id: Value): (r: seq<Value>)
    ensures SetOf(r) == SetOf(ids) - {id}
  {
    if |ids| == 0 then []
    else
      assert SetOf(ids) == {ids[0]} + SetOf(ids[1..]) by {
        assert ids == [ids[0]] + ids[1..];
      }
      var rest := Without(ids[1..], id);
      if ids[0] == id then rest
      else
        assert SetOf([ids[0]] + rest) == {ids[0]} + SetOf(rest);
        [ids[0]] + rest
  }

  lemma {:induction false} WithoutDistinct(ids: seq<Value>, id: Value)
    requires PairwiseDistinct(ids)
    ensures PairwiseDistinct(Without(ids, id))
  {
    if |ids| > 0 {
      DistinctCons(ids);
      WithoutDistinct(ids[1..], id);
      var rest := Without(ids[1..], id);
      if ids[0] != id {
        assert ids[0] !in SetOf(rest);
        DistinctCons([ids[0]] + rest);
        assert ([ids[0]] + rest)[1..] == rest;
      }
    }
  }

  /** `deleteRow`: a missing table raises, a missing row is left alone;
      otherwise exactly that row's cells go. */
  function DeleteRow(st: Store, n: string, id: Value): (r: Result<Store>)
    ensures r.Ok? <==> n in st.tables
    ensures r.Ok? ==> r.value.names == st.names && r.value.tables.Keys == st.tables.Keys
                      && r.value.tables[n].rows.Keys == st.tables[n].rows.Keys - {id}
    ensures r.Ok? ==> forall m, x, c :: Cell(r.value, m, x, c) == if m == n && x == id then None else Cell(st, m, x, c)
  {
    if n !in st.tables then Err(NoTable)
    else
      var t := st.tables[n];
      if id in t.rows then Ok(Store(st.names, st.tables[n := Table(Without(t.ids, id), t.rows - {id})]))
      else Ok(st)
  }

  lemma UpdateDeleteOk(st: Store, n: string, id: Value, col: string, v: Value)
    requires StoreOk(st)
    ensures UpdateRowValue(st, n, id, col, v).Ok? ==> StoreOk(UpdateRowValue(st, n, id, col, v).value)
    ensures DeleteRow(st, n, id).Ok? ==> StoreOk(DeleteRow(st, n, id).value)
  {
    if n in st.tables {
      WithoutDistinct(st.tables[n].ids, id);
    }
  }

  /** `dropAllTables`. */
  function DropAllTables(st: Store): (r: Store)
    ensures StoreOk(r) && r.tables == map[]
  {
    EmptyStore
  }

  // ---------------------------------------------------------------------------
  // The checks on relational paths and variables.

  /** Every path item needs a table, compared after lower-casing the item. */
  function CheckTables(path: seq<string>, tableNames: seq<string>, i: nat): (r: Outcome)
    requires i <= |path|
    ensures r.Pass? <==> forall j :: i <= j < |path| ==> Strings.Lower(path[j]) in tableNames
    ensures r.Fail? ==> r.msg == NoTableForItem
    decreases |path| - i
  {
    if i == |path| then Pass
    else if Strings.Lower(path[i]) !in tableNames then Fail(NoTableForItem)
    else CheckTables(path, tableNames, i + 1)
  }

  /** Both items of a pair are looked up, then their kinds must differ. */
  predicate PairAlternates(s: Schema, a: string, b: string) {
    HasSchemaItem(s, a) && HasSchemaItem(s, b)
    && GetSchemaItem(s, a).value.Entity? != GetSchemaItem(s, b).value.Entity?
  }

  function CheckAlternation(s: Schema, path: seq<string>, i: nat): (r: Outcome)
    requires i <= |path|
    ensures r.Pass? <==> forall j :: i <= j < |path| - 1 ==> PairAlternates(s, path[j], path[j + 1])
    decreases |path| - i
  {
    if i + 1 >= |path| then Pass
    else
      match GetSchemaItem(s, path[i])
      case Err(m) => Fail(m)
      case Ok(a) =>
        match GetSchemaItem(s, path[i + 1])
        case Err(m) => Fail(m)
        case Ok(b) =>
          if a.Entity? == b.Entity? then Fail(NotAlternating)
          else CheckAlternation(s, path, i + 1)
  }

  /** `_validateRelPath`: all tables first, then the alternation of kinds. */
  function ValidateRelPath(s: Schema, path: seq<string>, tableNames: seq<string>): (r: Outcome)
    ensures r.Pass? <==> (forall j :: 0 <= j < |path| ==> Strings.Lower(path[j]) in tableNames)
                         && forall j :: 0 <= j < |path| - 1 ==> PairAlternates(s, path[j], path[j + 1])
    ensures CheckTables(path, tableNames, 0).Fail? ==> r == Fail(NoTableForItem)
  {
    var tables := CheckTables(path, tableNames, 0);
    if tables.Fail? then tables else CheckAlternation(s, path, 0)
  }

  /** In a well-formed schema a path valid for the model passes the store's
      alternation check. */
  lemma ValidPathAlternates(s: Schema, path: seq<string>)
    requires WellFormed(s) && Validity.ValidPath(s, path)
    ensures CheckAlternation(s, path, 0).Pass?
  {
    forall j | 0 <= j < |path| - 1 ensures PairAlternates(s, path[j], path[j + 1]) {
      assert Validity.Adjacent(s, path[j], path[j + 1]);
      if Validity.Participates(s, path[j], path[j + 1]) {
        ParticipantsAlternate(s, path[j], path[j + 1]);
      } else {
        ParticipantsAlternate(s, path[j + 1], path[j]);
      }
    }
  }

  lemma ParticipantsAlternate(s: Schema, e: string, rel: string)
    requires WellFormed(s) && Validity.Participates(s, e, rel)
    ensures PairAlternates(s, e, rel) && PairAlternates(s, rel, e)
  {
    Validity.EntityNotRelationship(s, rel);
    Validity.RelationshipItem(s, rel);
    assert GetSchemaItem(s, e).value in s.entities;
  }

  /** `_verifyRelVarAttrsExist`: the terminal item is looked up, and its
      attributes must include the variable's attribute, read as "id" for an
      existence variable; "id" itself always passes. */
  function VerifyAttrsExist(s: Schema, v: RelVar): (r: Outcome)
    ensures r.Pass? <==> HasSchemaItem(s, Terminal(v))
                         && (IsExistence(v) || v.attrName == IdColumn
                             || v.attrName in AttrNames(GetSchemaItem(s, Terminal(v)).value.attributes))
  {
    var name := if IsExistence(v) then IdColumn else v.attrName;
    match GetSchemaItem(s, Terminal(v))
    case Err(m) => Fail(m)
    case Ok(item) => if name !in AttrNames(item.attributes) && name != IdColumn then Fail(NoAttributeForItem) else Pass
  }

  /** Every variable valid for the model passes the store's attribute check,
      and so does any attribute called "id" on a schema item, declared or not. */
  lemma VerifyAttrsExistCovers(s: Schema, v: RelVar)
    ensures Validity.ValidVariable(s, v) ==> VerifyAttrsExist(s, v).Pass?
    ensures HasSchemaItem(s, Terminal(v)) && v.attrName == IdColumn ==> VerifyAttrsExist(s, v).Pass?
  {
  }
}
