/** The versioned row store behind a table, view or component view.

    Every stored row carries its rowid columns, `v_min` (the version that
    created it) and `v_max` (the version that deleted it, or `MaxVersion`
    while it is live). The SQL statements the store issues are modelled as
    updates of an in-memory sequence of rows: an `INSERT` appends rows, an
    `UPDATE ... WHERE` rewrites the rows its condition selects. The layout
    columns are fixed when the store is built; `rows`, `insertLog` (the
    row lists of the `INSERT` statements issued, in order) and
    `storedColumns` (the storage columns of user columns) change. */
module Store {
  import opened Common

  /** `schema.Table.MAX_VERSION`: 2^63 - 1, the largest `BIGINT`. */
  const MaxVersion: int := 0x7FFF_FFFF_FFFF_FFFF

  /** Rows per `INSERT` statement in `insert_rows`. */
  const BatchSize: nat := 16

  /** A stored value; `Data` stands for any value the row builder or the
      execution plan produced. */
  datatype Cell = NullCell | IntCell(i: int) | TextCell(s: string) | Data(id: int)

  /** A stored row, by column name. */
  type Row = map<string, Cell>

  datatype StoreKind = TableStore | ViewStore | ComponentViewStore

  // -----------------------------------------------------------------------
  // layout

  /** The name of a component view's position column: `pos_` and the index
      of the last base rowid column, so it differs from the base's own
      position columns. */
  function PosColumnName(baseRowidCount: nat): string
  {
    "pos_" + IntToString(baseRowidCount - 1)
  }

  /** `_create_rowid_columns`: `rowid` for a table; a copy of the base's
      rowid columns for a view, followed by the position column for a
      component view. */
  function RowidColumnsFor(kind: StoreKind, baseRowid: seq<string>): seq<string>
  {
    match kind
    case TableStore => ["rowid"]
    case ViewStore => baseRowid
    case ComponentViewStore => baseRowid + [PosColumnName(|baseRowid|)]
  }

  /** A table's rowid is the one column `rowid`; a plain view keeps the
      base's rowid columns; a component view extends them by exactly one
      position column, which sits at `pos_col_idx`. */
  lemma RowidLayout(baseRowid: seq<string>)
    ensures RowidColumnsFor(TableStore, baseRowid) == ["rowid"]
    ensures RowidColumnsFor(ViewStore, baseRowid) == baseRowid
    ensures var r := RowidColumnsFor(ComponentViewStore, baseRowid);
      |r| == |baseRowid| + 1 && r[..|baseRowid|] == baseRowid && r[|baseRowid|] == PosColumnName(|baseRowid|)
    ensures |baseRowid| > 0 ==>
      (StartsWith(PosColumnName(|baseRowid|), "pos_") && PosColumnName(|baseRowid|)[4..] == NatToString(|baseRowid| - 1))
  {
    var r := RowidColumnsFor(ComponentViewStore, baseRowid);
    assert r[..|baseRowid|] == baseRowid;
  }

  /** Two component views over bases with different numbers of rowid
      columns get different position-column names. */
  lemma PosColumnNamesDiffer(a: nat, b: nat)
    requires a > 0 && b > 0 && a != b
    ensures PosColumnName(a) != PosColumnName(b)
  {
    if PosColumnName(a) == PosColumnName(b) {
      assert PosColumnName(a)[4..] == NatToString(a - 1);
      assert PosColumnName(b)[4..] == NatToString(b - 1);
      NatToStringInjective(a - 1, b - 1);
    }
  }

  // -----------------------------------------------------------------------
  // building a table row

  /** The value written to primary-key column `i`: the row's own key value,
      except for the last key column (`v_min`) when an override is given. */
  function PkValue(pkCols: seq<string>, pk: seq<Cell>, vMin: Option<int>, i: nat): Cell
    requires i < |pk|
  {
    if i == |pkCols| - 1 && vMin.Some? then IntCell(vMin.value) else pk[i]
  }

  /** The row with its first `n` key columns written, in key order. */
  function FillPk(row: Row, pkCols: seq<string>, pk: seq<Cell>, vMin: Option<int>, n: nat): Row
    requires n <= |pkCols| && n <= |pk|
  {
    if n == 0 then row
    else FillPk(row, pkCols, pk, vMin, n - 1)[pkCols[n - 1] := PkValue(pkCols, pk, vMin, n - 1)]
  }

  /** `_create_table_row` after the row builder: the key columns written
      over the built row, pairing columns and values as `zip` does. */
  function WithPk(row: Row, pkCols: seq<string>, pk: seq<Cell>, vMin: Option<int>): Row
  {
    FillPk(row, pkCols, pk, vMin, Min(|pkCols|, |pk|))
  }

  lemma {:induction false} FillPkFields(row: Row, pkCols: seq<string>, pk: seq<Cell>, vMin: Option<int>, n: nat)
    requires n <= |pkCols| && n <= |pk| && Distinct(pkCols)
    ensures forall k :: k in FillPk(row, pkCols, pk, vMin, n) <==> k in row || k in pkCols[..n]
    ensures forall i :: 0 <= i < n ==> FillPk(row, pkCols, pk, vMin, n)[pkCols[i]] == PkValue(pkCols, pk, vMin, i)
    ensures forall k :: k in row && k !in pkCols[..n] ==> FillPk(row, pkCols, pk, vMin, n)[k] == row[k]
  {
    if n > 0 {
      FillPkFields(row, pkCols, pk, vMin, n - 1);
      assert pkCols[..n] == pkCols[..n - 1] + [pkCols[n - 1]];
    }
  }

  /** A created row holds each key value under its key column, the `v_min`
      override in place of the last key value when one is given, and the
      built row's other columns unchanged. */
  lemma CreatedRowFields(row: Row, pkCols: seq<string>, pk: seq<Cell>, vMin: Option<int>)
    requires |pk| == |pkCols| > 0 && Distinct(pkCols)
    ensures forall k :: k in WithPk(row, pkCols, pk, vMin) <==> k in row || k in pkCols
    ensures forall i :: 0 <= i < |pkCols| - 1 ==> WithPk(row, pkCols, pk, vMin)[pkCols[i]] == pk[i]
    ensures WithPk(row, pkCols, pk, vMin)[pkCols[|pkCols| - 1]]
      == if vMin.Some? then IntCell(vMin.value) else pk[|pk| - 1]
    ensures forall k :: k in row && k !in pkCols ==> WithPk(row, pkCols, pk, vMin)[k] == row[k]
  {
    FillPkFields(row, pkCols, pk, vMin, |pkCols|);
    assert pkCols[..|pkCols|] == pkCols;
  }

  // -----------------------------------------------------------------------
  // inserting

  /** One row of the execution plan, as the row builder turns it into a
      table row: its key values, the built row, its number of exceptions
      and the ids of the columns that raised them. */
  datatype InputRow = InputRow(pk: seq<Cell>, built: Row, numExcs: nat, excCols: set<int>)

  /** The table rows of a run of input rows, in order. */
  function Convert(inputs: seq<InputRow>, pkCols: seq<string>, vMin: Option<int>): (r: seq<Row>)
    ensures |r| == |inputs|
  {
    if |inputs| == 0 then []
    else
      var last := inputs[|inputs| - 1];
      Convert(inputs[..|inputs| - 1], pkCols, vMin) + [WithPk(last.built, pkCols, last.pk, vMin)]
  }

  lemma {:induction false} ConvertAppend(a: seq<InputRow>, b: seq<InputRow>, pkCols: seq<string>, vMin: Option<int>)
    ensures Convert(a + b, pkCols, vMin) == Convert(a, pkCols, vMin) + Convert(b, pkCols, vMin)
  {
    if |b| == 0 {
      assert a + b == a;
    } else {
      ConvertAppend(a, b[..|b| - 1], pkCols, vMin);
      assert (a + b)[..|a + b| - 1] == a + b[..|b| - 1];
    }
  }

  /** Each input row becomes the table row `_create_table_row` builds for
      it, at the same position. */
  lemma {:induction false} ConvertAt(inputs: seq<InputRow>, pkCols: seq<string>, vMin: Option<int>, i: nat)
    requires i < |inputs|
    ensures Convert(inputs, pkCols, vMin)[i] == WithPk(inputs[i].built, pkCols, inputs[i].pk, vMin)
  {
    if i < |inputs| - 1 {
      ConvertAt(inputs[..|inputs| - 1], pkCols, vMin, i);
    }
  }

  /** The row the database keeps for an inserted row: `v_max` takes its
      server default, `MaxVersion`, when the statement does not set it. */
  function Stored(t: Row): (r: Row)
    ensures r.Keys == t.Keys + {"v_max"}
    ensures forall k :: k in t ==> r[k] == t[k]
    ensures "v_max" !in t ==> r["v_max"] == IntCell(MaxVersion)
  {
    if "v_max" in t then t else t["v_max" := IntCell(MaxVersion)]
  }

  /** The rows the database keeps for the rows of a statement, in order. */
  function StoredRows(ts: seq<Row>): (r: seq<Row>)
    ensures |r| == |ts|
    ensures forall i :: 0 <= i < |ts| ==> r[i] == Stored(ts[i])
  {
    seq(|ts|, i requires 0 <= i < |ts| => Stored(ts[i]))
  }

  lemma StoredRowsAppend(a: seq<Row>, b: seq<Row>)
    ensures StoredRows(a + b) == StoredRows(a) + StoredRows(b)
  {
  }

  /** A row inserted with a `v_min` at or before `version` is live at
      `version`, and a table's delete without `where` at that version
      selects it, whatever the rows around it. The row builder writes user
      columns only, so the statement leaves `v_max` to its default. */
  lemma {:induction false} InsertedRowLive(rows0: seq<Row>, inputs: seq<InputRow>, pkCols: seq<string>, vMin: Option<int>,
                                           version: int, current: int, rowidCols: seq<string>, base: BaseState, i: nat)
    requires i < |inputs| && |inputs[i].pk| == |pkCols| > 0 && Distinct(pkCols)
    requires pkCols[|pkCols| - 1] == "v_min" && "v_max" !in pkCols && "v_max" !in inputs[i].built
    requires PkValue(pkCols, inputs[i].pk, vMin, |pkCols| - 1).IntCell?
    requires PkValue(pkCols, inputs[i].pk, vMin, |pkCols| - 1).i <= version
    requires current != MaxVersion
    ensures IsLive(StoredRows(Convert(inputs, pkCols, vMin))[i], version)
    ensures var selects := (row: Row) => DeleteSelects(TableStore, rowidCols, version, None, base, row);
      && selects(StoredRows(Convert(inputs, pkCols, vMin))[i])
      && var deleted := MarkDeleted(rows0 + StoredRows(Convert(inputs, pkCols, vMin)), selects, current)[|rows0| + i];
         "v_max" in deleted && deleted["v_max"] == IntCell(current)
  {
    var t := WithPk(inputs[i].built, pkCols, inputs[i].pk, vMin);
    ConvertAt(inputs, pkCols, vMin, i);
    CreatedRowFields(inputs[i].built, pkCols, inputs[i].pk, vMin);
    assert t["v_min"] == PkValue(pkCols, inputs[i].pk, vMin, |pkCols| - 1);
    assert "v_max" !in t;
    var all := rows0 + StoredRows(Convert(inputs, pkCols, vMin));
    assert all[|rows0| + i] == Stored(t);
    var selects := (row: Row) => DeleteSelects(TableStore, rowidCols, version, None, base, row);
    MarkDeletedSpec(all, selects, current);
  }

  function SumExcs(inputs: seq<InputRow>): nat
  {
    if |inputs| == 0 then 0 else SumExcs(inputs[..|inputs| - 1]) + inputs[|inputs| - 1].numExcs
  }

  function ExcCols(inputs: seq<InputRow>): set<int>
  {
    if |inputs| == 0 then {} else ExcCols(inputs[..|inputs| - 1]) + inputs[|inputs| - 1].excCols
  }

  lemma {:induction false} ExcTotalsAppend(a: seq<InputRow>, b: seq<InputRow>)
    ensures SumExcs(a + b) == SumExcs(a) + SumExcs(b)
    ensures ExcCols(a + b) == ExcCols(a) + ExcCols(b)
  {
    if |b| == 0 {
      assert a + b == a;
    } else {
      ExcTotalsAppend(a, b[..|b| - 1]);
      assert (a + b)[..|a + b| - 1] == a + b[..|b| - 1];
    }
  }

  /** `s` cut into consecutive pieces of `n`, the last one possibly
      shorter. */
  function ChunksOf<T>(s: seq<T>, n: nat): seq<seq<T>>
    requires n > 0
    decreases |s|
  {
    if |s| == 0 then [] else [s[..Min(n, |s|)]] + ChunksOf(s[Min(n, |s|)..], n)
  }

  function Flatten<T>(ss: seq<seq<T>>): seq<T>
  {
    if |ss| == 0 then [] else Flatten(ss[..|ss| - 1]) + ss[|ss| - 1]
  }

  lemma {:induction false} FlattenAppend<T>(a: seq<seq<T>>, b: seq<seq<T>>)
    ensures Flatten(a + b) == Flatten(a) + Flatten(b)
  {
    if |b| == 0 {
      assert a + b == a;
    } else {
      FlattenAppend(a, b[..|b| - 1]);
      assert (a + b)[..|a + b| - 1] == a + b[..|b| - 1];
    }
  }

  /** The pieces put back together are the sequence, and every piece holds
      between one and `n` elements. */
  lemma {:induction false} ChunksOfSpec<T>(s: seq<T>, n: nat)
    requires n > 0
    ensures Flatten(ChunksOf(s, n)) == s
    ensures forall c :: c in ChunksOf(s, n) ==> 0 < |c| <= n
    decreases |s|
  {
    if |s| > 0 {
      var k := Min(n, |s|);
      assert ChunksOf(s, n) == [s[..k]] + ChunksOf(s[k..], n);
      ChunksOfSpec(s[k..], n);
      FlattenAppend([s[..k]], ChunksOf(s[k..], n));
      assert Flatten([s[..k]]) == s[..k] by {
        assert [s[..k]][..0] == [];
      }
      assert s == s[..k] + s[k..];
    }
  }

  /** Extending a run of input rows by the next one extends its table rows
      and its exception totals by that row's. */
  lemma ConvertStep(batch: seq<InputRow>, pkCols: seq<string>, vMin: Option<int>, start: nat, i: nat)
    requires start <= i < |batch|
    ensures Convert(batch[start..i + 1], pkCols, vMin)
      == Convert(batch[start..i], pkCols, vMin) + [WithPk(batch[i].built, pkCols, batch[i].pk, vMin)]
    ensures SumExcs(batch[start..i + 1]) == SumExcs(batch[start..i]) + batch[i].numExcs
    ensures ExcCols(batch[start..i + 1]) == ExcCols(batch[start..i]) + batch[i].excCols
  {
    assert batch[start..i + 1][..i - start] == batch[start..i];
  }

  /** One `INSERT` of `insert_rows`: rows `start` to `end` of a batch are
      the next statement's rows, the rest are left for later statements. */
  lemma InsertStep(batch: seq<InputRow>, pkCols: seq<string>, vMin: Option<int>, start: nat, end: nat)
    requires start < end <= |batch| && end == Min(start + BatchSize, |batch|)
    ensures Convert(batch[..end], pkCols, vMin) == Convert(batch[..start], pkCols, vMin) + Convert(batch[start..end], pkCols, vMin)
    ensures ChunksOf(Convert(batch[start..], pkCols, vMin), BatchSize)
      == [Convert(batch[start..end], pkCols, vMin)] + ChunksOf(Convert(batch[end..], pkCols, vMin), BatchSize)
    ensures SumExcs(batch[..end]) == SumExcs(batch[..start]) + SumExcs(batch[start..end])
    ensures ExcCols(batch[..end]) == ExcCols(batch[..start]) + ExcCols(batch[start..end])
  {
    assert batch[..end] == batch[..start] + batch[start..end];
    ConvertAppend(batch[..start], batch[start..end], pkCols, vMin);
    ExcTotalsAppend(batch[..start], batch[start..end]);
    assert batch[start..] == batch[start..end] + batch[end..];
    ConvertAppend(batch[start..end], batch[end..], pkCols, vMin);
    var x := Convert(batch[start..], pkCols, vMin);
    assert x[..end - start] == Convert(batch[start..end], pkCols, vMin);
    assert x[end - start..] == Convert(batch[end..], pkCols, vMin);
  }

  /** The rows `insert_rows` adds for a list of batches. */
  function ConvertAll(batches: seq<seq<InputRow>>, pkCols: seq<string>, vMin: Option<int>): seq<Row>
  {
    if |batches| == 0 then []
    else ConvertAll(batches[..|batches| - 1], pkCols, vMin) + Convert(batches[|batches| - 1], pkCols, vMin)
  }

  /** The `INSERT` statements `insert_rows` issues for a list of batches:
      each batch in pieces of `BatchSize`. */
  function ChunksAll(batches: seq<seq<InputRow>>, pkCols: seq<string>, vMin: Option<int>): seq<seq<Row>>
  {
    if |batches| == 0 then []
    else ChunksAll(batches[..|batches| - 1], pkCols, vMin) + ChunksOf(Convert(batches[|batches| - 1], pkCols, vMin), BatchSize)
  }

  function TotalRows<T>(batches: seq<seq<T>>): nat
  {
    if |batches| == 0 then 0 else TotalRows(batches[..|batches| - 1]) + |batches[|batches| - 1]|
  }

  function SumExcsAll(batches: seq<seq<InputRow>>): nat
  {
    if |batches| == 0 then 0 else SumExcsAll(batches[..|batches| - 1]) + SumExcs(batches[|batches| - 1])
  }

  function ExcColsAll(batches: seq<seq<InputRow>>): set<int>
  {
    if |batches| == 0 then {} else ExcColsAll(batches[..|batches| - 1]) + ExcCols(batches[|batches| - 1])
  }

  /** The rows inserted are every input row, once and in order, converted;
      the statements carry exactly those rows, at most `BatchSize` and at
      least one per statement; the reported row count is their number. */
  lemma {:induction false} InsertedRows(batches: seq<seq<InputRow>>, pkCols: seq<string>, vMin: Option<int>)
    ensures ConvertAll(batches, pkCols, vMin) == Convert(Flatten(batches), pkCols, vMin)
    ensures Flatten(ChunksAll(batches, pkCols, vMin)) == ConvertAll(batches, pkCols, vMin)
    ensures forall c :: c in ChunksAll(batches, pkCols, vMin) ==> 0 < |c| <= BatchSize
    ensures |ConvertAll(batches, pkCols, vMin)| == TotalRows(batches)
    ensures SumExcsAll(batches) == SumExcs(Flatten(batches))
  {
    if |batches| > 0 {
      var init := batches[..|batches| - 1];
      var last := batches[|batches| - 1];
      InsertedRows(init, pkCols, vMin);
      ChunksOfSpec(Convert(last, pkCols, vMin), BatchSize);
      FlattenAppend(ChunksAll(init, pkCols, vMin), ChunksOf(Convert(last, pkCols, vMin), BatchSize));
      ExcTotalsAppend(Flatten(init), last);
      ConvertAppend(Flatten(init), last, pkCols, vMin);
    }
  }

  // -----------------------------------------------------------------------
  // loading a computed column

  /** The storage columns of a catalog column. */
  datatype ColumnSpec = ColumnSpec(
    storageName: string,
    errormsgName: string,
    errortypeName: string,
    indexName: string,
    isComputed: bool,
    isStored: bool,
    isIndexed: bool)

  /** A row of the execution plan that computes a column: its key values,
      the value slot (or the exception raised there, as type name and
      message), and the embedding slot with whether it raised. */
  datatype ResultRow = ResultRow(
    pk: seq<Cell>,
    value: Cell,
    exc: Option<(string, string)>,
    embedding: Cell,
    embeddingRaised: bool)

  /** The values `load_column` writes for one result row. */
  function UpdateValues(col: ColumnSpec, r: ResultRow): (v: Row)
    ensures forall k :: k in v ==> k in {col.storageName, col.errormsgName, col.errortypeName, col.indexName}
    ensures !col.isComputed && !col.isIndexed ==> v == map[]
    ensures col.isComputed ==> col.storageName in v
    ensures col.isIndexed ==> col.indexName in v && v[col.indexName] == r.embedding
  {
    var values: Row :=
      if !col.isComputed then map[]
      else if r.exc.Some? then
        map[col.storageName := NullCell, col.errortypeName := TextCell(r.exc.value.0),
            col.errormsgName := TextCell(r.exc.value.1)]
      else map[col.storageName := r.value];
    if col.isIndexed then values[col.indexName := r.embedding] else values
  }

  /** The `WHERE` of an update keyed on the primary key: each key column
      equals the matching key value. */
  predicate KeyMatches(row: Row, pkCols: seq<string>, pk: seq<Cell>)
  {
    forall i :: 0 <= i < |pkCols| && i < |pk| ==> pkCols[i] in row && row[pkCols[i]] == pk[i]
  }

  /** `UPDATE ... SET values WHERE key = pk` on the in-memory rows. */
  function UpdateWhere(rows: seq<Row>, pkCols: seq<string>, pk: seq<Cell>, values: Row): (r: seq<Row>)
    ensures |r| == |rows|
  {
    if |rows| == 0 then []
    else
      var last := rows[|rows| - 1];
      UpdateWhere(rows[..|rows| - 1], pkCols, pk, values) + [if KeyMatches(last, pkCols, pk) then last + values else last]
  }

  /** The rows after `load_column` has issued the updates of `results`, in
      order. */
  function LoadAll(rows: seq<Row>, pkCols: seq<string>, col: ColumnSpec, results: seq<ResultRow>): (r: seq<Row>)
    ensures |r| == |rows|
  {
    if |results| == 0 then rows
    else
      var last := results[|results| - 1];
      UpdateWhere(LoadAll(rows, pkCols, col, results[..|results| - 1]), pkCols, last.pk, UpdateValues(col, last))
  }

  function CountExcs(col: ColumnSpec, results: seq<ResultRow>): nat
  {
    if |results| == 0 then 0
    else CountExcs(col, results[..|results| - 1]) + (if col.isComputed && results[|results| - 1].exc.Some? then 1 else 0)
  }

  lemma {:induction false} LoadAllAppend(rows: seq<Row>, pkCols: seq<string>, col: ColumnSpec, a: seq<ResultRow>, b: seq<ResultRow>)
    ensures LoadAll(LoadAll(rows, pkCols, col, a), pkCols, col, b) == LoadAll(rows, pkCols, col, a + b)
    ensures CountExcs(col, a) + CountExcs(col, b) == CountExcs(col, a + b)
  {
    if |b| == 0 {
      assert a + b == a;
    } else {
      LoadAllAppend(rows, pkCols, col, a, b[..|b| - 1]);
      assert (a + b)[..|a + b| - 1] == a + b[..|b| - 1];
    }
  }

  /** What one result row writes: for a computed column, `NULL` with the
      exception's type name and message when the value slot raised, else
      the value alone; plus the embedding for an indexed column. */
  lemma UpdateValuesSpec(col: ColumnSpec, r: ResultRow)
    requires col.isComputed
    requires col.storageName != col.errormsgName && col.storageName != col.errortypeName && col.errormsgName != col.errortypeName
    requires col.indexName !in {col.storageName, col.errormsgName, col.errortypeName}
    ensures r.exc.Some? ==>
      && UpdateValues(col, r)[col.storageName] == NullCell
      && UpdateValues(col, r)[col.errortypeName] == TextCell(r.exc.value.0)
      && UpdateValues(col, r)[col.errormsgName] == TextCell(r.exc.value.1)
    ensures r.exc.None? ==>
      && UpdateValues(col, r)[col.storageName] == r.value
      && col.errormsgName !in UpdateValues(col, r) && col.errortypeName !in UpdateValues(col, r)
    ensures col.isIndexed <==> col.indexName in UpdateValues(col, r)
    ensures col.isIndexed ==> UpdateValues(col, r)[col.indexName] == r.embedding
    ensures forall k :: k in UpdateValues(col, r) ==> k in {col.storageName, col.errormsgName, col.errortypeName, col.indexName}
  {
  }

  /** A row whose key matches no result row is left as it is, and a load
      reports at most one exception per result row. */
  lemma {:induction false} LoadAllFrame(rows: seq<Row>, pkCols: seq<string>, col: ColumnSpec, results: seq<ResultRow>, k: nat)
    requires k < |rows|
    requires forall j :: 0 <= j < |results| ==> !KeyMatches(rows[k], pkCols, results[j].pk)
    ensures LoadAll(rows, pkCols, col, results)[k] == rows[k]
    ensures CountExcs(col, results) <= |results|
  {
    if |results| > 0 {
      var init := results[..|results| - 1];
      LoadAllFrame(rows, pkCols, col, init, k);
      UpdateWhereAt(LoadAll(rows, pkCols, col, init), pkCols, results[|results| - 1].pk, UpdateValues(col, results[|results| - 1]), k);
    }
  }

  /** Row `k` after a keyed update: the update's values laid over it when
      its key matches, unchanged otherwise. */
  lemma {:induction false} UpdateWhereAt(rows: seq<Row>, pkCols: seq<string>, pk: seq<Cell>, values: Row, k: nat)
    requires k < |rows|
    ensures UpdateWhere(rows, pkCols, pk, values)[k] == if KeyMatches(rows[k], pkCols, pk) then rows[k] + values else rows[k]
  {
    if k < |rows| - 1 {
      UpdateWhereAt(rows[..|rows| - 1], pkCols, pk, values, k);
    }
  }

  // -----------------------------------------------------------------------
  // deleting

  /** A row is live at `version` when it was created at or before it and
      has not been deleted. */
  predicate IsLive(row: Row, version: int)
  {
    && "v_min" in row && row["v_min"].IntCell? && row["v_min"].i <= version
    && "v_max" in row && row["v_max"] == IntCell(MaxVersion)
  }

  /** The state of a view's base store that a view's delete consults. */
  datatype BaseState = BaseState(rowidCols: seq<string>, version: int, rows: seq<Row>)

  /** The view row shares its rowid with a base row (pairing the columns
      as `zip` does) that the base's current version deleted. */
  predicate BaseRowDeleted(row: Row, rowidCols: seq<string>, base: BaseState)
  {
    exists j :: 0 <= j < |base.rows|
      && "v_max" in base.rows[j] && base.rows[j]["v_max"] == IntCell(base.version)
      && forall i :: 0 <= i < |rowidCols| && i < |base.rowidCols| ==>
           rowidCols[i] in row && base.rowidCols[i] in base.rows[j] && row[rowidCols[i]] == base.rows[j][base.rowidCols[i]]
  }

  /** `_delete_rows_where_clause`: a table deletes its rows live at
      `version` that satisfy `where`; a view (component or not) those that
      also belong to a base row deleted in the base's current version. */
  predicate DeleteSelects(kind: StoreKind, rowidCols: seq<string>, version: int, where: Option<Row -> bool>,
                          base: BaseState, row: Row)
    ensures DeleteSelects(kind, rowidCols, version, where, base, row) ==>
      "v_min" in row && row["v_min"].IntCell? && row["v_min"].i <= version
    ensures "v_max" in row && row["v_max"] != IntCell(MaxVersion) ==> !DeleteSelects(kind, rowidCols, version, where, base, row)
    ensures "v_max" !in row ==> !DeleteSelects(kind, rowidCols, version, where, base, row)
  {
    && IsLive(row, version)
    && (where.None? || where.value(row))
    && (kind != TableStore ==> BaseRowDeleted(row, rowidCols, base))
  }

  /** `UPDATE ... SET v_max = current WHERE selects` on the in-memory rows. */
  function MarkDeleted(rows: seq<Row>, selects: Row -> bool, current: int): (r: seq<Row>)
    ensures |r| == |rows|
  {
    if |rows| == 0 then []
    else
      var last := rows[|rows| - 1];
      MarkDeleted(rows[..|rows| - 1], selects, current) + [if selects(last) then last["v_max" := IntCell(current)] else last]
  }

  /** The number of rows the update selects (its `rowcount`). */
  function CountSelected(rows: seq<Row>, selects: Row -> bool): nat
  {
    if |rows| == 0 then 0
    else CountSelected(rows[..|rows| - 1], selects) + (if selects(rows[|rows| - 1]) then 1 else 0)
  }

  /** The number of positions where two row sequences differ. */
  function CountChanged(before: seq<Row>, after: seq<Row>): nat
    requires |before| == |after|
  {
    if |before| == 0 then 0
    else CountChanged(before[..|before| - 1], after[..|after| - 1]) + (if before[|before| - 1] != after[|after| - 1] then 1 else 0)
  }

  /** A delete rewrites `v_max` of exactly the selected rows to the current
      version, leaves every other column and every other row unchanged,
      and reports as many rows as it changed (the current version being
      below `MaxVersion`). */
  lemma {:induction false} MarkDeletedSpec(rows: seq<Row>, selects: Row -> bool, current: int)
    requires current != MaxVersion
    requires forall k :: 0 <= k < |rows| && selects(rows[k]) ==> "v_max" in rows[k] && rows[k]["v_max"] == IntCell(MaxVersion)
    ensures forall k :: 0 <= k < |rows| && !selects(rows[k]) ==> MarkDeleted(rows, selects, current)[k] == rows[k]
    ensures forall k :: 0 <= k < |rows| && selects(rows[k]) ==>
      && MarkDeleted(rows, selects, current)[k].Keys == rows[k].Keys
      && MarkDeleted(rows, selects, current)[k]["v_max"] == IntCell(current)
      && forall c :: c in rows[k] && c != "v_max" ==> MarkDeleted(rows, selects, current)[k][c] == rows[k][c]
    ensures CountSelected(rows, selects) == CountChanged(rows, MarkDeleted(rows, selects, current))
  {
    if |rows| > 0 {
      var init := rows[..|rows| - 1];
      MarkDeletedSpec(init, selects, current);
      var after := MarkDeleted(rows, selects, current);
      assert after[..|after| - 1] == MarkDeleted(init, selects, current);
      forall k | 0 <= k < |rows| - 1 ensures after[k] == MarkDeleted(init, selects, current)[k] && rows[k] == init[k] {
      }
    }
  }

  /** With no `where` the table deletes exactly its rows live at `version`. */
  lemma NoPredicateDeletesLive(rowidCols: seq<string>, version: int, base: BaseState, row: Row)
    ensures DeleteSelects(TableStore, rowidCols, version, None, base, row) <==> IsLive(row, version)
  {
  }

  /** Deleting twice at the same version deletes nothing more: a deleted
      row is no longer live (the current version being below
      `MaxVersion`). */
  lemma {:induction false} DeleteTwice(kind: StoreKind, rowidCols: seq<string>, version: int, where: Option<Row -> bool>,
                                       base: BaseState, rows: seq<Row>, current: int)
    requires current != MaxVersion
    ensures var selects := (row: Row) => DeleteSelects(kind, rowidCols, version, where, base, row);
      && CountSelected(MarkDeleted(rows, selects, current), selects) == 0
      && MarkDeleted(MarkDeleted(rows, selects, current), selects, current) == MarkDeleted(rows, selects, current)
  {
    var selects := (row: Row) => DeleteSelects(kind, rowidCols, version, where, base, row);
    if |rows| > 0 {
      var init := rows[..|rows| - 1];
      DeleteTwice(kind, rowidCols, version, where, base, init, current);
      var once := MarkDeleted(rows, selects, current);
      assert once[..|once| - 1] == MarkDeleted(init, selects, current);
      assert !selects(once[|once| - 1]);
    }
  }

  // -----------------------------------------------------------------------
  // adding and dropping columns

  /** The storage columns a catalog column occupies: its value column, and
      its error-message and error-type columns when it is computed. */
  function AddedColumns(col: ColumnSpec): seq<string>
  {
    [col.storageName] + (if col.isComputed then [col.errormsgName, col.errortypeName] else [])
  }

  /** The storage columns a stored catalog column contributes to the
      table description: those of `AddedColumns` and, for an indexed
      column, its index column. */
  function StorageColumns(col: ColumnSpec): seq<string>
  {
    AddedColumns(col) + (if col.isIndexed then [col.indexName] else [])
  }

  /** `_create_sa_tbl`: the system columns, then the storage columns of
      every stored column, in catalog order. */
  function TableColumns(systemCols: seq<string>, cols: seq<ColumnSpec>): (r: seq<string>)
    ensures |r| >= |systemCols| && r[..|systemCols|] == systemCols
    ensures (forall i :: 0 <= i < |cols| ==> !cols[i].isStored) ==> r == systemCols
  {
    if |cols| == 0 then systemCols
    else
      var last := cols[|cols| - 1];
      var init := TableColumns(systemCols, cols[..|cols| - 1]);
      init + (if last.isStored then StorageColumns(last) else [])
  }

  /** The table description starts with the system columns and holds
      exactly the storage columns of the stored columns besides; a column
      that is not stored contributes nothing. */
  lemma {:induction false} TableColumnsSpec(systemCols: seq<string>, cols: seq<ColumnSpec>)
    ensures |TableColumns(systemCols, cols)| >= |systemCols|
    ensures TableColumns(systemCols, cols)[..|systemCols|] == systemCols
    ensures forall x :: x in TableColumns(systemCols, cols) <==>
      x in systemCols || exists i :: 0 <= i < |cols| && cols[i].isStored && x in StorageColumns(cols[i])
  {
    if |cols| > 0 {
      var init := cols[..|cols| - 1];
      var last := cols[|cols| - 1];
      TableColumnsSpec(systemCols, init);
      var t := TableColumns(systemCols, init);
      var extra := if last.isStored then StorageColumns(last) else [];
      assert TableColumns(systemCols, cols) == t + extra;
      assert (t + extra)[..|systemCols|] == t[..|systemCols|];
      forall x
        ensures x in t + extra <==>
          x in systemCols || exists i :: 0 <= i < |cols| && cols[i].isStored && x in StorageColumns(cols[i])
      {
        if x in extra {
          assert cols[|cols| - 1] == last;
        }
        if exists i :: 0 <= i < |cols| && cols[i].isStored && x in StorageColumns(cols[i]) {
          var i :| 0 <= i < |cols| && cols[i].isStored && x in StorageColumns(cols[i]);
          if i < |cols| - 1 {
            assert cols[i] == init[i];
          }
        }
      }
    }
  }

  /** `names` without any of `drop`. */
  function Without(names: seq<string>, drop: seq<string>): seq<string>
  {
    if |names| == 0 then []
    else Without(names[..|names| - 1], drop) + (if names[|names| - 1] in drop then [] else [names[|names| - 1]])
  }

  /** `Without` keeps exactly the names not dropped. */
  lemma {:induction false} WithoutMembers(names: seq<string>, drop: seq<string>)
    ensures forall x :: x in Without(names, drop) <==> x in names && x !in drop
  {
    if |names| > 0 {
      WithoutMembers(names[..|names| - 1], drop);
      assert names == names[..|names| - 1] + [names[|names| - 1]];
    }
  }

  /** `row` without any of the columns in `drop`. */
  function DropKeys(row: Row, drop: seq<string>): Row
  {
    map k | k in row && k !in drop :: row[k]
  }

  /** Dropping a column right after adding it restores the storage
      columns, provided none of its storage columns was there before. */
  lemma {:induction false} AddThenDrop(names: seq<string>, col: ColumnSpec)
    requires forall x :: x in AddedColumns(col) ==> x !in names
    ensures Without(names + AddedColumns(col), AddedColumns(col)) == names
  {
    WithoutAppend(names, AddedColumns(col), AddedColumns(col));
    WithoutNone(names, AddedColumns(col));
    WithoutAll(AddedColumns(col));
  }

  lemma {:induction false} WithoutAppend(a: seq<string>, b: seq<string>, drop: seq<string>)
    ensures Without(a + b, drop) == Without(a, drop) + Without(b, drop)
  {
    if |b| == 0 {
      assert a + b == a;
    } else {
      WithoutAppend(a, b[..|b| - 1], drop);
      assert (a + b)[..|a + b| - 1] == a + b[..|b| - 1];
    }
  }

  lemma {:induction false} WithoutNone(names: seq<string>, drop: seq<string>)
    requires forall x :: x in drop ==> x !in names
    ensures Without(names, drop) == names
  {
    if |names| > 0 {
      WithoutNone(names[..|names| - 1], drop);
      assert names[|names| - 1] in names;
      assert names == names[..|names| - 1] + [names[|names| - 1]];
    }
  }

  lemma WithoutAll(drop: seq<string>)
    ensures Without(drop, drop) == []
  {
    WithoutMembers(drop, drop);
    if |Without(drop, drop)| > 0 {
      assert Without(drop, drop)[0] in Without(drop, drop);
    }
  }

  // -----------------------------------------------------------------------
  // the store

  class StoreModel {
    const kind: StoreKind
    /** `_create_rowid_columns`. */
    const rowidCols: seq<string>
    /** `_pk_columns`: the rowid columns and `v_min`. */
    const pkCols: seq<string>
    /** The system columns: the key columns and `v_max`. */
    const systemCols: seq<string>
    /** `pos_col_idx` of a component view. */
    const posColIdx: Option<nat>
    /** `tbl_version.version`: the table's current version. */
    var version: int
    /** The storage columns of the user columns, in the order added. */
    var storedColumns: seq<string>
    var rows: seq<Row>
    /** The row lists of the `INSERT` statements issued so far. */
    var insertLog: seq<seq<Row>>

    /** The column layout `_create_system_columns` establishes. */
    predicate Valid()
    {
      && pkCols == rowidCols + ["v_min"]
      && systemCols == pkCols + ["v_max"]
      && (posColIdx.Some? <==> kind == ComponentViewStore)
      && (posColIdx.Some? ==> posColIdx.value == |rowidCols| - 1)
    }

    /** `_create_system_columns` for a store of `kind` over a base with
        rowid columns `baseRowid`. */
    constructor (kind: StoreKind, baseRowid: seq<string>, version: int, storedColumns: seq<string>)
      ensures Valid()
      ensures this.kind == kind && rowidCols == RowidColumnsFor(kind, baseRowid)
      ensures kind == ComponentViewStore ==> posColIdx == Some(|baseRowid|)
      ensures this.version == version && this.storedColumns == storedColumns
      ensures rows == [] && insertLog == []
    {
      this.kind := kind;
      var rowid: seq<string>;
      if kind == TableStore {
        rowid := ["rowid"];
        posColIdx := None;
      } else if kind == ViewStore {
        rowid := baseRowid;
        posColIdx := None;
      } else {
        rowid := baseRowid;
        var pos := "pos_" + IntToString(|rowid| - 1);
        posColIdx := Some(|rowid|);
        rowid := rowid + [pos];
      }
      rowidCols := rowid;
      pkCols := rowid + ["v_min"];
      systemCols := rowid + ["v_min", "v_max"];
      this.version := version;
      this.storedColumns := storedColumns;
      rows := [];
      insertLog := [];
    }

    /** `rowid_columns()`: the key columns without their last, which
        gives back exactly the rowid columns; the system columns are the
        key columns and `v_max`. */
    function RowidColumns(): (r: seq<string>)
      requires Valid()
      ensures r == rowidCols
      ensures pkCols == r + ["v_min"] && systemCols == r + ["v_min", "v_max"]
    {
      pkCols[..|pkCols| - 1]
    }

    /** `_create_table_row` after the row builder: each key column takes
        the input's key value, except the last (`v_min`), which takes the
        override when one is given. */
    method CreateTableRow(input: InputRow, vMin: Option<int>) returns (tableRow: Row, numExcs: nat)
      requires |input.pk| == |pkCols|
      ensures tableRow == WithPk(input.built, pkCols, input.pk, vMin)
      ensures numExcs == input.numExcs
    {
      tableRow, numExcs := input.built, input.numExcs;
      var i := 0;
      while i < |pkCols|
        invariant 0 <= i <= |pkCols|
        invariant tableRow == FillPk(input.built, pkCols, input.pk, vMin, i)
      {
        if i == |pkCols| - 1 && vMin.Some? {
          tableRow := tableRow[pkCols[i] := IntCell(vMin.value)];
        } else {
          tableRow := tableRow[pkCols[i] := input.pk[i]];
        }
        i := i + 1;
      }
    }

    /** The rows of one `INSERT`: rows `start` to `end` of the batch,
        converted in order, with their exception counts. */
    method ConvertChunk(batch: seq<InputRow>, start: nat, end: nat, vMin: Option<int>, excCols0: set<int>)
      returns (tableRows: seq<Row>, numExcs: nat, excCols: set<int>)
      requires start <= end <= |batch|
      requires forall r :: r in batch ==> |r.pk| == |pkCols|
      ensures tableRows == Convert(batch[start..end], pkCols, vMin)
      ensures numExcs == SumExcs(batch[start..end])
      ensures excCols == excCols0 + ExcCols(batch[start..end])
    {
      tableRows, numExcs, excCols := [], 0, excCols0;
      var rowIdx := start;
      while rowIdx < end
        invariant start <= rowIdx <= end
        invariant tableRows == Convert(batch[start..rowIdx], pkCols, vMin)
        invariant numExcs == SumExcs(batch[start..rowIdx])
        invariant excCols == excCols0 + ExcCols(batch[start..rowIdx])
      {
        var row := batch[rowIdx];
        assert row in batch;
        ConvertStep(batch, pkCols, vMin, start, rowIdx);
        var tableRow, numRowExc := CreateTableRow(row, vMin);
        excCols := excCols + row.excCols;
        numExcs := numExcs + numRowExc;
        tableRows := tableRows + [tableRow];
        rowIdx := rowIdx + 1;
      }
    }

    /** One `INSERT` statement: rows `start` to `end` of the batch
        converted and appended. */
    method InsertChunk(batch: seq<InputRow>, start: nat, end: nat, vMin: Option<int>, excCols0: set<int>)
      returns (numExcs: nat, excCols: set<int>)
      requires start <= end <= |batch|
      requires forall r :: r in batch ==> |r.pk| == |pkCols|
      modifies this
      ensures rows == old(rows) + StoredRows(Convert(batch[start..end], pkCols, vMin))
      ensures insertLog == old(insertLog) + [Convert(batch[start..end], pkCols, vMin)]
      ensures version == old(version) && storedColumns == old(storedColumns)
      ensures numExcs == SumExcs(batch[start..end]) && excCols == excCols0 + ExcCols(batch[start..end])
    {
      var tableRows;
      tableRows, numExcs, excCols := ConvertChunk(batch, start, end, vMin, excCols0);
      rows := rows + StoredRows(tableRows);
      insertLog := insertLog + [tableRows];
    }

    /** One batch of the execution plan, inserted `BatchSize` rows per
        statement. */
    method InsertBatch(batch: seq<InputRow>, vMin: Option<int>, excCols0: set<int>)
      returns (numExcs: nat, excCols: set<int>)
      requires forall r :: r in batch ==> |r.pk| == |pkCols|
      modifies this
      ensures rows == old(rows) + StoredRows(Convert(batch, pkCols, vMin))
      ensures insertLog == old(insertLog) + ChunksOf(Convert(batch, pkCols, vMin), BatchSize)
      ensures version == old(version) && storedColumns == old(storedColumns)
      ensures numExcs == SumExcs(batch) && excCols == excCols0 + ExcCols(batch)
    {
      numExcs, excCols := 0, excCols0;
      var start := 0;
      ghost var done := 0;
      while start < |batch|
        invariant 0 <= start && done == Min(start, |batch|)
        invariant rows == old(rows) + StoredRows(Convert(batch[..done], pkCols, vMin))
        invariant old(insertLog) + ChunksOf(Convert(batch, pkCols, vMin), BatchSize)
          == insertLog + ChunksOf(Convert(batch[done..], pkCols, vMin), BatchSize)
        invariant numExcs == SumExcs(batch[..done]) && excCols == excCols0 + ExcCols(batch[..done])
        invariant version == old(version) && storedColumns == old(storedColumns)
      {
        var end := Min(start + BatchSize, |batch|);
        ghost var rows0, log0 := rows, insertLog;
        var n, cols := InsertChunk(batch, start, end, vMin, excCols);
        InsertStep(batch, pkCols, vMin, start, end);
        StoredRowsAppend(Convert(batch[..start], pkCols, vMin), Convert(batch[start..end], pkCols, vMin));
        AppendAssoc(old(rows), StoredRows(Convert(batch[..start], pkCols, vMin)), StoredRows(Convert(batch[start..end], pkCols, vMin)));
        AppendAssoc(log0, [Convert(batch[start..end], pkCols, vMin)], ChunksOf(Convert(batch[end..], pkCols, vMin), BatchSize));
        numExcs := numExcs + n;
        excCols := cols;
        start := start + BatchSize;
        done := end;
      }
      assert batch[..done] == batch;
    }

    /** `insert_rows`: every batch inserted in turn; returns the number of
        rows, the number of exceptions and the columns that raised them. */
    method InsertRows(batches: seq<seq<InputRow>>, vMin: Option<int>)
      returns (numRows: nat, numExcs: nat, colsWithExcs: set<int>)
      requires forall b, r :: b in batches && r in b ==> |r.pk| == |pkCols|
      modifies this
      ensures rows == old(rows) + StoredRows(ConvertAll(batches, pkCols, vMin))
      ensures insertLog == old(insertLog) + ChunksAll(batches, pkCols, vMin)
      ensures version == old(version) && storedColumns == old(storedColumns)
      ensures numRows == TotalRows(batches)
      ensures numExcs == SumExcsAll(batches) && colsWithExcs == ExcColsAll(batches)
    {
      numRows, numExcs, colsWithExcs := 0, 0, {};
      var b := 0;
      while b < |batches|
        invariant 0 <= b <= |batches|
        invariant rows == old(rows) + StoredRows(ConvertAll(batches[..b], pkCols, vMin))
        invariant insertLog == old(insertLog) + ChunksAll(batches[..b], pkCols, vMin)
        invariant version == old(version) && storedColumns == old(storedColumns)
        invariant numRows == TotalRows(batches[..b])
        invariant numExcs == SumExcsAll(batches[..b]) && colsWithExcs == ExcColsAll(batches[..b])
      {
        assert batches[..b + 1][..b] == batches[..b];
        var batch := batches[b];
        assert batch in batches;
        numRows := numRows + |batch|;
        var n;
        n, colsWithExcs := InsertBatch(batch, vMin, colsWithExcs);
        StoredRowsAppend(ConvertAll(batches[..b], pkCols, vMin), Convert(batch, pkCols, vMin));
        AppendAssoc(old(rows), StoredRows(ConvertAll(batches[..b], pkCols, vMin)), StoredRows(Convert(batch, pkCols, vMin)));
        AppendAssoc(old(insertLog), ChunksAll(batches[..b], pkCols, vMin), ChunksOf(Convert(batch, pkCols, vMin), BatchSize));
        numExcs := numExcs + n;
        b := b + 1;
      }
      assert batches[..b] == batches;
    }

    /** The updates of one batch of the execution plan. */
    method LoadBatch(col: ColumnSpec, batch: seq<ResultRow>) returns (numExcs: nat)
      requires col.isIndexed ==> forall r :: r in batch ==> !r.embeddingRaised
      modifies this
      ensures rows == LoadAll(old(rows), pkCols, col, batch)
      ensures numExcs == CountExcs(col, batch)
      ensures version == old(version) && storedColumns == old(storedColumns) && insertLog == old(insertLog)
    {
      numExcs := 0;
      var i := 0;
      while i < |batch|
        invariant 0 <= i <= |batch|
        invariant rows == LoadAll(old(rows), pkCols, col, batch[..i])
        invariant numExcs == CountExcs(col, batch[..i])
        invariant version == old(version) && storedColumns == old(storedColumns) && insertLog == old(insertLog)
      {
        assert batch[..i + 1][..i] == batch[..i];
        var resultRow := batch[i];
        var values: Row := map[];
        if col.isComputed {
          if resultRow.exc.Some? {
            numExcs := numExcs + 1;
            var (errorType, errorMsg) := resultRow.exc.value;
            values := map[col.storageName := NullCell, col.errortypeName := TextCell(errorType),
                          col.errormsgName := TextCell(errorMsg)];
          } else {
            values := map[col.storageName := resultRow.value];
          }
        }
        if col.isIndexed {
          values := values[col.indexName := resultRow.embedding];
        }
        rows := UpdateWhere(rows, pkCols, resultRow.pk, values);
        i := i + 1;
      }
      assert batch[..i] == batch;
    }

    /** `load_column`: every result row of every batch written to the rows
        with its key; returns the number of value slots that raised. */
    method LoadColumn(col: ColumnSpec, batches: seq<seq<ResultRow>>) returns (numExcs: nat)
      requires col.isIndexed ==> forall b, r :: b in batches && r in b ==> !r.embeddingRaised
      modifies this
      ensures rows == LoadAll(old(rows), pkCols, col, Flatten(batches))
      ensures numExcs == CountExcs(col, Flatten(batches))
      ensures version == old(version) && storedColumns == old(storedColumns) && insertLog == old(insertLog)
    {
      numExcs := 0;
      var numRows := 0;
      var b := 0;
      while b < |batches|
        invariant 0 <= b <= |batches|
        invariant rows == LoadAll(old(rows), pkCols, col, Flatten(batches[..b]))
        invariant numExcs == CountExcs(col, Flatten(batches[..b]))
        invariant version == old(version) && storedColumns == old(storedColumns) && insertLog == old(insertLog)
      {
        assert batches[..b + 1][..b] == batches[..b];
        var batch := batches[b];
        assert batch in batches;
        numRows := numRows + |batch|;
        var n := LoadBatch(col, batch);
        LoadAllAppend(old(rows), pkCols, col, Flatten(batches[..b]), batch);
        numExcs := numExcs + n;
        b := b + 1;
      }
      assert batches[..b] == batches;
    }

    /** `delete_rows`: `v_max` set to the current version on the rows the
        kind's delete condition selects; returns their number. A view
        consults its base's state. */
    method DeleteRows(version: int, where: Option<Row -> bool>, base: BaseState) returns (count: nat)
      requires Valid()
      modifies this
      ensures rows == MarkDeleted(old(rows), (row: Row) => DeleteSelects(kind, rowidCols, version, where, base, row), this.version)
      ensures count == CountSelected(old(rows), (row: Row) => DeleteSelects(kind, rowidCols, version, where, base, row))
      ensures this.version == old(this.version) && storedColumns == old(storedColumns) && insertLog == old(insertLog)
    {
      var rowid := RowidColumns();
      var selects := (row: Row) => DeleteSelects(kind, rowid, version, where, base, row);
      count := CountSelected(rows, selects);
      rows := MarkDeleted(rows, selects, this.version);
    }

    /** `add_column`: the column's storage columns appended. */
    method AddColumn(col: ColumnSpec)
      requires col.isStored
      modifies this
      ensures storedColumns == old(storedColumns) + AddedColumns(col)
      ensures rows == old(rows) && version == old(version) && insertLog == old(insertLog)
    {
      var added := [col.storageName];
      if col.isComputed {
        added := added + [col.errormsgName, col.errortypeName];
      }
      storedColumns := storedColumns + added;
    }

    /** `drop_column`: the column's storage columns removed from the table
        and from every row; with no column only the table description is
        rebuilt, which changes nothing here. */
    method DropColumn(col: Option<ColumnSpec>)
      modifies this
      ensures col.None? ==> storedColumns == old(storedColumns) && rows == old(rows)
      ensures col.Some? ==> storedColumns == Without(old(storedColumns), AddedColumns(col.value))
      ensures col.Some? ==> |rows| == |old(rows)|
      ensures col.Some? ==> forall k :: 0 <= k < |rows| ==> rows[k] == DropKeys(old(rows)[k], AddedColumns(col.value))
      ensures version == old(version) && insertLog == old(insertLog)
    {
      if col.Some? {
        var dropped := AddedColumns(col.value);
        storedColumns := Without(storedColumns, dropped);
        rows := seq(|rows|, k requires 0 <= k < |rows| reads this => DropKeys(rows[k], dropped));
      }
    }
  }
}
