/** `get_information_schema` of the dashboard bridge: one pass over every
    table collecting a summary row per table, a record per column, per
    computed column and per index, and running totals.

    A table whose metadata fails to load is skipped; a row count that
    fails counts as 0 (`rowCounts` holds the counts that succeed). As in
    `get_table_metadata`, the index loop rebinds the list variable
    `columns`, so the returned `'columns'` list is the column records only
    while no index has been seen: `ColumnsAfter` and
    `ColumnsListQuirk` describe what it holds, `AllColumnRecords` is the
    list it is meant to be. */
module InformationSchema {
  import opened Common
  import opened Catalog

  datatype TableSummaryRow = TableSummaryRow(
    path: string,
    name: string,
    kind: Kind,
    version: int,
    schemaVersion: int,
    rowCount: int,
    columnCount: nat,
    indexCount: nat,
    base: Option<string>,
    createdAt: Option<string>)

  datatype ColumnRecord = ColumnRecord(
    tablePath: string,
    tableName: string,
    columnName: string,
    dataType: string,
    isStored: bool,
    isPrimaryKey: bool,
    isComputed: bool,
    definedIn: Option<string>,
    versionAdded: int)

  datatype ComputedRecord = ComputedRecord(column: ColumnRecord, expression: Option<string>)

  datatype IndexRecord = IndexRecord(
    tablePath: string,
    tableName: string,
    indexName: string,
    column: string,
    indexType: string,
    parameters: map<string, string>)

  /** An entry of the returned `'columns'` list: a column record, or one
      column name of an index's column list. */
  datatype ColumnsEntry = ColumnEntry(record: ColumnRecord) | IndexColumnName(name: string)

  datatype Summary = Summary(
    totalDirectories: nat,
    totalTables: nat,
    totalRows: int,
    totalColumns: nat,
    totalIndices: nat,
    totalComputed: nat)

  /** What the pass has gathered so far. */
  datatype ScanState = ScanState(
    tables: seq<TableSummaryRow>,
    columns: seq<ColumnsEntry>,
    indices: seq<IndexRecord>,
    computed: seq<ComputedRecord>,
    totalRows: int,
    totalColumns: nat,
    totalIndices: nat,
    totalComputed: nat)

  datatype Schema = Schema(
    tables: seq<TableSummaryRow>,
    columns: seq<ColumnsEntry>,
    indices: seq<IndexRecord>,
    computed: seq<ComputedRecord>,
    summary: Summary)

  const EmptyScan := ScanState([], [], [], [], 0, 0, 0, 0)

  // -----------------------------------------------------------------------
  // the records of one table

  function RowCount(rowCounts: map<string, int>, path: string): int
  {
    if path in rowCounts then rowCounts[path] else 0
  }

  function SummaryRow(path: string, md: TableMd, rowCount: int): TableSummaryRow
  {
    TableSummaryRow(path, md.name, KindOf(md), md.version, md.schemaVersion, rowCount,
                    |md.columns|, |md.indices|, md.base, md.versionCreated)
  }

  function ColumnRecordOf(path: string, tableName: string, key: string, info: ColumnInfo): ColumnRecord
  {
    ColumnRecord(path, tableName, key, info.typeName.GetOr("Unknown"), info.isStored.GetOr(true),
                 info.isPrimaryKey.GetOr(false), IsComputed(info), info.definedIn, info.versionAdded.GetOr(0))
  }

  /** The column records of one table, in column order. */
  function ColumnRecords(path: string, tableName: string, cols: seq<(string, ColumnInfo)>): (rs: seq<ColumnRecord>)
    ensures |rs| == |cols|
  {
    if |cols| == 0 then []
    else ColumnRecords(path, tableName, cols[..|cols| - 1]) + [ColumnRecordOf(path, tableName, cols[|cols| - 1].0, cols[|cols| - 1].1)]
  }

  function Entries(rs: seq<ColumnRecord>): (es: seq<ColumnsEntry>)
    ensures |es| == |rs|
  {
    if |rs| == 0 then [] else Entries(rs[..|rs| - 1]) + [ColumnEntry(rs[|rs| - 1])]
  }

  function NameEntries(names: seq<string>): (es: seq<ColumnsEntry>)
    ensures |es| == |names|
  {
    if |names| == 0 then [] else NameEntries(names[..|names| - 1]) + [IndexColumnName(names[|names| - 1])]
  }

  /** `columns` after the column loop of one table: a column record per
      column appended, in column order. */
  function AppendColumnEntries(columns: seq<ColumnsEntry>, path: string, tableName: string, cols: seq<(string, ColumnInfo)>)
    : seq<ColumnsEntry>
  {
    if |cols| == 0 then columns
    else
      AppendColumnEntries(columns, path, tableName, cols[..|cols| - 1])
      + [ColumnEntry(ColumnRecordOf(path, tableName, cols[|cols| - 1].0, cols[|cols| - 1].1))]
  }

  /** `computed_columns` after the column loop of one table: a record per
      column with an expression appended, in column order. */
  function AppendComputed(computed: seq<ComputedRecord>, path: string, tableName: string, cols: seq<(string, ColumnInfo)>)
    : seq<ComputedRecord>
  {
    if |cols| == 0 then computed
    else
      var (key, info) := cols[|cols| - 1];
      AppendComputed(computed, path, tableName, cols[..|cols| - 1])
      + (if IsComputed(info) then [ComputedRecord(ColumnRecordOf(path, tableName, key, info), info.computedWith)] else [])
  }

  function CountComputed(cols: seq<(string, ColumnInfo)>): nat
  {
    if |cols| == 0 then 0
    else CountComputed(cols[..|cols| - 1]) + (if IsComputed(cols[|cols| - 1].1) then 1 else 0)
  }

  function IndexRecordOf(path: string, tableName: string, key: string, info: IndexInfo): IndexRecord
  {
    var columns := info.columns.GetOr([]);
    IndexRecord(path, tableName, info.name.GetOr(key),
                if |columns| > 0 then Join(columns, ", ") else info.column.GetOr(""),
                match info.indexType
                case Some(t) => t
                case None => info.typeName.GetOr("Unknown"),
                info.parameters.GetOr(map[]))
  }

  function IndexRecords(path: string, tableName: string, idxs: seq<(string, IndexInfo)>): (rs: seq<IndexRecord>)
    ensures |rs| == |idxs|
  {
    if |idxs| == 0 then []
    else IndexRecords(path, tableName, idxs[..|idxs| - 1]) + [IndexRecordOf(path, tableName, idxs[|idxs| - 1].0, idxs[|idxs| - 1].1)]
  }

  /** The `'columns'` list after a table's loops: the list so far with the
      table's column records appended, unless the table has an index, in
      which case the list is the column list of its last index. */
  function ColumnsAfter(columns: seq<ColumnsEntry>, path: string, md: TableMd): seq<ColumnsEntry>
  {
    if |md.indices| == 0 then AppendColumnEntries(columns, path, md.name, md.columns)
    else NameEntries(md.indices[|md.indices| - 1].1.columns.GetOr([]))
  }

  /** What one loaded table adds to the pass. */
  function AddTable(st: ScanState, path: string, md: TableMd, rowCount: int): ScanState
  {
    ScanState(
      st.tables + [SummaryRow(path, md, rowCount)],
      ColumnsAfter(st.columns, path, md),
      st.indices + IndexRecords(path, md.name, md.indices),
      AppendComputed(st.computed, path, md.name, md.columns),
      st.totalRows + rowCount,
      st.totalColumns + |md.columns|,
      st.totalIndices + |md.indices|,
      st.totalComputed + CountComputed(md.columns))
  }

  /** The pass over `paths`: tables that fail to load are skipped. */
  function Scan(paths: seq<string>, catalog: Catalog, rowCounts: map<string, int>): ScanState
  {
    if |paths| == 0 then EmptyScan
    else
      var st := Scan(paths[..|paths| - 1], catalog, rowCounts);
      var p := paths[|paths| - 1];
      if p in catalog then AddTable(st, p, catalog[p], RowCount(rowCounts, p)) else st
  }

  function Finish(st: ScanState, directoryCount: nat): Schema
  {
    Schema(st.tables, st.columns, st.indices, st.computed,
           Summary(directoryCount, |st.tables|, st.totalRows, st.totalColumns, st.totalIndices, st.totalComputed))
  }

  // -----------------------------------------------------------------------
  // what the totals mean

  /** The paths that load, in order. */
  function Loaded(paths: seq<string>, catalog: Catalog): (r: seq<string>)
    ensures forall i :: 0 <= i < |r| ==> r[i] in catalog
  {
    if |paths| == 0 then []
    else Loaded(paths[..|paths| - 1], catalog) + (if paths[|paths| - 1] in catalog then [paths[|paths| - 1]] else [])
  }

  /** The column records of every loaded table, in table and column order:
      the list the `'columns'` key is meant to hold. */
  function AllColumnRecords(paths: seq<string>, catalog: Catalog): seq<ColumnRecord>
  {
    if |paths| == 0 then []
    else
      var p := paths[|paths| - 1];
      AllColumnRecords(paths[..|paths| - 1], catalog)
      + (if p in catalog then ColumnRecords(p, catalog[p].name, catalog[p].columns) else [])
  }

  function SumRowCounts(rows: seq<TableSummaryRow>): int
  {
    if |rows| == 0 then 0 else SumRowCounts(rows[..|rows| - 1]) + rows[|rows| - 1].rowCount
  }

  function SumIndexCounts(rows: seq<TableSummaryRow>): nat
  {
    if |rows| == 0 then 0 else SumIndexCounts(rows[..|rows| - 1]) + rows[|rows| - 1].indexCount
  }

  lemma {:induction false} CountComputedIsLength(computed: seq<ComputedRecord>, path: string, tableName: string, cols: seq<(string, ColumnInfo)>)
    ensures |AppendComputed(computed, path, tableName, cols)| == |computed| + CountComputed(cols)
  {
    if |cols| > 0 {
      CountComputedIsLength(computed, path, tableName, cols[..|cols| - 1]);
    }
  }

  /** The summary agrees with the lists: one table row per table that
      loads; as many column records (as meant) as counted columns, index
      records as counted indices and computed records as counted computed
      columns; the row total is the sum of the reported row counts and the
      index total the sum of the reported index counts. */
  lemma ScanTotals(paths: seq<string>, catalog: Catalog, rowCounts: map<string, int>)
    ensures Scan(paths, catalog, rowCounts).tables
      == seq(|Loaded(paths, catalog)|, i requires 0 <= i < |Loaded(paths, catalog)| =>
               SummaryRow(Loaded(paths, catalog)[i], catalog[Loaded(paths, catalog)[i]],
                          RowCount(rowCounts, Loaded(paths, catalog)[i])))
    ensures Scan(paths, catalog, rowCounts).totalColumns == |AllColumnRecords(paths, catalog)|
    ensures Scan(paths, catalog, rowCounts).totalIndices == |Scan(paths, catalog, rowCounts).indices|
    ensures Scan(paths, catalog, rowCounts).totalIndices == SumIndexCounts(Scan(paths, catalog, rowCounts).tables)
    ensures Scan(paths, catalog, rowCounts).totalComputed == |Scan(paths, catalog, rowCounts).computed|
    ensures Scan(paths, catalog, rowCounts).totalRows == SumRowCounts(Scan(paths, catalog, rowCounts).tables)
  {
    ScanTables(paths, catalog, rowCounts);
    ScanCounts(paths, catalog, rowCounts);
  }

  /** The table rows of the pass: one per loaded table, in order. */
  lemma {:induction false} ScanTables(paths: seq<string>, catalog: Catalog, rowCounts: map<string, int>)
    ensures Scan(paths, catalog, rowCounts).tables
      == seq(|Loaded(paths, catalog)|, i requires 0 <= i < |Loaded(paths, catalog)| =>
               SummaryRow(Loaded(paths, catalog)[i], catalog[Loaded(paths, catalog)[i]],
                          RowCount(rowCounts, Loaded(paths, catalog)[i])))
  {
    if |paths| > 0 {
      ScanTables(paths[..|paths| - 1], catalog, rowCounts);
    }
  }

  /** The counters of the pass against its lists. */
  lemma {:induction false} ScanCounts(paths: seq<string>, catalog: Catalog, rowCounts: map<string, int>)
    ensures Scan(paths, catalog, rowCounts).totalColumns == |AllColumnRecords(paths, catalog)|
    ensures Scan(paths, catalog, rowCounts).totalIndices == |Scan(paths, catalog, rowCounts).indices|
    ensures Scan(paths, catalog, rowCounts).totalIndices == SumIndexCounts(Scan(paths, catalog, rowCounts).tables)
    ensures Scan(paths, catalog, rowCounts).totalComputed == |Scan(paths, catalog, rowCounts).computed|
    ensures Scan(paths, catalog, rowCounts).totalRows == SumRowCounts(Scan(paths, catalog, rowCounts).tables)
  {
    if |paths| > 0 {
      var init := paths[..|paths| - 1];
      var p := paths[|paths| - 1];
      ScanCounts(init, catalog, rowCounts);
      var st := Scan(init, catalog, rowCounts);
      if p in catalog {
        CountComputedIsLength(st.computed, p, catalog[p].name, catalog[p].columns);
        var st' := AddTable(st, p, catalog[p], RowCount(rowCounts, p));
        assert st'.tables[..|st'.tables| - 1] == st.tables;
      }
    }
  }

  /** Every computed-column record is a computed column, with its
      expression. */
  lemma {:induction false} ComputedRecordsComputed(paths: seq<string>, catalog: Catalog, rowCounts: map<string, int>)
    ensures forall c :: c in Scan(paths, catalog, rowCounts).computed ==> c.column.isComputed && c.expression.Some?
  {
    if |paths| > 0 {
      ComputedRecordsComputed(paths[..|paths| - 1], catalog, rowCounts);
      var p := paths[|paths| - 1];
      if p in catalog {
        ComputedRecordsOfTable(Scan(paths[..|paths| - 1], catalog, rowCounts).computed, p, catalog[p].name, catalog[p].columns);
      }
    }
  }

  lemma {:induction false} ComputedRecordsOfTable(computed: seq<ComputedRecord>, path: string, tableName: string, cols: seq<(string, ColumnInfo)>)
    ensures forall c :: c in AppendComputed(computed, path, tableName, cols) ==>
      c in computed || (c.column.isComputed && c.expression.Some?)
  {
    if |cols| > 0 {
      ComputedRecordsOfTable(computed, path, tableName, cols[..|cols| - 1]);
    }
  }

  // -----------------------------------------------------------------------
  // the `columns` rebinding

  /** No table that loads has an index. */
  predicate NoIndexLoaded(paths: seq<string>, catalog: Catalog)
  {
    forall i :: 0 <= i < |paths| && paths[i] in catalog ==> |catalog[paths[i]].indices| == 0
  }

  /** While no loaded table has an index the `'columns'` list is the list
      of all column records; once one has, the list restarts from that
      table's last index's column names. */
  lemma {:induction false} ColumnsListQuirk(paths: seq<string>, catalog: Catalog, rowCounts: map<string, int>)
    ensures NoIndexLoaded(paths, catalog) ==>
      Scan(paths, catalog, rowCounts).columns == Entries(AllColumnRecords(paths, catalog))
    ensures |paths| > 0 && paths[|paths| - 1] in catalog && |catalog[paths[|paths| - 1]].indices| > 0 ==>
      var idxs := catalog[paths[|paths| - 1]].indices;
      Scan(paths, catalog, rowCounts).columns == NameEntries(idxs[|idxs| - 1].1.columns.GetOr([]))
  {
    if |paths| > 0 {
      var init := paths[..|paths| - 1];
      var p := paths[|paths| - 1];
      if NoIndexLoaded(paths, catalog) {
        assert NoIndexLoaded(init, catalog) by {
          forall i | 0 <= i < |init| && init[i] in catalog ensures |catalog[init[i]].indices| == 0 {
            assert init[i] == paths[i];
          }
        }
        ColumnsListQuirk(init, catalog, rowCounts);
        if p in catalog {
          assert paths[|paths| - 1] == p;
          assert |catalog[p].indices| == 0;
          var st := Scan(init, catalog, rowCounts);
          var rs := ColumnRecords(p, catalog[p].name, catalog[p].columns);
          EntriesAppend(AllColumnRecords(init, catalog), rs);
          AppendColumnEntriesIs(st.columns, p, catalog[p].name, catalog[p].columns);
          assert Scan(paths, catalog, rowCounts).columns == st.columns + Entries(rs);
          assert AllColumnRecords(paths, catalog) == AllColumnRecords(init, catalog) + rs;
        } else {
          assert AllColumnRecords(paths, catalog) == AllColumnRecords(init, catalog) + [];
          assert AllColumnRecords(init, catalog) + [] == AllColumnRecords(init, catalog);
          assert Scan(paths, catalog, rowCounts) == Scan(init, catalog, rowCounts);
        }
      }
    }
  }

  lemma {:induction false} AppendColumnEntriesIs(columns: seq<ColumnsEntry>, path: string, tableName: string, cols: seq<(string, ColumnInfo)>)
    ensures AppendColumnEntries(columns, path, tableName, cols) == columns + Entries(ColumnRecords(path, tableName, cols))
  {
    if |cols| > 0 {
      var init := cols[..|cols| - 1];
      AppendColumnEntriesIs(columns, path, tableName, init);
      var rs := ColumnRecords(path, tableName, init);
      var r := ColumnRecordOf(path, tableName, cols[|cols| - 1].0, cols[|cols| - 1].1);
      assert ColumnRecords(path, tableName, cols) == rs + [r];
      assert (rs + [r])[..|rs|] == rs;
    }
  }

  lemma {:induction false} EntriesAppend(a: seq<ColumnRecord>, b: seq<ColumnRecord>)
    ensures Entries(a + b) == Entries(a) + Entries(b)
  {
    if |b| > 0 {
      var init := b[..|b| - 1];
      EntriesAppend(a, init);
      assert (a + b)[..|a + b| - 1] == a + init;
    } else {
      assert a + b == a;
    }
  }

  /** The returned `'columns'` list disagrees with the reported column
      total for any single table with two columns and one index over column
      `"a"`: the list holds the single name `"a"`, while the total (and the
      list of all column records) counts two columns. */
  lemma ColumnsListCounterexample(path: string, md: TableMd)
    requires |md.columns| == 2
    requires md.indices == [("idx", IndexInfo(None, Some(["a"]), None, None, None, None))]
    ensures Scan([path], map[path := md], map[]).columns == [IndexColumnName("a")]
    ensures Scan([path], map[path := md], map[]).totalColumns == 2
    ensures |AllColumnRecords([path], map[path := md])| == 2
  {
    var catalog := map[path := md];
    assert [path][..0] == [];
    assert Scan([path], catalog, map[]) == AddTable(EmptyScan, path, md, 0);
    assert NameEntries(["a"]) == [IndexColumnName("a")];
  }

  // -----------------------------------------------------------------------
  // the operation

  /** The column loop of one table: a column record per column appended to
      `columns`, a computed record per computed column, and the counters. */
  method CollectColumns(path: string, md: TableMd, columns0: seq<ColumnsEntry>, computed0: seq<ComputedRecord>,
                        totalColumns0: nat, totalComputed0: nat)
    returns (columns: seq<ColumnsEntry>, computed: seq<ComputedRecord>, totalColumns: nat, totalComputed: nat)
    ensures columns == AppendColumnEntries(columns0, path, md.name, md.columns)
    ensures computed == AppendComputed(computed0, path, md.name, md.columns)
    ensures totalColumns == totalColumns0 + |md.columns|
    ensures totalComputed == totalComputed0 + CountComputed(md.columns)
  {
    columns, computed, totalColumns, totalComputed := columns0, computed0, totalColumns0, totalComputed0;
    var c := 0;
    while c < |md.columns|
      invariant 0 <= c <= |md.columns|
      invariant columns == AppendColumnEntries(columns0, path, md.name, md.columns[..c])
      invariant computed == AppendComputed(computed0, path, md.name, md.columns[..c])
      invariant totalComputed == totalComputed0 + CountComputed(md.columns[..c])
      invariant totalColumns == totalColumns0 + c
    {
      assert md.columns[..c + 1][..c] == md.columns[..c];
      var (colName, info) := md.columns[c];
      totalColumns := totalColumns + 1;
      var colData := ColumnRecordOf(path, md.name, colName, info);
      columns := columns + [ColumnEntry(colData)];
      if IsComputed(info) {
        totalComputed := totalComputed + 1;
        computed := computed + [ComputedRecord(colData, info.computedWith)];
      }
      c := c + 1;
    }
    assert md.columns[..c] == md.columns;
  }

  /** The index loop of one table: an index record per index, the counter,
      and the rebinding of `columns` to each index's column list. */
  method CollectIndices(path: string, md: TableMd, columns0: seq<ColumnsEntry>, indices0: seq<IndexRecord>, totalIndices0: nat)
    returns (columns: seq<ColumnsEntry>, indices: seq<IndexRecord>, totalIndices: nat)
    ensures columns == if |md.indices| == 0 then columns0 else NameEntries(md.indices[|md.indices| - 1].1.columns.GetOr([]))
    ensures indices == indices0 + IndexRecords(path, md.name, md.indices)
    ensures totalIndices == totalIndices0 + |md.indices|
  {
    columns, indices, totalIndices := columns0, indices0, totalIndices0;
    var x := 0;
    while x < |md.indices|
      invariant 0 <= x <= |md.indices|
      invariant indices == indices0 + IndexRecords(path, md.name, md.indices[..x])
      invariant totalIndices == totalIndices0 + x
      invariant columns == if x == 0 then columns0 else NameEntries(md.indices[x - 1].1.columns.GetOr([]))
    {
      assert md.indices[..x + 1][..x] == md.indices[..x];
      assert IndexRecords(path, md.name, md.indices[..x + 1])
          == IndexRecords(path, md.name, md.indices[..x]) + [IndexRecordOf(path, md.name, md.indices[x].0, md.indices[x].1)];
      var (idxName, info) := md.indices[x];
      totalIndices := totalIndices + 1;
      // The index loop rebinds `columns`.
      columns := NameEntries(info.columns.GetOr([]));
      indices := indices + [IndexRecordOf(path, md.name, idxName, info)];
      x := x + 1;
    }
    assert md.indices[..x] == md.indices;
  }

  /** `get_information_schema`: the pass over `allTables` in order, with the
      number of directories `allDirs` lists. */
  method GetInformationSchema(allTables: seq<string>, allDirs: seq<string>, catalog: Catalog, rowCounts: map<string, int>)
    returns (r: Schema)
    ensures r == Finish(Scan(allTables, catalog, rowCounts), |allDirs|)
  {
    var tables: seq<TableSummaryRow> := [];
    var columns: seq<ColumnsEntry> := [];
    var indices: seq<IndexRecord> := [];
    var computed: seq<ComputedRecord> := [];
    var totalRows := 0;
    var totalColumns := 0;
    var totalIndices := 0;
    var totalComputed := 0;

    var t := 0;
    while t < |allTables|
      invariant 0 <= t <= |allTables|
      invariant ScanState(tables, columns, indices, computed, totalRows, totalColumns, totalIndices, totalComputed)
             == Scan(allTables[..t], catalog, rowCounts)
    {
      assert allTables[..t + 1][..t] == allTables[..t];
      var path := allTables[t];
      if path in catalog {
        var md := catalog[path];
        var rowCount := RowCount(rowCounts, path);
        totalRows := totalRows + rowCount;
        tables := tables + [SummaryRow(path, md, rowCount)];
        columns, computed, totalColumns, totalComputed := CollectColumns(path, md, columns, computed, totalColumns, totalComputed);
        columns, indices, totalIndices := CollectIndices(path, md, columns, indices, totalIndices);
      }
      t := t + 1;
    }
    assert allTables[..t] == allTables;

    r := Schema(tables, columns, indices, computed,
                Summary(|allDirs|, |tables|, totalRows, totalColumns, totalIndices, totalComputed));
  }
}
