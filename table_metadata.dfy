/** `get_table_metadata` of the dashboard bridge: the detail view of one
    table, with one record per column and one per index.

    The source reuses the name `columns` for the loop variable of its index
    loop, so the `'columns'` field it returns holds the column records only
    when the table has no index; otherwise it holds the column-name list of
    the last index. `AsWrittenColumnsField` models that, `ColumnRecordsOf`
    is the list the field is meant to carry, and `ColumnsFieldQuirk` relates
    the two. */
module TableMetadata {
  import opened Common
  import opened Catalog

  /** One entry of the `'columns'` list. */
  datatype ColumnView = ColumnView(
    name: string,
    typeName: string,
    isComputed: bool,
    computedWith: Option<string>,
    isStored: bool,
    isPrimaryKey: bool,
    definedIn: Option<string>,
    versionAdded: int)

  /** One entry of the `'indices'` list. */
  datatype IndexView = IndexView(
    name: string,
    column: string,
    typeName: string,
    parameters: map<string, string>)

  /** What the returned `'columns'` key holds: the column records, or the
      column-name list of an index. */
  datatype ColumnsField = ColumnRecords(records: seq<ColumnView>) | IndexColumnNames(names: seq<string>)

  datatype TableMetadataView = TableMetadataView(
    path: string,
    name: string,
    kind: Kind,
    version: int,
    schemaVersion: int,
    createdAt: Option<string>,
    comment: Option<string>,
    base: Option<string>,
    columns: ColumnsField,
    indices: seq<IndexView>,
    mediaValidation: string)

  /** The record of column `key`: each missing field takes its default (the
      key as name, type `Unknown`, stored, not a primary key, version 0). */
  function ShapeColumn(key: string, info: ColumnInfo): ColumnView
  {
    ColumnView(
      info.name.GetOr(key),
      info.typeName.GetOr("Unknown"),
      IsComputed(info),
      info.computedWith,
      info.isStored.GetOr(true),
      info.isPrimaryKey.GetOr(false),
      info.definedIn,
      info.versionAdded.GetOr(0))
  }

  /** `idx_info.get('columns', [])`. */
  function IndexColumns(info: IndexInfo): seq<string>
  {
    info.columns.GetOr([])
  }

  /** The record of index `key`: the column text joins the column list with
      ", " and falls back to the single `column` entry when the list is
      empty; the type prefers `index_type` to `type_`. */
  function ShapeIndex(key: string, info: IndexInfo): IndexView
  {
    var columns := IndexColumns(info);
    IndexView(
      info.name.GetOr(key),
      if |columns| > 0 then Join(columns, ", ") else info.column.GetOr(""),
      match info.indexType
      case Some(t) => t
      case None => info.typeName.GetOr("Unknown"),
      info.parameters.GetOr(map[]))
  }

  /** A column entry with no fields at all is reported as a stored,
      non-key, non-computed column of type `Unknown` named after its key
      and added in version 0; a column is reported computed exactly when
      it carries an expression. */
  lemma ColumnDefaults(key: string, info: ColumnInfo)
    ensures ShapeColumn(key, info).isComputed <==> ShapeColumn(key, info).computedWith.Some?
    ensures info == ColumnInfo(None, None, None, None, None, None, None) ==>
      ShapeColumn(key, info) == ColumnView(key, "Unknown", false, None, true, false, None, 0)
  {
  }

  /** The column text of an index with a column list names every column of
      that list; without a list it is the single `column` entry. */
  lemma IndexColumnText(key: string, info: IndexInfo)
    ensures forall c :: c in IndexColumns(info) ==> Contains(ShapeIndex(key, info).column, c)
    ensures IndexColumns(info) == [] ==> ShapeIndex(key, info).column == info.column.GetOr("")
    ensures |IndexColumns(info)| == 1 ==> ShapeIndex(key, info).column == IndexColumns(info)[0]
  {
    JoinHoldsParts(IndexColumns(info), ", ");
  }

  /** The column records the `'columns'` field is meant to carry: one per
      entry of the metadata's columns, in order. */
  function ColumnRecordsOf(columns: seq<(string, ColumnInfo)>): (r: seq<ColumnView>)
    ensures |r| == |columns|
    ensures forall i :: 0 <= i < |columns| ==> r[i] == ShapeColumn(columns[i].0, columns[i].1)
  {
    if |columns| == 0 then []
    else ColumnRecordsOf(columns[..|columns| - 1]) + [ShapeColumn(columns[|columns| - 1].0, columns[|columns| - 1].1)]
  }

  /** The `'columns'` field as the source computes it: the column records
      when there is no index, else the column list of the last index. */
  function AsWrittenColumnsField(md: TableMd): ColumnsField
  {
    if |md.indices| == 0 then ColumnRecords(ColumnRecordsOf(md.columns))
    else IndexColumnNames(IndexColumns(md.indices[|md.indices| - 1].1))
  }

  /** The returned `'columns'` field is the table's column records exactly
      when the table has no index; a table with an index gets the column
      names of its last index instead, whatever its own columns are. */
  lemma ColumnsFieldQuirk(md: TableMd)
    ensures AsWrittenColumnsField(md) == ColumnRecords(ColumnRecordsOf(md.columns)) <==> |md.indices| == 0
    ensures |md.indices| > 0 ==>
      AsWrittenColumnsField(md) == IndexColumnNames(IndexColumns(md.indices[|md.indices| - 1].1))
  {
  }

  /** A concrete table with one column and one index over it: the reported
      `'columns'` field is `["text"]`, not the record of column `text`. */
  lemma ColumnsFieldCounterexample()
    ensures var md := TableMd("docs", "docs", false, false, false, 1, 1, None, None, None,
                              [("text", ColumnInfo(None, Some("String"), None, None, None, None, None))],
                              [("idx0", IndexInfo(None, Some(["text"]), None, Some("embedding"), None, None))],
                              "on_write");
      AsWrittenColumnsField(md) == IndexColumnNames(["text"])
      && ColumnRecordsOf(md.columns) == [ColumnView("text", "String", false, None, true, false, None, 0)]
  {
  }

  /** The column loop: one record per column, in order. */
  method ShapeColumns(cols: seq<(string, ColumnInfo)>) returns (records: seq<ColumnView>)
    ensures records == ColumnRecordsOf(cols)
  {
    records := [];
    var i := 0;
    while i < |cols|
      invariant 0 <= i <= |cols|
      invariant records == ColumnRecordsOf(cols[..i])
    {
      assert cols[..i + 1][..i] == cols[..i];
      records := records + [ShapeColumn(cols[i].0, cols[i].1)];
      i := i + 1;
    }
    assert cols[..i] == cols;
  }

  /** `get_table_metadata`: `None` when the table cannot be loaded (the
      call raises), otherwise the table's identity, kind and versions, one
      record per index in order, and the `'columns'` field as computed by
      the source. */
  method GetTableMetadata(path: string, catalog: Catalog) returns (r: Option<TableMetadataView>)
    ensures r.None? <==> path !in catalog
    ensures r.Some? ==>
      var md := catalog[path];
      && r.value.path == md.path && r.value.name == md.name
      && r.value.kind == KindOf(md)
      && r.value.version == md.version && r.value.schemaVersion == md.schemaVersion
      && r.value.createdAt == md.versionCreated
      && r.value.comment == md.comment && r.value.base == md.base
      && r.value.mediaValidation == md.mediaValidation
      && r.value.columns == AsWrittenColumnsField(md)
      && |r.value.indices| == |md.indices|
      && (forall i :: 0 <= i < |md.indices| ==> r.value.indices[i] == ShapeIndex(md.indices[i].0, md.indices[i].1))
  {
    if path !in catalog {
      return None;
    }
    var md := catalog[path];

    var kind := TableKind;
    if md.isReplica {
      kind := ReplicaKind;
    } else if md.isSnapshot {
      kind := SnapshotKind;
    } else if md.isView {
      kind := ViewKind;
    }

    var records := ShapeColumns(md.columns);
    var columns: ColumnsField := ColumnRecords(records);

    var indices: seq<IndexView> := [];
    var j := 0;
    while j < |md.indices|
      invariant 0 <= j <= |md.indices|
      invariant |indices| == j
      invariant forall k :: 0 <= k < j ==> indices[k] == ShapeIndex(md.indices[k].0, md.indices[k].1)
      invariant columns == if j == 0 then ColumnRecords(ColumnRecordsOf(md.columns))
                           else IndexColumnNames(IndexColumns(md.indices[j - 1].1))
    {
      var (key, info) := md.indices[j];
      // The index loop rebinds `columns`.
      columns := IndexColumnNames(IndexColumns(info));
      indices := indices + [ShapeIndex(key, info)];
      j := j + 1;
    }

    r := Some(TableMetadataView(md.path, md.name, kind, md.version, md.schemaVersion,
                                md.versionCreated, md.comment, md.base, columns, indices,
                                md.mediaValidation));
  }
}
