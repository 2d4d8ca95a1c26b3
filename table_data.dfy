/** `get_table_data` of the dashboard bridge: one page of a table's rows,
    with media cells turned into URLs and every other cell into a value
    JSON can carry.

    Running the query is outside the model: `runQuery` stands for
    `tbl.select(...)` followed by `collect()`, as a function of the ordering
    the bridge asks for, and `totalCount` for `tbl.count()`. The server's
    HTTP address and the conversion of a `file://` URL to a local path
    (`url2pathname` and `unquote`) are parameters as well. */
module TableData {
  import opened Common
  import opened Catalog

  /** A cell as the query returns it. `TemporalV` is any value with an
      `isoformat()` method (dates and times), already in ISO form;
      `OtherV` is any other object, by its `str()`. */
  datatype Value =
    | NoneV
    | BoolV(b: bool)
    | IntV(i: int)
    | FloatV(repr: string)
    | StrV(s: string)
    | TemporalV(iso: string)
    | ListV(items: seq<Value>)
    | DictV(entries: seq<(string, Value)>)
    | OtherV(text: string)

  type Row = map<string, Value>

  /** A value `json.dumps` can write as it is. Only the outermost value is
      looked at, as the row shaping does: a list or dict is taken as
      writable whatever it holds. */
  predicate Serializable(v: Value)
  {
    !v.TemporalV? && !v.OtherV?
  }

  // -----------------------------------------------------------------------
  // Python slicing

  /** A slice bound as Python normalises it for a sequence of length `n`:
      a negative bound counts from the end, and both are clamped to
      `0..n`. */
  function SliceBound(i: int, n: nat): (b: nat)
    ensures b <= n
    ensures 0 <= i <= n ==> b == i
    ensures i < 0 && 0 <= i + n ==> b == i + n
    ensures i > n ==> b == n
    ensures i + n < 0 ==> b == 0
  {
    if i < 0 then (if i + n < 0 then 0 else i + n)
    else if i > n then n else i
  }

  /** Python's `s[start:stop]`. */
  function PySlice<T>(s: seq<T>, start: int, stop: int): seq<T>
  {
    var a := SliceBound(start, |s|);
    var b := SliceBound(stop, |s|);
    if a <= b then s[a..b] else []
  }

  /** `results[offset:offset + limit] if offset < len(results) else []`. */
  function Page<T>(results: seq<T>, offset: int, limit: int): seq<T>
  {
    if offset < |results| then PySlice(results, offset, offset + limit) else []
  }

  /** With a non-negative offset and limit a page is the `limit` rows from
      `offset` on, fewer at the end of the results, none past it. */
  lemma PageInRange<T>(results: seq<T>, offset: int, limit: int)
    requires 0 <= offset && 0 <= limit
    ensures offset >= |results| ==> Page(results, offset, limit) == []
    ensures offset < |results| ==>
      Page(results, offset, limit) == results[offset..Min(offset + limit, |results|)]
    ensures |Page(results, offset, limit)| == Min(limit, if offset < |results| then |results| - offset else 0)
  {
  }

  /** Two consecutive pages make up the page that spans both. */
  lemma PagesConcatenate<T>(results: seq<T>, offset: int, l1: int, l2: int)
    requires 0 <= offset && 0 <= l1 && 0 <= l2
    ensures Page(results, offset, l1) + Page(results, offset + l1, l2) == Page(results, offset, l1 + l2)
  {
    var n := |results|;
    if offset < n && offset + l1 < n {
      assert results[offset..offset + l1] + results[offset + l1..Min(offset + l1 + l2, n)]
          == results[offset..Min(offset + l1 + l2, n)];
    } else if offset < n {
      assert results[offset..n] + [] == results[offset..n];
    }
  }

  /** A negative offset is not rejected: both slice bounds count from the
      end. An offset of `-k` (with a limit of at least `k`) returns no row
      at all while the limit is below the number of results, and the last
      `k` rows once the limit reaches that number plus `k`. */
  lemma PageNegativeOffset<T>(results: seq<T>, k: int, limit: int)
    requires 0 < k <= |results| && k <= limit
    ensures limit < |results| ==> Page(results, -k, limit) == []
    ensures |results| <= limit ==> Page(results, -k, limit) == results[|results| - k..Min(limit - k, |results|)]
    ensures |results| + k <= limit ==> Page(results, -k, limit) == results[|results| - k..]
  {
  }

  // -----------------------------------------------------------------------
  // column headers

  datatype ColumnHeader = ColumnHeader(name: string, typeName: string, isMedia: bool)

  /** A column is a media column when its lower-cased type mentions an
      image, a video, an audio clip or a document. */
  predicate IsMediaType(typeName: string)
  {
    var t := Lower(typeName);
    Contains(t, "image") || Contains(t, "video") || Contains(t, "audio") || Contains(t, "document")
  }

  function HeaderOf(key: string, info: ColumnInfo): ColumnHeader
  {
    var t := info.typeName.GetOr("Unknown");
    ColumnHeader(key, t, IsMediaType(t))
  }

  function Headers(columns: seq<(string, ColumnInfo)>): (hs: seq<ColumnHeader>)
    ensures |hs| == |columns|
    ensures forall i :: 0 <= i < |columns| ==> hs[i] == HeaderOf(columns[i].0, columns[i].1)
  {
    if |columns| == 0 then []
    else Headers(columns[..|columns| - 1]) + [HeaderOf(columns[|columns| - 1].0, columns[|columns| - 1].1)]
  }

  /** The media test ignores letter case: `Image`, `IMAGE` and `image` are
      all media types. */
  lemma MediaTypeIgnoresCase(typeName: string)
    ensures IsMediaType(Lower(typeName)) == IsMediaType(typeName)
  {
    LowerIdempotent(typeName);
  }

  // -----------------------------------------------------------------------
  // ordering

  /** The names of a table's columns, which the table object resolves to
      column references. */
  function ColumnNames(columns: seq<(string, ColumnInfo)>): set<string>
  {
    set i | 0 <= i < |columns| :: columns[i].0
  }

  /** The ordering the bridge asks the query for: the named column,
      ascending unless `order_desc`, when `order_by` is given, non-empty and
      names a column. */
  function OrderingOf(orderBy: Option<string>, orderDesc: bool, names: set<string>): (o: Option<(string, bool)>)
    ensures o.Some? <==> orderBy.Some? && orderBy.value != "" && orderBy.value in names
    ensures o.Some? ==> o.value.0 == orderBy.value && (o.value.1 <==> !orderDesc)
  {
    match orderBy
    case Some(c) => if c != "" && c in names then Some((c, !orderDesc)) else None
    case None => None
  }

  /** `hasattr(tbl, order_by)` also holds for the table object's own
      attributes (its methods and properties, `attributes` here), and
      `getattr` finds those before any column of that name; `order_by` of
      such a value is not a column expression and raises. */
  predicate OrderByRejected(orderBy: Option<string>, attributes: set<string>)
  {
    orderBy.Some? && orderBy.value != "" && orderBy.value in attributes
  }

  // -----------------------------------------------------------------------
  // shaping the cells of one row

  /** `row.get(key)`. */
  function Get(row: Row, key: string): Value
  {
    if key in row then row[key] else NoneV
  }

  /** The key of the URL selected for media column `name`. */
  function UrlKey(name: string): string
  {
    name + "__url"
  }

  /** A non-media cell made JSON-writable: a date or time becomes its ISO
      text, any other object its `str()`, and a value JSON can carry stays
      as it is. */
  function ShapeValue(v: Value): (r: Value)
    ensures Serializable(r)
    ensures Serializable(v) ==> r == v
    ensures v.TemporalV? ==> r == StrV(v.iso)
    ensures v.OtherV? ==> r == StrV(v.text)
  {
    match v
    case TemporalV(iso) => StrV(iso)
    case OtherV(text) => StrV(text)
    case _ => v
  }

  /** Shaping is idempotent: a shaped cell shapes to itself. */
  lemma ShapeValueIdempotent(v: Value)
    ensures ShapeValue(ShapeValue(v)) == ShapeValue(v)
  {
  }

  /** A media cell: the selected URL when it is a non-empty string, served
      by the dashboard's own HTTP address when it is a `file://` URL, and
      `None` when there is no URL. */
  function ShapeMediaCell(url: Value, httpAddress: string, localPath: string -> string): (r: Value)
    ensures r.NoneV? || r.StrV?
    ensures r.NoneV? <==> !(url.StrV? && url.s != "")
    ensures url.StrV? && url.s != "" && !StartsWith(url.s, "file://") ==> r == url
    ensures url.StrV? && StartsWith(url.s, "file://") ==>
      StartsWith(r.s, httpAddress) && r.s[|httpAddress|..] == localPath(url.s)
  {
    if url.StrV? && url.s != "" then
      if StartsWith(url.s, "file://") then StrV(httpAddress + localPath(url.s)) else url
    else NoneV
  }

  function ShapeCell(h: ColumnHeader, row: Row, httpAddress: string, localPath: string -> string): Value
  {
    if h.isMedia then ShapeMediaCell(Get(row, UrlKey(h.name)), httpAddress, localPath)
    else ShapeValue(Get(row, h.name))
  }

  /** The shaped row: one entry per column, filled in column order. */
  function ShapedRow(hs: seq<ColumnHeader>, row: Row, httpAddress: string, localPath: string -> string): Row
  {
    if |hs| == 0 then map[]
    else
      var h := hs[|hs| - 1];
      ShapedRow(hs[..|hs| - 1], row, httpAddress, localPath)[h.name := ShapeCell(h, row, httpAddress, localPath)]
  }

  /** A shaped row has an entry for every column name and no other. */
  lemma {:induction false} ShapedRowKeys(hs: seq<ColumnHeader>, row: Row, httpAddress: string, localPath: string -> string)
    ensures forall i :: 0 <= i < |hs| ==> hs[i].name in ShapedRow(hs, row, httpAddress, localPath)
    ensures forall k :: k in ShapedRow(hs, row, httpAddress, localPath) ==> exists i :: 0 <= i < |hs| && hs[i].name == k
  {
    if |hs| > 0 {
      var init := hs[..|hs| - 1];
      ShapedRowKeys(init, row, httpAddress, localPath);
      forall i | 0 <= i < |hs| - 1 ensures hs[i].name in ShapedRow(init, row, httpAddress, localPath) {
        assert init[i] == hs[i];
      }
      forall k | k in ShapedRow(hs, row, httpAddress, localPath) ensures exists i :: 0 <= i < |hs| && hs[i].name == k {
        if k != hs[|hs| - 1].name {
          var i :| 0 <= i < |init| && init[i].name == k;
          assert hs[i].name == k;
        }
      }
    }
  }

  /** Every cell of a shaped row is a value JSON can write, at its top
      level: a date nested inside a list or dict is left as it is, and the
      JSON writer's `default=str` renders it with `str()`, not as ISO text. */
  lemma {:induction false} ShapedRowSerializable(hs: seq<ColumnHeader>, row: Row, httpAddress: string, localPath: string -> string)
    ensures forall k :: k in ShapedRow(hs, row, httpAddress, localPath) ==>
      Serializable(ShapedRow(hs, row, httpAddress, localPath)[k])
  {
    if |hs| > 0 {
      ShapedRowSerializable(hs[..|hs| - 1], row, httpAddress, localPath);
    }
  }

  /** With distinct column names each column's entry is that column's
      shaped cell. */
  lemma {:induction false} ShapedRowLookup(hs: seq<ColumnHeader>, row: Row, httpAddress: string, localPath: string -> string, i: int)
    requires forall a, b :: 0 <= a < b < |hs| ==> hs[a].name != hs[b].name
    requires 0 <= i < |hs|
    ensures hs[i].name in ShapedRow(hs, row, httpAddress, localPath)
    ensures ShapedRow(hs, row, httpAddress, localPath)[hs[i].name] == ShapeCell(hs[i], row, httpAddress, localPath)
  {
    var init := hs[..|hs| - 1];
    if i < |hs| - 1 {
      assert init[i] == hs[i];
      ShapedRowLookup(init, row, httpAddress, localPath, i);
    }
  }

  // -----------------------------------------------------------------------
  // the operation

  datatype TableDataView = TableDataView(
    columns: seq<ColumnHeader>,
    rows: seq<Row>,
    totalCount: int,
    offset: int,
    limit: int)

  /** The inner loop of `get_table_data`: the cells of one result row,
      column by column. */
  method ShapeRowData(columns: seq<ColumnHeader>, row: Row, httpAddress: string, localPath: string -> string)
    returns (rowData: Row)
    ensures rowData == ShapedRow(columns, row, httpAddress, localPath)
  {
    rowData := map[];
    var c := 0;
    while c < |columns|
      invariant 0 <= c <= |columns|
      invariant rowData == ShapedRow(columns[..c], row, httpAddress, localPath)
    {
      assert columns[..c + 1][..c] == columns[..c];
      var h := columns[c];
      var cell: Value;
      if h.isMedia {
        var url := Get(row, UrlKey(h.name));
        if url.StrV? && url.s != "" {
          if StartsWith(url.s, "file://") {
            cell := StrV(httpAddress + localPath(url.s));
          } else {
            cell := url;
          }
        } else {
          cell := NoneV;
        }
      } else {
        cell := ShapeValue(Get(row, h.name));
      }
      rowData := rowData[h.name := cell];
      c := c + 1;
    }
    assert columns[..c] == columns;
  }

  /** The first loop of `get_table_data`: a header per column, in order. */
  method HeaderLoop(cols: seq<(string, ColumnInfo)>) returns (columns: seq<ColumnHeader>)
    ensures columns == Headers(cols)
  {
    columns := [];
    var i := 0;
    while i < |cols|
      invariant 0 <= i <= |cols|
      invariant columns == Headers(cols[..i])
    {
      assert cols[..i + 1][..i] == cols[..i];
      var (key, info) := cols[i];
      var colType := info.typeName.GetOr("Unknown");
      columns := columns + [ColumnHeader(key, colType, IsMediaType(colType))];
      i := i + 1;
    }
    assert cols[..i] == cols;
  }

  /** The second loop of `get_table_data`: every row of the page shaped,
      in order. */
  method ShapeRows(columns: seq<ColumnHeader>, page: seq<Row>, httpAddress: string, localPath: string -> string)
    returns (rows: seq<Row>)
    ensures |rows| == |page|
    ensures forall k :: 0 <= k < |page| ==> rows[k] == ShapedRow(columns, page[k], httpAddress, localPath)
  {
    rows := [];
    var p := 0;
    while p < |page|
      invariant 0 <= p <= |page|
      invariant |rows| == p
      invariant forall k :: 0 <= k < p ==> rows[k] == ShapedRow(columns, page[k], httpAddress, localPath)
    {
      var rowData := ShapeRowData(columns, page[p], httpAddress, localPath);
      rows := rows + [rowData];
      p := p + 1;
    }
  }

  /** `get_table_data`: `None` (the call raises) when the table cannot be
      loaded or `order_by` names an attribute of the table object; otherwise
      the column headers, the page at `offset` of the query's results in
      the ordering `OrderingOf` asks for, every row shaped, and the
      arguments echoed. */
  method GetTableData(path: string, catalog: Catalog, offset: int, limit: int,
                      orderBy: Option<string>, orderDesc: bool, attributes: set<string>,
                      runQuery: Option<(string, bool)> -> seq<Row>, totalCount: int,
                      httpAddress: string, localPath: string -> string)
    returns (r: Option<TableDataView>)
    ensures r.None? <==> path !in catalog || OrderByRejected(orderBy, attributes)
    ensures r.Some? ==>
      var md := catalog[path];
      var hs := Headers(md.columns);
      var page := Page(runQuery(OrderingOf(orderBy, orderDesc, ColumnNames(md.columns))), offset, limit);
      && r.value.columns == hs
      && |r.value.rows| == |page|
      && (forall i :: 0 <= i < |page| ==> r.value.rows[i] == ShapedRow(hs, page[i], httpAddress, localPath))
      && r.value.totalCount == totalCount && r.value.offset == offset && r.value.limit == limit
  {
    if path !in catalog {
      return None;
    }
    var md := catalog[path];
    var columns := HeaderLoop(md.columns);
    if OrderByRejected(orderBy, attributes) {
      return None;
    }
    var results := runQuery(OrderingOf(orderBy, orderDesc, ColumnNames(md.columns)));
    var page := Page(results, offset, limit);
    var rows := ShapeRows(columns, page, httpAddress, localPath);
    r := Some(TableDataView(columns, rows, totalCount, offset, limit));
  }
}
