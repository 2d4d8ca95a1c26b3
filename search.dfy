/** `search` of the dashboard bridge: a case-insensitive substring search
    over directory paths, table paths and column names, with at most
    `limit` hits per category.

    The three categories stop at the limit in three different ways, and
    the model keeps each: a directory hit is appended before the limit is
    checked (so a limit of 0 or less still lets the first matching
    directory through), a table hit is appended only while fewer than
    `limit` are held, and the column scan of a table starts only while
    fewer than `limit` column hits are held and stops as soon as `limit`
    is reached. Each is stated against `Take` of the full list of matches
    in listing order. */
module Search {
  import opened Common
  import opened Catalog

  datatype DirHit = DirHit(path: string, name: string)
  datatype TableHit = TableHit(path: string, name: string, kind: Kind)
  datatype ColumnHit = ColumnHit(name: string, table: string, typeName: string, isComputed: bool)

  datatype SearchResult = SearchResult(
    query: string,
    directories: seq<DirHit>,
    tables: seq<TableHit>,
    columns: seq<ColumnHit>)

  /** `query_lower in text.lower()`, where `needle` is the lower-cased
      query. */
  predicate Matches(needle: string, text: string)
  {
    Contains(Lower(text), needle)
  }

  /** The first `n` elements of `s` (none when `n` is 0 or less, all of
      them when `s` is shorter). */
  function Take<T>(s: seq<T>, n: int): (r: seq<T>)
    ensures |r| == if n <= 0 then 0 else Min(n, |s|)
    ensures r <= s
  {
    if n <= 0 then [] else if |s| <= n then s else s[..n]
  }

  // -----------------------------------------------------------------------
  // every match, in listing order

  function DirHitOf(path: string): DirHit
  {
    DirHit(path, LastSegment(path))
  }

  /** The table hit of a listed path: its kind when the metadata loads, a
      plain table when it does not. */
  function TableHitOf(catalog: Catalog, path: string): TableHit
  {
    TableHit(path, LastSegment(path), ListedKind(catalog, path))
  }

  function ColumnHitOf(tablePath: string, name: string, info: ColumnInfo): ColumnHit
  {
    ColumnHit(name, tablePath, info.typeName.GetOr("Unknown"), IsComputed(info))
  }

  function MatchingDirs(needle: string, dirs: seq<string>): seq<DirHit>
  {
    if |dirs| == 0 then []
    else
      var d := dirs[|dirs| - 1];
      MatchingDirs(needle, dirs[..|dirs| - 1]) + (if Matches(needle, d) then [DirHitOf(d)] else [])
  }

  function MatchingTables(needle: string, tables: seq<string>, catalog: Catalog): seq<TableHit>
  {
    if |tables| == 0 then []
    else
      var t := tables[|tables| - 1];
      MatchingTables(needle, tables[..|tables| - 1], catalog) + (if Matches(needle, t) then [TableHitOf(catalog, t)] else [])
  }

  /** The matching columns of one table, in column order. */
  function TableColumnHits(needle: string, tablePath: string, cols: seq<(string, ColumnInfo)>): seq<ColumnHit>
  {
    if |cols| == 0 then []
    else
      var (name, info) := cols[|cols| - 1];
      TableColumnHits(needle, tablePath, cols[..|cols| - 1]) + (if Matches(needle, name) then [ColumnHitOf(tablePath, name, info)] else [])
  }

  /** The matching columns of every listed table whose metadata loads, in
      table and column order (whether the table itself matches does not
      matter). */
  function MatchingColumns(needle: string, tables: seq<string>, catalog: Catalog): seq<ColumnHit>
  {
    if |tables| == 0 then []
    else
      var t := tables[|tables| - 1];
      MatchingColumns(needle, tables[..|tables| - 1], catalog)
      + (if t in catalog then TableColumnHits(needle, t, catalog[t].columns) else [])
  }

  /** What `search` returns, as a function of the listings and the catalog. */
  function SearchOf(query: string, limit: int, dirs: seq<string>, tables: seq<string>, catalog: Catalog): SearchResult
  {
    var needle := Lower(query);
    SearchResult(query,
                 Take(MatchingDirs(needle, dirs), if limit <= 0 then 1 else limit),
                 Take(MatchingTables(needle, tables, catalog), limit),
                 Take(MatchingColumns(needle, tables, catalog), limit))
  }

  // -----------------------------------------------------------------------
  // properties of the matches

  /** A directory hit is a listed directory that matches, named after its
      last segment; every listed directory that matches is a hit. */
  lemma {:induction false} MatchingDirsIff(needle: string, dirs: seq<string>)
    ensures forall h :: h in MatchingDirs(needle, dirs) ==>
      h.path in dirs && Matches(needle, h.path) && h.name == LastSegment(h.path)
    ensures forall d :: d in dirs && Matches(needle, d) ==> DirHitOf(d) in MatchingDirs(needle, dirs)
  {
    if |dirs| > 0 {
      var init := dirs[..|dirs| - 1];
      MatchingDirsIff(needle, init);
      assert dirs == init + [dirs[|dirs| - 1]];
    }
  }

  /** A table hit is a listed table that matches, with the kind its
      metadata gives; every listed table that matches is a hit. */
  lemma {:induction false} MatchingTablesIff(needle: string, tables: seq<string>, catalog: Catalog)
    ensures forall h :: h in MatchingTables(needle, tables, catalog) ==>
      h.path in tables && Matches(needle, h.path) && h == TableHitOf(catalog, h.path)
    ensures forall t :: t in tables && Matches(needle, t) ==> TableHitOf(catalog, t) in MatchingTables(needle, tables, catalog)
  {
    if |tables| > 0 {
      var init := tables[..|tables| - 1];
      MatchingTablesIff(needle, init, catalog);
      assert tables == init + [tables[|tables| - 1]];
    }
  }

  lemma {:induction false} TableColumnHitsIff(needle: string, tablePath: string, cols: seq<(string, ColumnInfo)>)
    ensures forall h :: h in TableColumnHits(needle, tablePath, cols) ==>
      h.table == tablePath && Matches(needle, h.name)
      && exists i :: 0 <= i < |cols| && cols[i].0 == h.name && h == ColumnHitOf(tablePath, cols[i].0, cols[i].1)
    ensures forall i :: 0 <= i < |cols| && Matches(needle, cols[i].0) ==>
      ColumnHitOf(tablePath, cols[i].0, cols[i].1) in TableColumnHits(needle, tablePath, cols)
  {
    if |cols| > 0 {
      var init := cols[..|cols| - 1];
      TableColumnHitsIff(needle, tablePath, init);
      forall h | h in TableColumnHits(needle, tablePath, cols)
        ensures exists i :: 0 <= i < |cols| && cols[i].0 == h.name && h == ColumnHitOf(tablePath, cols[i].0, cols[i].1)
      {
        if h in TableColumnHits(needle, tablePath, init) {
          var i :| 0 <= i < |init| && init[i].0 == h.name && h == ColumnHitOf(tablePath, init[i].0, init[i].1);
          assert cols[i] == init[i];
        }
      }
      forall i | 0 <= i < |cols| && Matches(needle, cols[i].0)
        ensures ColumnHitOf(tablePath, cols[i].0, cols[i].1) in TableColumnHits(needle, tablePath, cols)
      {
        if i < |init| {
          assert cols[i] == init[i];
        }
      }
    }
  }

  /** A column hit names a matching column of a listed table whose
      metadata loads; every matching column of such a table is a hit. */
  lemma {:induction false} MatchingColumnsIff(needle: string, tables: seq<string>, catalog: Catalog)
    ensures forall h :: h in MatchingColumns(needle, tables, catalog) ==>
      h.table in tables && h.table in catalog && Matches(needle, h.name)
    ensures forall t, i :: t in tables && t in catalog && 0 <= i < |catalog[t].columns| && Matches(needle, catalog[t].columns[i].0) ==>
      ColumnHitOf(t, catalog[t].columns[i].0, catalog[t].columns[i].1) in MatchingColumns(needle, tables, catalog)
  {
    if |tables| > 0 {
      var init := tables[..|tables| - 1];
      var t := tables[|tables| - 1];
      MatchingColumnsIff(needle, init, catalog);
      assert tables == init + [t];
      if t in catalog {
        TableColumnHitsIff(needle, t, catalog[t].columns);
      }
    }
  }

  /** Matching ignores case: a query and its lower-cased form find the same
      hits. */
  lemma SearchIgnoresCase(query: string, limit: int, dirs: seq<string>, tables: seq<string>, catalog: Catalog)
    ensures SearchOf(Lower(query), limit, dirs, tables, catalog).directories == SearchOf(query, limit, dirs, tables, catalog).directories
    ensures SearchOf(Lower(query), limit, dirs, tables, catalog).tables == SearchOf(query, limit, dirs, tables, catalog).tables
    ensures SearchOf(Lower(query), limit, dirs, tables, catalog).columns == SearchOf(query, limit, dirs, tables, catalog).columns
  {
    LowerIdempotent(query);
  }

  /** The hit lists respect the limit (a directory always gets through when
      one matches), and a list shorter than its limit holds every match. */
  lemma SearchBounds(query: string, limit: int, dirs: seq<string>, tables: seq<string>, catalog: Catalog)
    ensures |SearchOf(query, limit, dirs, tables, catalog).directories| <= if limit <= 0 then 1 else limit
    ensures |SearchOf(query, limit, dirs, tables, catalog).tables| <= if limit <= 0 then 0 else limit
    ensures |SearchOf(query, limit, dirs, tables, catalog).columns| <= if limit <= 0 then 0 else limit
    ensures |MatchingDirs(Lower(query), dirs)| > 0 ==> |SearchOf(query, limit, dirs, tables, catalog).directories| > 0
    ensures |SearchOf(query, limit, dirs, tables, catalog).tables| < limit ==>
      SearchOf(query, limit, dirs, tables, catalog).tables == MatchingTables(Lower(query), tables, catalog)
    ensures |SearchOf(query, limit, dirs, tables, catalog).columns| < limit ==>
      SearchOf(query, limit, dirs, tables, catalog).columns == MatchingColumns(Lower(query), tables, catalog)
  {
  }

  /** Raising the limit only adds hits at the end of each list. */
  lemma SearchLimitMonotone(query: string, small: int, large: int, dirs: seq<string>, tables: seq<string>, catalog: Catalog)
    requires small <= large
    ensures SearchOf(query, small, dirs, tables, catalog).directories <= SearchOf(query, large, dirs, tables, catalog).directories
    ensures SearchOf(query, small, dirs, tables, catalog).tables <= SearchOf(query, large, dirs, tables, catalog).tables
    ensures SearchOf(query, small, dirs, tables, catalog).columns <= SearchOf(query, large, dirs, tables, catalog).columns
  {
  }

  // -----------------------------------------------------------------------
  // the scan

  lemma {:induction false} MatchingDirsPrefix(needle: string, dirs: seq<string>, i: nat)
    requires i <= |dirs|
    ensures MatchingDirs(needle, dirs[..i]) <= MatchingDirs(needle, dirs)
    decreases |dirs|
  {
    if i < |dirs| {
      var init := dirs[..|dirs| - 1];
      assert init[..i] == dirs[..i];
      MatchingDirsPrefix(needle, init, i);
    } else {
      assert dirs[..i] == dirs;
    }
  }

  /** A prefix of `s` of length `n` is `Take(s, n)`. */
  lemma TakeOfPrefix<T>(p: seq<T>, s: seq<T>, n: int)
    requires p <= s && |p| == n
    ensures Take(s, n) == p
  {
  }

  /** Once `Take(s, n)` is full, appending to `s` does not change it; while
      it is not, it is all of `s`. */
  lemma TakeExtend<T>(s: seq<T>, t: seq<T>, n: int)
    ensures |Take(s, n)| >= n ==> Take(s + t, n) == Take(s, n)
    ensures |Take(s, n)| < n ==> Take(s, n) == s
  {
    if |Take(s, n)| >= n && n > 0 {
      assert (s + t)[..n] == s[..n];
    }
  }

  /** The directory loop: append each matching directory, and stop once
      at least `limit` are held. */
  method SearchDirectories(needle: string, limit: int, dirs: seq<string>) returns (hits: seq<DirHit>)
    ensures hits == Take(MatchingDirs(needle, dirs), if limit <= 0 then 1 else limit)
  {
    ghost var cap := if limit <= 0 then 1 else limit;
    hits := [];
    var i := 0;
    while i < |dirs|
      invariant 0 <= i <= |dirs|
      invariant hits == MatchingDirs(needle, dirs[..i]) && |hits| < cap
    {
      assert dirs[..i + 1][..i] == dirs[..i];
      var d := dirs[i];
      if Matches(needle, d) {
        hits := hits + [DirHit(d, LastSegment(d))];
        if |hits| >= limit {
          MatchingDirsPrefix(needle, dirs, i + 1);
          TakeOfPrefix(hits, MatchingDirs(needle, dirs), cap);
          return;
        }
      }
      i := i + 1;
    }
    assert dirs[..i] == dirs;
  }

  /** The column scan of one table, entered with fewer than `limit` hits:
      append each matching column, and stop once `limit` are held. */
  method SearchTableColumns(needle: string, limit: int, tablePath: string, cols: seq<(string, ColumnInfo)>, hits0: seq<ColumnHit>)
    returns (hits: seq<ColumnHit>)
    requires |hits0| < limit
    ensures hits == Take(hits0 + TableColumnHits(needle, tablePath, cols), limit)
  {
    hits := hits0;
    var c := 0;
    while c < |cols|
      invariant 0 <= c <= |cols|
      invariant hits == hits0 + TableColumnHits(needle, tablePath, cols[..c]) && |hits| < limit
    {
      assert cols[..c + 1][..c] == cols[..c];
      var (name, info) := cols[c];
      if Matches(needle, name) {
        hits := hits + [ColumnHit(name, tablePath, info.typeName.GetOr("Unknown"), IsComputed(info))];
        if |hits| >= limit {
          TableColumnHitsPrefix(needle, tablePath, cols, c + 1);
          TakeOfPrefix(hits, hits0 + TableColumnHits(needle, tablePath, cols), limit);
          return;
        }
      }
      c := c + 1;
    }
    assert cols[..c] == cols;
  }

  lemma {:induction false} TableColumnHitsPrefix(needle: string, tablePath: string, cols: seq<(string, ColumnInfo)>, i: nat)
    requires i <= |cols|
    ensures TableColumnHits(needle, tablePath, cols[..i]) <= TableColumnHits(needle, tablePath, cols)
    decreases |cols|
  {
    if i < |cols| {
      var init := cols[..|cols| - 1];
      assert init[..i] == cols[..i];
      TableColumnHitsPrefix(needle, tablePath, init, i);
    } else {
      assert cols[..i] == cols;
    }
  }

  /** One table's turn at the table list: its hit is appended when it
      matches and fewer than `limit` hits are held. */
  method AddTableHit(needle: string, limit: int, catalog: Catalog, t: string, ghost before: seq<TableHit>, hits0: seq<TableHit>)
    returns (hits: seq<TableHit>)
    requires hits0 == Take(before, limit)
    ensures hits == Take(before + (if Matches(needle, t) then [TableHitOf(catalog, t)] else []), limit)
  {
    hits := hits0;
    var tableMatches := Matches(needle, t);
    if tableMatches {
      TakeExtend(before, [TableHitOf(catalog, t)], limit);
    } else {
      assert before + [] == before;
    }
    if tableMatches && |hits| < limit {
      var kind := TableKind;
      if t in catalog {
        var md := catalog[t];
        if md.isReplica {
          kind := ReplicaKind;
        } else if md.isSnapshot {
          kind := SnapshotKind;
        } else if md.isView {
          kind := ViewKind;
        }
      }
      hits := hits + [TableHit(t, LastSegment(t), kind)];
    }
  }

  /** One table's turn at the column list: its columns are scanned when its
      metadata loads and fewer than `limit` hits are held. */
  method AddColumnHits(needle: string, limit: int, catalog: Catalog, t: string, ghost before: seq<ColumnHit>, hits0: seq<ColumnHit>)
    returns (hits: seq<ColumnHit>)
    requires hits0 == Take(before, limit)
    ensures hits == Take(before + (if t in catalog then TableColumnHits(needle, t, catalog[t].columns) else []), limit)
  {
    hits := hits0;
    if t in catalog {
      TakeExtend(before, TableColumnHits(needle, t, catalog[t].columns), limit);
    } else {
      assert before + [] == before;
    }
    if |hits| < limit && t in catalog {
      hits := SearchTableColumns(needle, limit, t, catalog[t].columns, hits);
    }
  }

  /** `search`: the hits of the three categories, each as `SearchOf`
      describes. */
  method Search(query: string, limit: int, dirs: seq<string>, tables: seq<string>, catalog: Catalog)
    returns (r: SearchResult)
    ensures r == SearchOf(query, limit, dirs, tables, catalog)
  {
    var needle := Lower(query);
    var dirHits := SearchDirectories(needle, limit, dirs);
    var tableHits: seq<TableHit> := [];
    var columnHits: seq<ColumnHit> := [];
    var i := 0;
    while i < |tables|
      invariant 0 <= i <= |tables|
      invariant tableHits == Take(MatchingTables(needle, tables[..i], catalog), limit)
      invariant columnHits == Take(MatchingColumns(needle, tables[..i], catalog), limit)
    {
      assert tables[..i + 1][..i] == tables[..i];
      var t := tables[i];
      tableHits := AddTableHit(needle, limit, catalog, t, MatchingTables(needle, tables[..i], catalog), tableHits);
      columnHits := AddColumnHits(needle, limit, catalog, t, MatchingColumns(needle, tables[..i], catalog), columnHits);
      i := i + 1;
    }
    assert tables[..i] == tables;
    r := SearchResult(query, dirHits, tableHits, columnHits);
  }
}
