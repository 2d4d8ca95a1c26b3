# Pixeltable dashboard, store layer and RAG sample backend in Dafny

This project models four parts of the Pixeltable repository and proves properties of the model.

- **The dashboard bridge** (`pixeltable/dashboard/bridge.py`) turns catalog metadata into the JSON documents the dashboard shows:
  - the directory tree and a directory's contents;
  - a table's metadata, a page of its rows, and its column lineage graph;
  - the information schema across all tables;
  - the search over directories, tables and columns.
- **The dashboard REST layer** (`pixeltable/dashboard/routes.py`) holds the route table, first-match dispatch, the JSON and CORS response helpers, and each handler's parameter parsing.
- **The store layer** (`pixeltable/store.py`) keeps the rows of a table, view or component view:
  - system columns (rowid, `v_min`, `v_max`) and the primary-key layout;
  - building a table row;
  - batched inserts of 16 rows per statement;
  - loading a computed column;
  - versioned deletes that rewrite `v_max`;
  - adding and dropping storage columns.
- **The local multimodal RAG sample backend** (`docs/sample-apps/local_multimodal_rag_application/backend/main.py`) covers:
  - building the prompt from the document, video and audio context;
  - the upload endpoints and their type checks;
  - listing the uploaded files.

## Modules

| module | file | models |
|---|---|---|
| `Common` | `common.dfy` | `str.split`/`str.join` on one separator, ASCII `lower`, `in` on strings, Python string order, a stable sort, decimal rendering |
| `Catalog` | `catalog.dfy` | the metadata record of a table and the table/view/snapshot/replica classification |
| `DirectoryTree` | `dir_tree.dfy` | `get_directory_tree`, `get_directory_contents` |
| `TableMetadata` | `table_metadata.dfy` | `get_table_metadata` |
| `TableData` | `table_data.dfy` | `get_table_data` |
| `Lineage` | `lineage.dfy` | `get_column_lineage` |
| `InformationSchema` | `info_schema.dfy` | `get_information_schema` |
| `Search` | `search.dfy` | `search` |
| `Routes` | `routes.dfy` | `create_routes`, `json_response`, `error_response` and the handlers |
| `Store` | `store.dfy` | `StoreBase`, `StoreTable`, `StoreView`, `StoreComponentView` (one class, `StoreModel`, with the kind as a field) |
| `RagBackend` | `rag_backend.dfy` | `create_prompt`, `ALLOWED_TYPES`, `upload_file`, `list_files`, `upload_video`, `upload_audio` |

The catalog is an input: a map from table path to its metadata record.
- A path missing from the map stands for a table whose `get_table` or `get_metadata` call raises.
- The directory and table listings are sequences passed in.
- Query results, row counts and the file system are parameters too.

Loops of the source are methods with `while` loops. Each is proved against a recursive function that states what the loop computes. The properties are lemmas about those functions.

The store is a class whose methods change its row list, its storage-column list and its log of `INSERT` statements.

## Model

| member | source | states |
|---|---|---|
| `Catalog.KindOf` | pixeltable/dashboard/bridge.py:196-202 | replica wins over snapshot, snapshot over view, view over table; each kind holds exactly when its flags say so |
| `Catalog.ListedKindAndVersion` | pixeltable/dashboard/bridge.py:98-112 | a listed table carries a version exactly when its metadata loads and it is not classified a snapshot; a table whose metadata fails is a plain table without version |
| `Common.Split` | pixeltable/dashboard/bridge.py:73 | `split('.')` gives at least one piece and no piece holds the separator |
| `Common.JoinSplit` | pixeltable/dashboard/bridge.py:73-87 | joining the pieces of a split with the same separator gives back the string |
| `Common.SplitJoin` | pixeltable/dashboard/bridge.py:73-87 | splitting the join of separator-free pieces gives back the pieces |
| `Common.PathDecomposition` | pixeltable/dashboard/bridge.py:93-95 | a dotted path is its parent path, a dot and its last segment, and the parent is a proper prefix; a path without a dot has an empty parent and is its own last segment |
| `Common.LowerIdempotent` | pixeltable/dashboard/bridge.py:586 | lower-casing twice is lower-casing once |
| `Common.ContainsIff` | pixeltable/dashboard/bridge.py:598 | `sub in s` holds exactly when `sub` occurs at some position of `s` |
| `Common.JoinHoldsParts` | docs/sample-apps/local_multimodal_rag_application/backend/main.py:53 | every piece of a join is a substring of it |
| `Common.StringOrderIsTotalPreorder` | pixeltable/dashboard/bridge.py:72 | Python's string order is total and transitive |
| `Common.LessEqAntisymmetric` | pixeltable/dashboard/bridge.py:72 | two strings that sort both ways are equal |
| `Common.PrefixSortsFirst` | pixeltable/dashboard/bridge.py:72 | a string never sorts before one of its proper prefixes, so a parent path sorts before its children |
| `Common.SortBy` | docs/sample-apps/local_multimodal_rag_application/backend/main.py:381 | `list.sort` by a key: the result is sorted and a permutation of the input |
| `Common.SortStrings` | pixeltable/dashboard/bridge.py:72 | `sorted(all_dirs)`: sorted and a permutation of the input |
| `Common.NatToStringInjective` | pixeltable/store.py:332 | distinct numbers render as distinct digit strings |
| `Common.DigitsValueOfNatToString` | pixeltable/dashboard/routes.py:141 | reading the rendered digits of `n` back gives `n` |
| `DirectoryTree.PlaceDirectories` | pixeltable/dashboard/bridge.py:72-89 | the first pass registers every listed directory with its children list, and places each directory node at the root, under its parent, or nowhere, exactly as `DirNodesAt` says |
| `DirectoryTree.LinkPreservesChildren` | pixeltable/dashboard/bridge.py:80-89 | registering directory `sd[i]` and linking it into its parent keeps every children list equal to the nodes placed so far |
| `DirectoryTree.ParentListedEarlier` | pixeltable/dashboard/bridge.py:72-89 | in sorted order a listed parent is registered before its child, so the `parent_path in dir_nodes` test sees it |
| `DirectoryTree.NoChildListedEarlier` | pixeltable/dashboard/bridge.py:72-80 | in sorted order no child of a directory comes before it, so a fresh node starts with no children |
| `DirectoryTree.PlaceTables` | pixeltable/dashboard/bridge.py:92-124 | the second pass appends each table under its listed parent, at the root when its parent path is empty, and nowhere otherwise |
| `DirectoryTree.AppendTablePreservesChildren` | pixeltable/dashboard/bridge.py:121-122 | appending one table keeps every children list equal to the start plus the tables placed under it so far |
| `DirectoryTree.GetDirectoryTree` | pixeltable/dashboard/bridge.py:54-126 | the root list and every directory's children: its directories in sorted path order, then its tables in sorted path order |
| `DirectoryTree.DirNodesAtMember` | pixeltable/dashboard/bridge.py:82-89 | a directory appears at a place exactly when it is listed and that place is its own |
| `DirectoryTree.TableNodesAtMember` | pixeltable/dashboard/bridge.py:121-124 | a table appears at a place exactly when it is listed and that place is its own |
| `DirectoryTree.DirNodesAtElements` | pixeltable/dashboard/bridge.py:74-89 | every directory node at a place is the node of a listed directory whose place it is, named by its last segment |
| `DirectoryTree.TableNodesAtElements` | pixeltable/dashboard/bridge.py:93-124 | every table node at a place is the node of a listed table whose place it is |
| `DirectoryTree.DirNodesAtSorted` | pixeltable/dashboard/bridge.py:72 | the directories of each list are in sorted path order |
| `DirectoryTree.TableNodesAtSorted` | pixeltable/dashboard/bridge.py:92 | the tables of each list are in sorted path order |
| `DirectoryTree.DirectoryPlacement` | pixeltable/dashboard/bridge.py:82-89 | a one-segment directory is at the root; a directory with a listed parent is among its parent's children; one with an unlisted parent is in no list |
| `DirectoryTree.TablePlacement` | pixeltable/dashboard/bridge.py:121-124 | a table with an empty parent path is at the root; one with a listed parent is among its children; one with an unlisted parent is in no list |
| `DirectoryTree.GetDirectoryContents` | pixeltable/dashboard/bridge.py:129-179 | one entry per subdirectory and one per table, in order; the table's kind, and its version unless a snapshot; a table that fails to load is a plain table without version |
| `TableMetadata.ColumnDefaults` | pixeltable/dashboard/bridge.py:206-216 | `is_computed` holds exactly when `computed_with` is present; an empty entry is a stored, non-key, non-computed `Unknown` column of version 0 named by its key |
| `TableMetadata.IndexColumnText` | pixeltable/dashboard/bridge.py:222-223 | the index's column text names every column of its list, is the list's only column when there is one, and is `column` (or empty) without a list |
| `TableMetadata.ColumnRecordsOf` | pixeltable/dashboard/bridge.py:205-216 | the intended `'columns'` field: one record per column entry, in order |
| `TableMetadata.ShapeColumns` | pixeltable/dashboard/bridge.py:205-216 | the column loop builds `ColumnRecordsOf` of the entries |
| `TableMetadata.ColumnsFieldQuirk` | pixeltable/dashboard/bridge.py:205-240 | the returned `'columns'` field is the column records exactly when the table has no index, else the column list of its last index |
| `TableMetadata.ColumnsFieldCounterexample` | pixeltable/dashboard/bridge.py:220-240 | a table with one column `text` and one index over it reports `['text']` instead of the column's record |
| `TableMetadata.GetTableMetadata` | pixeltable/dashboard/bridge.py:182-243 | `None` exactly when the table does not load; otherwise its identity, kind, versions, comment, base, validation mode, one record per index in order, and the `'columns'` field as the code computes it |
| `TableData.SliceBound` | pixeltable/dashboard/bridge.py:311 | a slice bound is normalised as Python does: negative counts from the end, clamped to the length |
| `TableData.PageInRange` | pixeltable/dashboard/bridge.py:311 | with non-negative arguments a page is the `limit` rows from `offset`, fewer at the end, none past it |
| `TableData.PagesConcatenate` | pixeltable/dashboard/bridge.py:311 | two consecutive pages make up the page spanning both |
| `TableData.PageNegativeOffset` | pixeltable/dashboard/bridge.py:311 | a negative offset is not rejected: the start counts from the end while the stop `offset + limit` does not, so the page is empty or a run of the last rows |
| `TableData.Headers` | pixeltable/dashboard/bridge.py:277-284 | one header per column entry, in order, with its type (`Unknown` by default) and media flag |
| `TableData.MediaTypeIgnoresCase` | pixeltable/dashboard/bridge.py:279 | the media test gives the same answer on a lower-cased type name |
| `TableData.OrderingOf` | pixeltable/dashboard/bridge.py:300-302 | the query is ordered exactly when `order_by` is a non-empty column name, ascending exactly when `order_desc` is false |
| `TableData.ShapeValue` | pixeltable/dashboard/bridge.py:340-352 | the shaped cell is JSON-writable; a writable value is kept; a date or time becomes its ISO text; any other value its text |
| `TableData.ShapeValueIdempotent` | pixeltable/dashboard/bridge.py:340-352 | shaping a shaped cell changes nothing |
| `TableData.ShapeMediaCell` | pixeltable/dashboard/bridge.py:322-339 | a media cell is `None` exactly when the URL is missing or empty; a `file://` URL is served under the HTTP address; any other URL is kept |
| `TableData.ShapedRowKeys` | pixeltable/dashboard/bridge.py:316-354 | a shaped row has an entry for every column name and no other |
| `TableData.ShapedRowSerializable` | pixeltable/dashboard/bridge.py:340-352 | every cell of a shaped row is JSON-writable |
| `TableData.ShapedRowLookup` | pixeltable/dashboard/bridge.py:317-352 | with distinct column names each column's entry is its own shaped cell |
| `TableData.HeaderLoop` | pixeltable/dashboard/bridge.py:277-284 | the header loop builds `Headers` of the entries |
| `TableData.ShapeRowData` | pixeltable/dashboard/bridge.py:316-352 | the inner loop builds the shaped row of a result row |
| `TableData.ShapeRows` | pixeltable/dashboard/bridge.py:314-354 | one shaped row per page row, in order |
| `TableData.GetTableData` | pixeltable/dashboard/bridge.py:246-362 | `None` exactly when the table does not load or `order_by` names an attribute of the table object, whose ordering raises; otherwise the headers, the page at `offset` of the results in the requested order, every row shaped, and the arguments echoed |
| `Lineage.NodeIdInjective` | pixeltable/dashboard/bridge.py:385 | two columns of one table have the same node id only when they are the same column |
| `Lineage.LocalNodes` | pixeltable/dashboard/bridge.py:384-398 | one node per column, in column order |
| `Lineage.DependencyEdgesIff` | pixeltable/dashboard/bridge.py:405-410 | an edge into a column is found exactly for every other column name that occurs in its expression |
| `Lineage.LocalEdgesIff` | pixeltable/dashboard/bridge.py:400-410 | a local edge exists exactly when a column with a non-empty expression mentions another column's name |
| `Lineage.LocalEdgesNoLoop` | pixeltable/dashboard/bridge.py:406 | no local edge runs from a column to itself |
| `Lineage.BaseLinksShape` | pixeltable/dashboard/bridge.py:418-441 | the base pass keeps the nodes it is given, in front, and each edge it adds starts at one of its nodes and ends at a column of the view |
| `Lineage.BaseLinksDistinct` | pixeltable/dashboard/bridge.py:426-436 | the base pass adds a node only when no node has its id, so distinct ids stay distinct |
| `Lineage.BaseLinksEdgeCount` | pixeltable/dashboard/bridge.py:418-441 | the base pass adds one edge per inherited column |
| `Lineage.LocalGraphClosed` | pixeltable/dashboard/bridge.py:384-410 | every local edge runs between two local nodes and ends at a column of the table |
| `Lineage.LocalIdsDistinct` | pixeltable/dashboard/bridge.py:384-398 | with distinct column names the local node ids are distinct |
| `Lineage.LineageClosed` | pixeltable/dashboard/bridge.py:365-449 | every edge of the graph runs between two of its nodes and ends at a column of the table |
| `Lineage.LineageIdsDistinct` | pixeltable/dashboard/bridge.py:365-449 | with distinct column names the node ids of the whole graph are distinct |
| `Lineage.LineageEdgeCount` | pixeltable/dashboard/bridge.py:412-443 | without a base that loads the graph is the local one; with one, the base pass adds one edge per inherited column |
| `Lineage.FindDependencies` | pixeltable/dashboard/bridge.py:405-410 | the dependency loop of one column finds `DependencyEdges` |
| `Lineage.LinkBase` | pixeltable/dashboard/bridge.py:418-441 | the base loop computes `BaseLinks` |
| `Lineage.GetColumnLineage` | pixeltable/dashboard/bridge.py:365-449 | `None` exactly when the table does not load; otherwise `LineageOf` |
| `InformationSchema.ScanTotals` | pixeltable/dashboard/bridge.py:471-571 | one summary row per table that loads, in order; the totals count the intended column records, the index and computed records, and sum the row and index counts |
| `InformationSchema.CountComputedIsLength` | pixeltable/dashboard/bridge.py:530-535 | the computed counter grows by the number of computed records appended |
| `InformationSchema.ComputedRecordsComputed` | pixeltable/dashboard/bridge.py:530-535 | every computed record is a computed column carrying its expression |
| `InformationSchema.ColumnsListQuirk` | pixeltable/dashboard/bridge.py:513-561 | while no loaded table has an index the `'columns'` list is every column record, in order; right after a loaded table with an index it is only that table's last index's column names |
| `InformationSchema.AppendColumnEntriesIs` | pixeltable/dashboard/bridge.py:513-528 | the column loop appends the table's column records, in order |
| `InformationSchema.ColumnsListCounterexample` | pixeltable/dashboard/bridge.py:538-568 | a table with two columns and one index over `a` reports `'columns'` as `['a']` while counting two columns |
| `InformationSchema.CollectColumns` | pixeltable/dashboard/bridge.py:513-535 | the column loop appends the column and computed records and advances both counters |
| `InformationSchema.CollectIndices` | pixeltable/dashboard/bridge.py:538-550 | the index loop appends one record per index, counts them, and rebinds `columns` to the last index's list |
| `InformationSchema.GetInformationSchema` | pixeltable/dashboard/bridge.py:452-572 | the result is the pass over the listed tables in order, with the directory count |
| `Search.Take` | pixeltable/dashboard/bridge.py:603-652 | at most `n` elements, a prefix of the list |
| `Search.MatchingDirsIff` | pixeltable/dashboard/bridge.py:597-602 | a directory hit is a listed directory that matches case-insensitively; every match is a hit |
| `Search.MatchingTablesIff` | pixeltable/dashboard/bridge.py:608-636 | a table hit is a listed table that matches, with its kind (a plain table when it fails to load); every match is a hit |
| `Search.TableColumnHitsIff` | pixeltable/dashboard/bridge.py:643-650 | a column hit of a table is a matching column with its type and computed flag, and every matching column is one |
| `Search.MatchingColumnsIff` | pixeltable/dashboard/bridge.py:638-654 | a column hit is a matching column of a listed table that loads, and every such column is one |
| `Search.SearchIgnoresCase` | pixeltable/dashboard/bridge.py:586 | a query and its lower-cased form find the same hits |
| `Search.SearchBounds` | pixeltable/dashboard/bridge.py:603-652 | each list respects the limit (the directory list still takes one match when the limit is 0 or less, and is never empty when a directory matches); a table or column list below the limit holds every match |
| `Search.SearchLimitMonotone` | pixeltable/dashboard/bridge.py:603-652 | raising the limit only adds hits at the end of each list |
| `Search.TakeExtend` | pixeltable/dashboard/bridge.py:639-652 | once a list is full, later matches do not change it |
| `Search.SearchDirectories` | pixeltable/dashboard/bridge.py:596-604 | the directory loop keeps the first matches up to the limit, and at least one match when the limit is 0 or less |
| `Search.SearchTableColumns` | pixeltable/dashboard/bridge.py:643-652 | the column scan of one table appends its matching columns and stops at the limit |
| `Search.AddTableHit` | pixeltable/dashboard/bridge.py:612-636 | a matching table is appended while the list is below the limit |
| `Search.AddColumnHits` | pixeltable/dashboard/bridge.py:639-654 | a table's matching columns are appended while the list is below the limit; a table that fails to load adds none |
| `Search.Search` | pixeltable/dashboard/bridge.py:575-656 | the three lists are those of `SearchOf` |
| `Routes.StripUnspaced` | pixeltable/dashboard/routes.py:141-142 | text with no surrounding whitespace is left as it is by stripping |
| `Routes.ParseIntOfDigits` | pixeltable/dashboard/routes.py:141-142 | `int` of a run of digits is their value |
| `Routes.ParseIntOfNegative` | pixeltable/dashboard/routes.py:141-142 | `int` of a minus sign and digits is the negated value |
| `Routes.ParseIntRoundTrip` | pixeltable/dashboard/routes.py:141-142 | the decimal text of any integer parses back to it |
| `Routes.ParseIntDefaults` | pixeltable/dashboard/routes.py:141-142 | the defaults `'0'` and `'50'` parse to 0 and 50 |
| `Routes.ParseIntRejects` | pixeltable/dashboard/routes.py:141-142 | text without a digit is rejected, the empty string included |
| `Routes.StripKeepsChars` | pixeltable/dashboard/routes.py:141-142 | stripping only removes characters |
| `Routes.ParseInt` | pixeltable/dashboard/routes.py:141-142 | text that is empty or all whitespace is rejected, and a negative number comes only from text holding a minus sign |
| `Routes.EmptyTablePath` | pixeltable/dashboard/routes.py:105-180 | the three table handlers answer 400 `Table path is required` exactly for an empty path; otherwise they call the bridge with the path, or fail with 500 only in the data handler |
| `Routes.TableDataParameters` | pixeltable/dashboard/routes.py:135-152 | absent parameters give offset 0, limit 50 and ascending order; the limit is capped at 500 and never raised; `order_desc` is true exactly when it lower-cases to `true`; an offset that does not parse is a 500 |
| `Routes.TableDataCall` | pixeltable/dashboard/routes.py:141-152 | once both numbers parse, the handler calls the bridge with them, the limit capped at 500 |
| `Routes.TableDataNumbers` | pixeltable/dashboard/routes.py:141-152 | numbers sent as decimal text reach the bridge unchanged, the limit capped at 500 |
| `Routes.SearchParameters` | pixeltable/dashboard/routes.py:218-229 | an empty or missing `q` is answered with the fixed empty result exactly; otherwise the bridge gets `q` and a limit of at most 100, 50 when absent |
| `Routes.RepliesCarryCors` | pixeltable/dashboard/routes.py:31-47 | every reply is JSON with the three CORS headers; a bridge call that raises becomes 500 with the exception's text |
| `Routes.DispatchIsFirstMatch` | pixeltable/dashboard/routes.py:17-28 | a route that matches when no earlier route does is picked, with its parameter; nothing is picked exactly when no route matches |
| `Routes.DispatchMatches` | pixeltable/dashboard/routes.py:17-28 | the picked handler belongs to a route that matches the URL with the parameter passed on |
| `Routes.ParamMatch` | pixeltable/dashboard/routes.py:21-24 | a URL that matches a `{path:.*}` pattern is its prefix, the parameter (holding no line break) and its suffix |
| `Routes.ParamBuild` | pixeltable/dashboard/routes.py:21-24 | prefix, parameter and suffix match with that parameter |
| `Routes.DataRoute` | pixeltable/dashboard/routes.py:22 | `/api/tables/{p}/data` reaches the data handler with `p` |
| `Routes.LineageRoute` | pixeltable/dashboard/routes.py:23 | `/api/tables/{p}/lineage` reaches the lineage handler with `p` |
| `Routes.TableRouteUrl` | pixeltable/dashboard/routes.py:24 | the metadata handler is reached only by `/api/tables/` and its path |
| `Routes.TableRouteExcludesSuffixes` | pixeltable/dashboard/routes.py:22-24 | the metadata handler never receives a path ending in `/data` or `/lineage` |
| `Routes.BareDataPath` | pixeltable/dashboard/routes.py:22-24 | `/api/tables/data` is too short for the data route and reaches the metadata handler with the path `data` |
| `Routes.JsonResponse` | pixeltable/dashboard/routes.py:31-42 | a JSON reply keeps the status and body it is given and carries three headers, among them `Access-Control-Allow-Origin: *` |
| `Routes.ErrorResponse` | pixeltable/dashboard/routes.py:45-47 | an error reply is JSON with the CORS headers, the given status and the body `{'error': message}` |
| `Routes.Handle` | pixeltable/dashboard/routes.py:50-233 | a direct reply is JSON with the CORS headers; it is a 400 exactly when a table handler gets an empty path; a data call comes from the data handler with its path and a limit of at most 500; a search call has a non-empty query and a limit of at most 100 |
| `Routes.Dispatch` | pixeltable/dashboard/routes.py:17-28 | the parameter passed on is a piece of the URL no longer than it and holds no line break |
| `Routes.HandleRequest` | pixeltable/dashboard/routes.py:17-233 | a direct reply is JSON with the CORS headers; a data call carries a non-empty path without a line break and a limit of at most 500 |
| `Store.RowidLayout` | pixeltable/store.py:280-335 | a table's rowid is `rowid`; a view copies its base's rowid; a component view adds one position column `pos_<n-1>` after it, at index `n` |
| `Store.PosColumnNamesDiffer` | pixeltable/store.py:331-332 | component views over bases with different rowid widths get different position-column names |
| `Store.FillPkFields` | pixeltable/store.py:118-122 | after `n` key columns the row holds its old entries and those key columns, each with its key value, other entries unchanged |
| `Store.CreatedRowFields` | pixeltable/store.py:107-123 | a created row holds every key value under its key column, the given `v_min` overriding the last one, and the built row's other entries unchanged |
| `Store.ConvertAppend` | pixeltable/store.py:236-247 | converting two runs of input rows is converting each in turn |
| `Store.ConvertAt` | pixeltable/store.py:239-243 | each input row becomes the row `_create_table_row` builds for it, at its position |
| `Store.ExcTotalsAppend` | pixeltable/store.py:241-242 | exception counts add up and exception columns unite over two runs |
| `Store.ChunksOfSpec` | pixeltable/store.py:236-239 | the batches of 16 put back together are the rows, and each batch holds 1 to 16 rows |
| `Store.InsertedRows` | pixeltable/store.py:217-253 | every input row is inserted once, in order, converted; the statements hold 1 to 16 rows; the counts are the number of input rows and the sum of their exceptions |
| `Store.StoreModel.constructor` | pixeltable/store.py:31-56 | the system columns are the rowid columns, `v_min` and `v_max`; the key columns are the rowid columns and `v_min` |
| `Store.StoreModel.RowidColumns` | pixeltable/store.py:37-41 | `rowid_columns()` is the key columns without `v_min` |
| `Store.StoreModel.CreateTableRow` | pixeltable/store.py:107-123 | the loop over the key columns builds `WithPk` of the built row and passes its exception count on |
| `Store.StoreModel.ConvertChunk` | pixeltable/store.py:239-243 | the rows of one statement are those rows converted, with their exceptions counted |
| `Store.StoreModel.InsertChunk` | pixeltable/store.py:238-247 | one `INSERT` appends those rows converted to the table, each with `v_max` at its column default `MAX_VERSION` when the statement does not set it, and logs the statement's rows |
| `Store.StoreModel.InsertBatch` | pixeltable/store.py:235-247 | one batch is appended in order, each row with the `v_max` default, logged in statements of 16 rows |
| `Store.StoreModel.InsertRows` | pixeltable/store.py:217-253 | every batch is appended in order, each row with the `v_max` default; returns the row count, the exception count and the columns with exceptions |
| `Store.Stored` | pixeltable/store.py:53-54 | a stored row is the statement's row with `v_max` added as `MAX_VERSION` when the statement does not set it; every other column is as the statement wrote it |
| `Store.InsertedRowLive` | pixeltable/store.py:217-292 | a row inserted with a `v_min` at or before a version is live at that version, and a table delete without `where` at that version selects it and sets its `v_max` to the current version |
| `Store.UpdateValuesSpec` | pixeltable/store.py:186-207 | a raised value writes `NULL` with the error type and message; otherwise the value alone; an indexed column also writes its embedding; nothing else is written |
| `Store.UpdateValues` | pixeltable/store.py:186-207 | only the value, error-type, error-message and embedding columns are written; a column neither computed nor indexed writes nothing; a computed column always writes its value column and an indexed one its embedding |
| `Store.UpdateWhereAt` | pixeltable/store.py:209-213 | a keyed update lays its values over exactly the rows whose key columns hold the key |
| `Store.LoadAllAppend` | pixeltable/store.py:181-213 | loading two runs of results is loading each in turn, and their exception counts add up |
| `Store.LoadAllFrame` | pixeltable/store.py:181-215 | a row no result row's key matches is left as it is; the exception count never exceeds the results |
| `Store.StoreModel.LoadBatch` | pixeltable/store.py:183-213 | one batch of results updates the rows as `LoadAll` says and counts its exceptions |
| `Store.StoreModel.LoadColumn` | pixeltable/store.py:168-215 | every result of every batch updates the rows in order; returns the number of results that raised |
| `Store.NoPredicateDeletesLive` | pixeltable/store.py:259-292 | with no `where` a table deletes exactly its rows live at the version |
| `Store.DeleteSelects` | pixeltable/store.py:287-317 | a delete selects only rows whose `v_min` is at or before the version, and never a row whose `v_max` is missing or already holds a version |
| `Store.MarkDeletedSpec` | pixeltable/store.py:259-272 | on live rows, a delete rewrites `v_max` of exactly the selected rows to the current version, keeps their other columns and every other row, and its count is the number of rows it changes |
| `Store.DeleteTwice` | pixeltable/store.py:259-318 | repeating a delete at the same version changes nothing and counts 0 |
| `Store.StoreModel.DeleteRows` | pixeltable/store.py:259-317 | `v_max` is set to the current version on the rows the kind's clause selects, and the count is how many it selects |
| `Store.TableColumnsSpec` | pixeltable/store.py:59-73 | the table description starts with the system columns and holds exactly them and the storage columns of the stored columns |
| `Store.TableColumns` | pixeltable/store.py:59-73 | the table description starts with the system columns, and is only those when no column is stored |
| `Store.StoreModel.AddColumn` | pixeltable/store.py:132-153 | the value column is added, and for a computed column its error message and error type columns |
| `Store.WithoutMembers` | pixeltable/store.py:155-165 | dropping keeps exactly the names not dropped |
| `Store.AddThenDrop` | pixeltable/store.py:132-165 | dropping a column right after adding it restores the storage columns |
| `Store.StoreModel.DropColumn` | pixeltable/store.py:155-166 | with a column its storage columns leave the table and every row; without one nothing changes |
| `RagBackend.PresentIff` | docs/sample-apps/local_multimodal_rag_application/backend/main.py:52-59 | a source has a section exactly when its context list is non-empty; sections come documents, video, audio |
| `RagBackend.TextsIff` | docs/sample-apps/local_multimodal_rag_application/backend/main.py:53 | a text is kept exactly when some present item with a `text` key carries it |
| `RagBackend.NoContextIff` | docs/sample-apps/local_multimodal_rag_application/backend/main.py:61 | the context is the fixed notice exactly when all three lists are empty |
| `RagBackend.PromptWithoutContextIff` | docs/sample-apps/local_multimodal_rag_application/backend/main.py:61-63 | the prompt is the notice and the question under their labels exactly when all three lists are empty |
| `RagBackend.TextInSection` | docs/sample-apps/local_multimodal_rag_application/backend/main.py:53-59 | a kept item's text appears in its section |
| `RagBackend.PromptFrames` | docs/sample-apps/local_multimodal_rag_application/backend/main.py:63 | the prompt holds the context and the question, and ends with the question label and the question |
| `RagBackend.PromptHoldsTexts` | docs/sample-apps/local_multimodal_rag_application/backend/main.py:49-63 | every kept text of every source, and the question, appear in the prompt |
| `RagBackend.CreatePrompt` | docs/sample-apps/local_multimodal_rag_application/backend/main.py:49-63 | the prompt starts with the context label and ends with the question label and the question |
| `RagBackend.UploadFileIff` | docs/sample-apps/local_multimodal_rag_application/backend/main.py:263-327 | an upload succeeds exactly when it has a non-empty name, a content type that passes the check, and storing works; it is a 400 exactly when the name is missing or empty or a content type is sent that fails the check (a missing content type is a 500) |
| `RagBackend.UploadKindIff` | docs/sample-apps/local_multimodal_rag_application/backend/main.py:293-313 | an accepted upload is a document exactly when its type is a document type or its name ends in `.py`, else a video; the name and size are echoed |
| `RagBackend.UploadKind` | docs/sample-apps/local_multimodal_rag_application/backend/main.py:293-313 | an accepted upload is a document or a video, and a video only when its type is not a document type |
| `RagBackend.UploadFile` | docs/sample-apps/local_multimodal_rag_application/backend/main.py:263-327 | every failure is a 400 or a 500; a success comes only when storing worked, echoes the non-empty name and the size, is a document or a video, and is a video only for a type starting with a video type |
| `RagBackend.UploadMedia` | docs/sample-apps/local_multimodal_rag_application/backend/main.py:393-466 | every failure is a 400 or a 500; a success echoes the name and comes only for a type starting with one of the endpoint's types when storing worked |
| `RagBackend.UploadVideo` | docs/sample-apps/local_multimodal_rag_application/backend/main.py:393-431 | a video the endpoint accepts has a type that `upload_file`'s check accepts as well |
| `RagBackend.UploadAudio` | docs/sample-apps/local_multimodal_rag_application/backend/main.py:434-466 | an audio file the endpoint accepts has a type that `upload_file`'s check rejects |
| `RagBackend.UploadMediaIff` | docs/sample-apps/local_multimodal_rag_application/backend/main.py:393-466 | the video and audio endpoints succeed exactly for a type starting with one of their prefixes when storing works, and answer 400 exactly for any other type |
| `RagBackend.VideoTypesReachUploadFile` | docs/sample-apps/local_multimodal_rag_application/backend/main.py:217-302 | every type the video endpoint accepts passes the general check and is stored as a video unless the name ends in `.py` |
| `RagBackend.AudioTypesRejectedByUploadFile` | docs/sample-apps/local_multimodal_rag_application/backend/main.py:230-273 | no audio type passes the general upload check or the video endpoint's |
| `RagBackend.AudioPrefixRejected` | docs/sample-apps/local_multimodal_rag_application/backend/main.py:230-273 | a type starting with an audio type fails the general upload check |
| `RagBackend.PathName` | docs/sample-apps/local_multimodal_rag_application/backend/main.py:349 | a file's name holds no `/` |
| `RagBackend.PathNameOfChild` | docs/sample-apps/local_multimodal_rag_application/backend/main.py:349 | a file saved under a directory is listed by its own name |
| `RagBackend.ListedIff` | docs/sample-apps/local_multimodal_rag_application/backend/main.py:339-378 | an entry is listed exactly when a non-empty existing path gives it |
| `RagBackend.ListedType` | docs/sample-apps/local_multimodal_rag_application/backend/main.py:339-378 | every entry carries the type of the column it was listed from |
| `RagBackend.FileOrderIsTotalPreorder` | docs/sample-apps/local_multimodal_rag_application/backend/main.py:381 | the `(type, name)` key order is total and transitive |
| `RagBackend.SortFiles` | docs/sample-apps/local_multimodal_rag_application/backend/main.py:381 | the sorted files are ordered by type, then name, and are a permutation of the input |
| `RagBackend.CollectFiles` | docs/sample-apps/local_multimodal_rag_application/backend/main.py:339-378 | one loop appends the entries of its column's paths, in order |
| `RagBackend.ListFiles` | docs/sample-apps/local_multimodal_rag_application/backend/main.py:330-386 | the documents' entries, then the videos', sorted by type and name |
| `RagBackend.ListFilesSpec` | docs/sample-apps/local_multimodal_rag_application/backend/main.py:330-386 | the listing is a sorted permutation of the entries of the non-empty existing paths; every entry is a document or a video, and every document comes before every video |

## Left out

- I/O is not modelled: the catalog calls, the SQL connection, the file system, logging and the progress bar. Their results are inputs (the catalog map, the query results, `rowCounts`, the file-size map `fs`), or an optional error text for a call that raises.
- `json.dumps` and the HTTP framework are not modelled. A response is a status, a content type, the header list and a body naming what the JSON would hold.
- The `file://` to local-path conversion in `get_table_data` (`urllib`) is a function parameter `localPath`.
- `Env.get()._http_address` is a parameter `httpAddress`.
- `str.lower` is modelled for ASCII letters only. Python lower-cases other alphabets too.
- `TableData.GetTableData`: the names of the table object's own attributes are a parameter (`attributes`). That ordering by such an attribute raises is taken as given; the query builder is not modelled.
- `TableData.ShapedRowSerializable`: only the top level of a cell is shaped, as in the source. A date nested inside a list or a dict is written by the JSON writer's `default=str`, so it appears as `str()` text, not ISO text; `json.dumps` is not modelled.
- `Routes.IntError`: quotes the text with single quotes. Python's message uses `repr`, which differs for text holding quotes, backslashes or non-printable characters.
- `int()` of a query parameter is modelled for ASCII digits, an optional sign and ASCII whitespace. Underscores between digits and non-ASCII digits, which Python also accepts, are rejected here.
- Floating-point values in `get_table_data` are folded into the value kinds `json.dumps` writes as they are.
- The SQLAlchemy objects are not modelled: the `Column`/`Table`/`Index` objects, the index definitions of `_create_sa_tbl`, `create`, `drop`, `_storage_name` and the statement text. The store tracks column names, rows as maps and the row lists of its `INSERT` statements.
- `row_builder.create_table_row` is an input: each input row carries the row it builds, its exception count and its exception columns.
- `Store.StoreModel.DeleteRows`: the `where` clause is a predicate on a row, and a view's base store is the state passed in (`BaseState`).
- `Store.StoreModel.LoadColumn`: requires that no embedding raised for an indexed column, where the source asserts it.
- `Store.StoreModel.AddColumn`: requires a stored column, where the source asserts it. The index column is in the table description (`TableColumns`) but not in the altered storage columns, as in the source. Adding a column the table already has is a database error in the source; the model does not fail but appends the storage names a second time.
- `Store.StoreModel.DropColumn`: dropping a storage column the table does not have is a database error in the source; the model does not fail, and a name that is not in the list leaves it as it is.
- `Store.MaxVersion` is 2^63 - 1, the largest `BIGINT`. The schema module that defines `MAX_VERSION` is not part of this model.
- The embedding, chat and question-answering parts of the RAG backend are not part of this model. These are the table setup, `create_messages`, `process_document`'s Markdown wrapping of `.py` files, `list_videos`, `get_answer` and `chat`. Each calls a model or the database and computes nothing checkable.
- The `id` field of a `list_files` entry is not modelled: it is `hash(name)`, which Python salts per process.
- `RagBackend.PathName` models POSIX paths only. Windows drive letters and backslashes are not modelled.
- `RagBackend.UploadMedia`: takes the file name as a string. A request without one fails inside the handler's own error path (`file_path` is unbound there), which the framework turns into a 500; the model does not distinguish that case. The success reply omits the saved path, which depends on the temporary directory.
- `RagBackend.UploadFile`: the stored file's size is an input. A failing read or write is an optional error text.

## Findings

| source | as written | input that shows it | evidently intended | confidence | as-written member | corrected member |
|---|---|---|---|---|---|---|
| pixeltable/dashboard/bridge.py:205-240 | the index loop assigns `columns = idx_info.get('columns', [])`, so the returned `'columns'` field is the last index's column list whenever the table has an index | a table with one column `text` and one index over it: `'columns'` is `['text']` | `'columns'` holds one record per column of the table | high, not executed | `TableMetadata.ColumnsFieldCounterexample` (with `TableMetadata.ColumnsFieldQuirk`) | `TableMetadata.ColumnRecordsOf` |
| pixeltable/dashboard/bridge.py:467-561 | the same rebinding in `get_information_schema`: after the first table with an index, `'columns'` is that index's column list, and later tables append to it | one table with columns `a`, `b` and one index over `a`: `'columns'` is `['a']` while `total_columns` is 2 | `'columns'` holds the record of every column of every table that loads, matching `total_columns` | high, not executed | `InformationSchema.ColumnsListCounterexample` (with `InformationSchema.ColumnsListQuirk`) | `InformationSchema.ScanTotals` (over `InformationSchema.AllColumnRecords`) |

The operations keep the behaviour as written: `TableMetadata.GetTableMetadata` and `InformationSchema.GetInformationSchema` return the rebound field. The corrected lists are the functions the other properties are stated over. For example, `InformationSchema.ScanTotals` proves that `total_columns` counts `AllColumnRecords`.
