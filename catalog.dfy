/** The catalog as the dashboard bridge sees it: the metadata record that
    `Table.get_metadata()` returns for one table, and the classification of
    a table into table, view, snapshot or replica.

    The catalog itself is an input: a map from table path to its metadata
    record. A path missing from the map is a table whose `get_table` or
    `get_metadata` call raised. */
module Catalog {
  import opened Common

  /** One entry of `md['columns']`. Every field is optional because the
      bridge reads each with `dict.get` and a default. */
  datatype ColumnInfo = ColumnInfo(
    name: Option<string>,
    typeName: Option<string>,
    computedWith: Option<string>,
    isStored: Option<bool>,
    isPrimaryKey: Option<bool>,
    definedIn: Option<string>,
    versionAdded: Option<int>)

  /** One entry of `md['indices']`. */
  datatype IndexInfo = IndexInfo(
    name: Option<string>,
    columns: Option<seq<string>>,
    column: Option<string>,
    indexType: Option<string>,
    typeName: Option<string>,
    parameters: Option<map<string, string>>)

  /** The metadata record of one table. `columns` and `indices` are
      dictionaries in the source: sequences of (key, entry) pairs here, in
      dictionary order. `versionCreated` is already in ISO form. */
  datatype TableMd = TableMd(
    path: string,
    name: string,
    isReplica: bool,
    isSnapshot: bool,
    isView: bool,
    version: int,
    schemaVersion: int,
    versionCreated: Option<string>,
    comment: Option<string>,
    base: Option<string>,
    columns: seq<(string, ColumnInfo)>,
    indices: seq<(string, IndexInfo)>,
    mediaValidation: string)

  type Catalog = map<string, TableMd>

  datatype Kind = TableKind | ViewKind | SnapshotKind | ReplicaKind

  /** The `'type'` string the dashboard reports for a kind. */
  function KindName(k: Kind): string
  {
    match k
    case TableKind => "table"
    case ViewKind => "view"
    case SnapshotKind => "snapshot"
    case ReplicaKind => "replica"
  }

  /** The kind of a table: replica before snapshot before view, and a plain
      table otherwise. */
  function KindOf(md: TableMd): (k: Kind)
    ensures k == ReplicaKind <==> md.isReplica
    ensures k == SnapshotKind <==> !md.isReplica && md.isSnapshot
    ensures k == ViewKind <==> !md.isReplica && !md.isSnapshot && md.isView
    ensures k == TableKind <==> !md.isReplica && !md.isSnapshot && !md.isView
  {
    if md.isReplica then ReplicaKind
    else if md.isSnapshot then SnapshotKind
    else if md.isView then ViewKind
    else TableKind
  }

  /** Kind reported for a listed table; a table whose metadata fails to
      load is reported as a plain table. */
  function ListedKind(catalog: Catalog, path: string): Kind
  {
    if path in catalog then KindOf(catalog[path]) else TableKind
  }

  /** Version reported for a listed table: none for a snapshot and none when
      the metadata fails to load. */
  function ListedVersion(catalog: Catalog, path: string): Option<int>
  {
    if path in catalog && KindOf(catalog[path]) != SnapshotKind
    then Some(catalog[path].version)
    else None
  }

  /** The listing of a table carries a version exactly when its metadata
      loads and it is not classified a snapshot (a replica flagged as a
      snapshot still reports its version); a table that fails to load is
      listed as a plain table. */
  lemma ListedKindAndVersion(catalog: Catalog, path: string)
    ensures path !in catalog ==> ListedKind(catalog, path) == TableKind && ListedVersion(catalog, path) == None
    ensures ListedVersion(catalog, path).Some? <==> path in catalog && (catalog[path].isReplica || !catalog[path].isSnapshot)
    ensures ListedVersion(catalog, path).Some? ==> ListedVersion(catalog, path).value == catalog[path].version
  {
  }

  /** `col_info.get('computed_with') is not None`. */
  predicate IsComputed(info: ColumnInfo)
  {
    info.computedWith.Some?
  }

  /** The keys of a dictionary held as a sequence of pairs. */
  function Keys<V>(entries: seq<(string, V)>): (ks: seq<string>)
    ensures |ks| == |entries|
    ensures forall i :: 0 <= i < |entries| ==> ks[i] == entries[i].0
  {
    if |entries| == 0 then [] else Keys(entries[..|entries| - 1]) + [entries[|entries| - 1].0]
  }
}
