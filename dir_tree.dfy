/** The directory tree and directory listing of the dashboard bridge
    (`get_directory_tree` and `get_directory_contents`).

    The source builds the tree as dictionaries shared by reference: every
    directory node is registered in `dir_nodes` under its path and its
    `children` list is appended to through that map, also after the node has
    been linked into its parent. The model keeps exactly that state: the list
    of root nodes, and a map from directory path to the children list of that
    directory's node. */
module DirectoryTree {
  import opened Common
  import opened Catalog

  datatype TreeNode =
    | DirNode(name: string, path: string)
    | TableNode(name: string, path: string, kind: Kind, version: Option<int>)

  /** Where a node ends up: among the root nodes, in the children of a
      directory, or nowhere. */
  datatype Slot = Root | Under(parent: string) | Dropped

  /** The place of directory `d` among the listed directories `dirs`: a
      one-segment path is a root, any other goes under its parent when the
      parent is listed and is dropped otherwise. */
  function DirSlot(d: string, dirs: set<string>): Slot
  {
    if '.' !in d then Root
    else if ParentPath(d) in dirs then Under(ParentPath(d))
    else Dropped
  }

  /** The place of table `t`: a table whose parent path is empty is a root,
      one whose parent is a listed directory goes under it, any other is
      dropped. */
  function TableSlot(t: string, dirs: set<string>): Slot
  {
    var parent := ParentPath(t);
    if parent != "" && parent in dirs then Under(parent)
    else if parent == "" then Root
    else Dropped
  }

  function DirNodeFor(d: string): TreeNode
  {
    DirNode(LastSegment(d), d)
  }

  function TableNodeFor(t: string, catalog: Catalog): TreeNode
  {
    TableNode(LastSegment(t), t, ListedKind(catalog, t), ListedVersion(catalog, t))
  }

  function Paths(nodes: seq<TreeNode>): (ps: seq<string>)
    ensures |ps| == |nodes|
    ensures forall k :: 0 <= k < |nodes| ==> ps[k] == nodes[k].path
  {
    if |nodes| == 0 then [] else Paths(nodes[..|nodes| - 1]) + [nodes[|nodes| - 1].path]
  }

  /** The nodes of the directories of `ds` whose place is `slot`, in the
      order of `ds`. */
  function DirNodesAt(ds: seq<string>, slot: Slot, dirs: set<string>): seq<TreeNode>
  {
    if |ds| == 0 then []
    else
      var d := ds[|ds| - 1];
      DirNodesAt(ds[..|ds| - 1], slot, dirs) + (if DirSlot(d, dirs) == slot then [DirNodeFor(d)] else [])
  }

  /** The nodes of the tables of `ts` whose place is `slot`, in the order of
      `ts`. */
  function TableNodesAt(ts: seq<string>, slot: Slot, dirs: set<string>, catalog: Catalog): seq<TreeNode>
  {
    if |ts| == 0 then []
    else
      var t := ts[|ts| - 1];
      TableNodesAt(ts[..|ts| - 1], slot, dirs, catalog) + (if TableSlot(t, dirs) == slot then [TableNodeFor(t, catalog)] else [])
  }

  /** Every node at `slot` is the node of a listed directory whose place is
      `slot`. */
  lemma {:induction false} DirNodesAtElements(ds: seq<string>, slot: Slot, dirs: set<string>)
    ensures forall k :: 0 <= k < |DirNodesAt(ds, slot, dirs)| ==>
      && DirNodesAt(ds, slot, dirs)[k] == DirNodeFor(DirNodesAt(ds, slot, dirs)[k].path)
      && DirNodesAt(ds, slot, dirs)[k].path in ds
      && DirSlot(DirNodesAt(ds, slot, dirs)[k].path, dirs) == slot
  {
    if |ds| > 0 {
      var init := ds[..|ds| - 1];
      DirNodesAtElements(init, slot, dirs);
      var prev := DirNodesAt(init, slot, dirs);
      var r := DirNodesAt(ds, slot, dirs);
      forall k | 0 <= k < |r|
        ensures r[k] == DirNodeFor(r[k].path) && r[k].path in ds && DirSlot(r[k].path, dirs) == slot
      {
        if k < |prev| {
          assert r[k] == prev[k];
          assert prev[k].path in init;
        }
      }
    }
  }

  /** Every node at `slot` is the node of a listed table whose place is
      `slot`. */
  lemma {:induction false} TableNodesAtElements(ts: seq<string>, slot: Slot, dirs: set<string>, catalog: Catalog)
    ensures forall k :: 0 <= k < |TableNodesAt(ts, slot, dirs, catalog)| ==>
      && TableNodesAt(ts, slot, dirs, catalog)[k] == TableNodeFor(TableNodesAt(ts, slot, dirs, catalog)[k].path, catalog)
      && TableNodesAt(ts, slot, dirs, catalog)[k].path in ts
      && TableSlot(TableNodesAt(ts, slot, dirs, catalog)[k].path, dirs) == slot
  {
    if |ts| > 0 {
      var init := ts[..|ts| - 1];
      TableNodesAtElements(init, slot, dirs, catalog);
      var prev := TableNodesAt(init, slot, dirs, catalog);
      var r := TableNodesAt(ts, slot, dirs, catalog);
      forall k | 0 <= k < |r|
        ensures r[k] == TableNodeFor(r[k].path, catalog) && r[k].path in ts && TableSlot(r[k].path, dirs) == slot
      {
        if k < |prev| {
          assert r[k] == prev[k];
          assert prev[k].path in init;
        }
      }
    }
  }

  /** A directory appears at `slot` exactly when it is listed and `slot` is
      its place. */
  lemma {:induction false} DirNodesAtMember(ds: seq<string>, slot: Slot, dirs: set<string>, d: string)
    ensures DirNodeFor(d) in DirNodesAt(ds, slot, dirs) <==> d in ds && DirSlot(d, dirs) == slot
  {
    if |ds| > 0 {
      var init := ds[..|ds| - 1];
      DirNodesAtMember(init, slot, dirs, d);
      assert ds == init + [ds[|ds| - 1]];
    }
  }

  /** A table appears at `slot` exactly when it is listed and `slot` is its
      place. */
  lemma {:induction false} TableNodesAtMember(ts: seq<string>, slot: Slot, dirs: set<string>, catalog: Catalog, t: string)
    ensures TableNodeFor(t, catalog) in TableNodesAt(ts, slot, dirs, catalog) <==> t in ts && TableSlot(t, dirs) == slot
  {
    if |ts| > 0 {
      var init := ts[..|ts| - 1];
      TableNodesAtMember(init, slot, dirs, catalog, t);
      assert ts == init + [ts[|ts| - 1]];
    }
  }

  /** Taking the directories of a sorted sequence keeps them sorted. */
  lemma {:induction false} DirNodesAtSorted(ds: seq<string>, slot: Slot, dirs: set<string>)
    requires Sorted(ds)
    ensures Sorted(Paths(DirNodesAt(ds, slot, dirs)))
  {
    if |ds| > 0 {
      var init := ds[..|ds| - 1];
      var d := ds[|ds| - 1];
      DirNodesAtSorted(init, slot, dirs);
      DirNodesAtElements(init, slot, dirs);
      var prev := DirNodesAt(init, slot, dirs);
      forall k | 0 <= k < |prev| ensures LessEq(prev[k].path, d) {
        var j :| 0 <= j < |init| && init[j] == prev[k].path;
      }
      assert Paths(prev + [DirNodeFor(d)]) == Paths(prev) + [d];
    }
  }

  /** Taking the tables of a sorted sequence keeps them sorted. */
  lemma {:induction false} TableNodesAtSorted(ts: seq<string>, slot: Slot, dirs: set<string>, catalog: Catalog)
    requires Sorted(ts)
    ensures Sorted(Paths(TableNodesAt(ts, slot, dirs, catalog)))
  {
    if |ts| > 0 {
      var init := ts[..|ts| - 1];
      var t := ts[|ts| - 1];
      TableNodesAtSorted(init, slot, dirs, catalog);
      TableNodesAtElements(init, slot, dirs, catalog);
      var prev := TableNodesAt(init, slot, dirs, catalog);
      forall k | 0 <= k < |prev| ensures LessEq(prev[k].path, t) {
        var j :| 0 <= j < |init| && init[j] == prev[k].path;
      }
      assert Paths(prev + [TableNodeFor(t, catalog)]) == Paths(prev) + [t];
    }
  }

  /** In a sorted listing the parent of a directory comes before it. */
  lemma ParentListedEarlier(sd: seq<string>, i: int)
    requires Sorted(sd) && 0 <= i < |sd|
    requires '.' in sd[i] && ParentPath(sd[i]) in sd
    ensures ParentPath(sd[i]) in sd[..i]
  {
    var d := sd[i];
    var p := ParentPath(d);
    PathDecomposition(d);
    var j :| 0 <= j < |sd| && sd[j] == p;
    if j >= i {
      assert j > i;
      assert LessEq(d, p);
      PrefixSortsFirst(p, d);
    }
    assert sd[..i][j] == p;
  }

  /** In a sorted listing no directory before `sd[i]` is one of its
      children. */
  lemma NoChildListedEarlier(sd: seq<string>, i: int, dirs: set<string>)
    requires Sorted(sd) && 0 <= i < |sd|
    ensures DirNodesAt(sd[..i + 1], Under(sd[i]), dirs) == []
  {
    var r := DirNodesAt(sd[..i + 1], Under(sd[i]), dirs);
    if |r| > 0 {
      DirNodesAtElements(sd[..i + 1], Under(sd[i]), dirs);
      var e := r[0].path;
      assert DirSlot(e, dirs) == Under(sd[i]);
      PathDecomposition(e);
      assert e in sd[..i + 1];
      var j :| 0 <= j < i + 1 && sd[j] == e;
      assert LessEq(sd[j], sd[i]) by {
        if j < i {} else { LessEqTotal(e, e); }
      }
      PrefixSortsFirst(sd[i], e);
    }
  }

  /** Adding one directory node: the lists of every other place are
      unchanged, and the list of the directory's own place grows by it. */
  lemma DirNodesAtStep(ds: seq<string>, i: int, slot: Slot, dirs: set<string>)
    requires 0 <= i < |ds|
    ensures DirNodesAt(ds[..i + 1], slot, dirs)
      == DirNodesAt(ds[..i], slot, dirs) + (if DirSlot(ds[i], dirs) == slot then [DirNodeFor(ds[i])] else [])
  {
    assert ds[..i + 1][..i] == ds[..i];
  }

  lemma TableNodesAtStep(ts: seq<string>, j: int, slot: Slot, dirs: set<string>, catalog: Catalog)
    requires 0 <= j < |ts|
    ensures TableNodesAt(ts[..j + 1], slot, dirs, catalog)
      == TableNodesAt(ts[..j], slot, dirs, catalog) + (if TableSlot(ts[j], dirs) == slot then [TableNodeFor(ts[j], catalog)] else [])
  {
    assert ts[..j + 1][..j] == ts[..j];
  }

  /** Registering directory `sd[i]` with no children and linking it into
      its parent's list keeps every registered children list equal to the
      nodes placed under that directory so far. */
  lemma LinkPreservesChildren(sd: seq<string>, i: int, dirs: set<string>,
                              before: map<string, seq<TreeNode>>, after: map<string, seq<TreeNode>>)
    requires Sorted(sd) && 0 <= i < |sd|
    requires forall p :: p in before ==> before[p] == DirNodesAt(sd[..i], Under(p), dirs)
    requires forall e :: e in before <==> e in sd[..i]
    requires var d := sd[i]; var m := before[d := []];
      after == if '.' in d && ParentPath(d) in m then m[ParentPath(d) := m[ParentPath(d)] + [DirNodeFor(d)]] else m
    requires forall e :: e in dirs <==> e in sd
    ensures forall p :: p in after ==> after[p] == DirNodesAt(sd[..i + 1], Under(p), dirs)
  {
    var d := sd[i];
    PathDecomposition(d);
    NoChildListedEarlier(sd, i, dirs);
    forall p | p in after ensures after[p] == DirNodesAt(sd[..i + 1], Under(p), dirs) {
      DirNodesAtStep(sd, i, Under(p), dirs);
      if p == d {
      } else if '.' in d && p == ParentPath(d) {
        assert p in sd[..i];
        assert DirSlot(d, dirs) == Under(p);
      } else {
        assert DirSlot(d, dirs) != Under(p);
      }
    }
  }

  /** The first pass of `get_directory_tree`: one node per directory of the
      sorted listing `sd`, linked at the root or into its parent's node. */
  method PlaceDirectories(sd: seq<string>, ghost dirs: set<string>)
    returns (root: seq<TreeNode>, children: map<string, seq<TreeNode>>)
    requires Sorted(sd) && forall d :: d in dirs <==> d in sd
    ensures children.Keys == dirs
    ensures root == DirNodesAt(sd, Root, dirs)
    ensures forall p :: p in children ==> children[p] == DirNodesAt(sd, Under(p), dirs)
  {
    root := [];
    children := map[];
    var i := 0;
    while i < |sd|
      invariant 0 <= i <= |sd|
      invariant forall d :: d in children <==> d in sd[..i]
      invariant root == DirNodesAt(sd[..i], Root, dirs)
      invariant forall p :: p in children ==> children[p] == DirNodesAt(sd[..i], Under(p), dirs)
    {
      var d := sd[i];
      assert forall e :: e in sd[..i + 1] <==> e in sd[..i] || e == d by {
        assert sd[..i + 1] == sd[..i] + [d];
      }
      var node := DirNodeFor(d);
      DirNodesAtStep(sd, i, Root, dirs);
      ghost var before := children;
      children := children[d := []];
      if '.' !in d {
        root := root + [node];
      } else {
        var parent := ParentPath(d);
        if parent in children {
          children := children[parent := children[parent] + [node]];
        }
      }
      LinkPreservesChildren(sd, i, dirs, before, children);
      i := i + 1;
    }
    assert sd[..|sd|] == sd;
  }

  /** Appending table `st[j]` to its parent's list keeps every children
      list equal to its first-pass contents plus the tables placed under
      that directory so far. */
  lemma AppendTablePreservesChildren(st: seq<string>, j: int, catalog: Catalog, dirs: set<string>,
                                     children0: map<string, seq<TreeNode>>,
                                     before: map<string, seq<TreeNode>>, after: map<string, seq<TreeNode>>)
    requires 0 <= j < |st| && before.Keys == dirs && children0.Keys == dirs
    requires forall p :: p in before ==> before[p] == children0[p] + TableNodesAt(st[..j], Under(p), dirs, catalog)
    requires var parent := ParentPath(st[j]);
      after == if parent != "" && parent in before then before[parent := before[parent] + [TableNodeFor(st[j], catalog)]] else before
    ensures forall p :: p in after ==> after[p] == children0[p] + TableNodesAt(st[..j + 1], Under(p), dirs, catalog)
  {
    forall p | p in after
      ensures after[p] == children0[p] + TableNodesAt(st[..j + 1], Under(p), dirs, catalog)
    {
      AppendTableAt(st, j, catalog, dirs, p, children0[p], before[p], after[p]);
    }
  }

  /** One directory's list in `AppendTablePreservesChildren`. */
  lemma AppendTableAt(st: seq<string>, j: int, catalog: Catalog, dirs: set<string>, p: string,
                      start: seq<TreeNode>, before: seq<TreeNode>, after: seq<TreeNode>)
    requires 0 <= j < |st| && p in dirs
    requires before == start + TableNodesAt(st[..j], Under(p), dirs, catalog)
    requires after == if ParentPath(st[j]) == p && p != "" then before + [TableNodeFor(st[j], catalog)] else before
    ensures after == start + TableNodesAt(st[..j + 1], Under(p), dirs, catalog)
  {
    TableNodesAtStep(st, j, Under(p), dirs, catalog);
    var node := TableNodeFor(st[j], catalog);
    if ParentPath(st[j]) == p && p != "" {
      assert TableSlot(st[j], dirs) == Under(p);
      Common.AppendAssoc(start, TableNodesAt(st[..j], Under(p), dirs, catalog), [node]);
    } else {
      assert TableSlot(st[j], dirs) != Under(p);
    }
  }

  /** The second pass of `get_directory_tree`: each table of the sorted
      listing `st` appended under its parent directory or at the root. */
  method PlaceTables(st: seq<string>, catalog: Catalog, ghost dirs: set<string>,
                     root0: seq<TreeNode>, children0: map<string, seq<TreeNode>>)
    returns (root: seq<TreeNode>, children: map<string, seq<TreeNode>>)
    requires children0.Keys == dirs
    ensures children.Keys == dirs
    ensures root == root0 + TableNodesAt(st, Root, dirs, catalog)
    ensures forall p :: p in children ==> children[p] == children0[p] + TableNodesAt(st, Under(p), dirs, catalog)
  {
    root := root0;
    children := children0;
    var j := 0;
    while j < |st|
      invariant 0 <= j <= |st|
      invariant children.Keys == dirs
      invariant root == root0 + TableNodesAt(st[..j], Root, dirs, catalog)
      invariant forall p :: p in children ==> children[p] == children0[p] + TableNodesAt(st[..j], Under(p), dirs, catalog)
    {
      var t := st[j];
      var parent := ParentPath(t);
      var node := TableNodeFor(t, catalog);
      TableNodesAtStep(st, j, Root, dirs, catalog);
      ghost var before := children;
      if parent != "" && parent in children {
        assert TableSlot(t, dirs) == Under(parent);
        children := children[parent := children[parent] + [node]];
      } else if parent == "" {
        assert TableSlot(t, dirs) == Root;
        root := root + [node];
      } else {
        assert TableSlot(t, dirs) == Dropped;
      }
      AppendTablePreservesChildren(st, j, catalog, dirs, children0, before, children);
      j := j + 1;
    }
    assert st[..|st|] == st;
  }

  /** `get_directory_tree`: the root nodes and, for every listed directory,
      the children of its node. Directories are placed by `DirSlot`, tables
      by `TableSlot`; each list holds its directories, in sorted path order,
      before its tables, in sorted path order. */
  method GetDirectoryTree(allDirs: seq<string>, allTables: seq<string>, catalog: Catalog)
    returns (root: seq<TreeNode>, children: map<string, seq<TreeNode>>)
    ensures var dirs := set d | d in allDirs;
      && children.Keys == dirs
      && root == DirNodesAt(SortStrings(allDirs), Root, dirs) + TableNodesAt(SortStrings(allTables), Root, dirs, catalog)
      && forall p :: p in children ==>
           children[p] == DirNodesAt(SortStrings(allDirs), Under(p), dirs)
                          + TableNodesAt(SortStrings(allTables), Under(p), dirs, catalog)
  {
    ghost var dirs := set d | d in allDirs;
    var sd := SortStrings(allDirs);
    forall d ensures d in dirs <==> d in sd {
      assert d in sd <==> d in multiset(sd);
      assert d in allDirs <==> d in multiset(allDirs);
    }
    var dirRoot, dirChildren := PlaceDirectories(sd, dirs);
    root, children := PlaceTables(SortStrings(allTables), catalog, dirs, dirRoot, dirChildren);
  }

  /** Every listed directory lands at its place in the tree: at the root
      when it has one segment, under its parent when the parent is listed,
      nowhere otherwise. */
  lemma DirectoryPlacement(allDirs: seq<string>, d: string)
    requires d in allDirs
    ensures var dirs := set e | e in allDirs; var sd := SortStrings(allDirs);
      && ('.' !in d ==> DirNodeFor(d) in DirNodesAt(sd, Root, dirs))
      && ('.' in d && ParentPath(d) in dirs ==> DirNodeFor(d) in DirNodesAt(sd, Under(ParentPath(d)), dirs))
      && ('.' in d && ParentPath(d) !in dirs ==>
            DirNodeFor(d) !in DirNodesAt(sd, Root, dirs)
            && forall p :: DirNodeFor(d) !in DirNodesAt(sd, Under(p), dirs))
  {
    var dirs := set e | e in allDirs;
    var sd := SortStrings(allDirs);
    assert d in multiset(allDirs);
    assert d in sd;
    DirNodesAtMember(sd, Root, dirs, d);
    DirNodesAtMember(sd, DirSlot(d, dirs), dirs, d);
    forall p ensures '.' in d && ParentPath(d) !in dirs ==> DirNodeFor(d) !in DirNodesAt(sd, Under(p), dirs) {
      DirNodesAtMember(sd, Under(p), dirs, d);
    }
  }

  /** Every listed table lands at its place: at the root when its parent
      path is empty, under its parent when that directory is listed, nowhere
      otherwise. */
  lemma TablePlacement(allDirs: seq<string>, allTables: seq<string>, catalog: Catalog, t: string)
    requires t in allTables
    ensures var dirs := set e | e in allDirs; var st := SortStrings(allTables);
      && (ParentPath(t) == "" ==> TableNodeFor(t, catalog) in TableNodesAt(st, Root, dirs, catalog))
      && (ParentPath(t) != "" && ParentPath(t) in dirs ==>
            TableNodeFor(t, catalog) in TableNodesAt(st, Under(ParentPath(t)), dirs, catalog))
      && (ParentPath(t) != "" && ParentPath(t) !in dirs ==>
            TableNodeFor(t, catalog) !in TableNodesAt(st, Root, dirs, catalog)
            && forall p :: TableNodeFor(t, catalog) !in TableNodesAt(st, Under(p), dirs, catalog))
  {
    var dirs := set e | e in allDirs;
    var st := SortStrings(allTables);
    assert t in multiset(allTables);
    assert t in st;
    TableNodesAtMember(st, Root, dirs, catalog, t);
    TableNodesAtMember(st, TableSlot(t, dirs), dirs, catalog, t);
    forall p ensures ParentPath(t) != "" && ParentPath(t) !in dirs ==> TableNodeFor(t, catalog) !in TableNodesAt(st, Under(p), dirs, catalog) {
      TableNodesAtMember(st, Under(p), dirs, catalog, t);
    }
  }

  // -----------------------------------------------------------------------
  // get_directory_contents

  datatype DirEntry = DirEntry(name: string, path: string)

  datatype DirContents = DirContents(path: string, dirs: seq<DirEntry>, tables: seq<TreeNode>)

  /** `get_directory_contents`: one entry per listed subdirectory and one per
      listed table, both in input order. A table whose metadata fails to
      load is still listed, as a plain table without a version. */
  method GetDirectoryContents(dirPath: string, subdirs: seq<string>, tables: seq<string>, catalog: Catalog)
    returns (r: DirContents)
    ensures r.path == dirPath
    ensures |r.dirs| == |subdirs|
    ensures forall k :: 0 <= k < |subdirs| ==> r.dirs[k] == DirEntry(LastSegment(subdirs[k]), subdirs[k])
    ensures |r.tables| == |tables|
    ensures forall k :: 0 <= k < |tables| ==>
      && r.tables[k].TableNode?
      && r.tables[k].path == tables[k]
      && r.tables[k].name == LastSegment(tables[k])
      && (tables[k] in catalog ==> r.tables[k].kind == KindOf(catalog[tables[k]]))
      && (tables[k] !in catalog ==> r.tables[k].kind == TableKind && r.tables[k].version == None)
      && (r.tables[k].version.Some? <==> tables[k] in catalog && r.tables[k].kind != SnapshotKind)
      && (r.tables[k].version.Some? ==> r.tables[k].version.value == catalog[tables[k]].version)
  {
    var dirEntries: seq<DirEntry> := [];
    var i := 0;
    while i < |subdirs|
      invariant 0 <= i <= |subdirs|
      invariant |dirEntries| == i
      invariant forall k :: 0 <= k < i ==> dirEntries[k] == DirEntry(LastSegment(subdirs[k]), subdirs[k])
    {
      dirEntries := dirEntries + [DirEntry(LastSegment(subdirs[i]), subdirs[i])];
      i := i + 1;
    }

    var tableEntries: seq<TreeNode> := [];
    var j := 0;
    while j < |tables|
      invariant 0 <= j <= |tables|
      invariant |tableEntries| == j
      invariant forall k :: 0 <= k < j ==> tableEntries[k] == TableNodeFor(tables[k], catalog)
    {
      var t := tables[j];
      if t in catalog {
        var md := catalog[t];
        var kind := KindOf(md);
        tableEntries := tableEntries + [TableNode(LastSegment(t), t, kind,
                                                  if kind != SnapshotKind then Some(md.version) else None)];
      } else {
        tableEntries := tableEntries + [TableNode(LastSegment(t), t, TableKind, None)];
      }
      j := j + 1;
    }
    r := DirContents(dirPath, dirEntries, tableEntries);
  }
}
