/** `get_column_lineage` of the dashboard bridge: the graph of a table's
    columns, with an edge from every column a computed column's expression
    mentions to that computed column, and, for a view whose base table
    loads, an edge from each inherited column's node in its defining table
    to its node in the view. */
module Lineage {
  import opened Common
  import opened Catalog

  datatype LineageNode = LineageNode(
    id: string,
    name: string,
    table: string,
    typeName: string,
    isComputed: bool,
    computedWith: Option<string>,
    definedIn: string,
    isExternal: bool)

  datatype LineageEdge = LineageEdge(source: string, target: string)

  datatype LineageGraph = LineageGraph(table: string, nodes: seq<LineageNode>, edges: seq<LineageEdge>)

  /** The id of column `col` of table `table`. */
  function NodeId(table: string, col: string): string
  {
    table + "." + col
  }

  /** Two columns of the same table have the same id only when they are the
      same column. */
  lemma NodeIdInjective(table: string, a: string, b: string)
    requires NodeId(table, a) == NodeId(table, b)
    ensures a == b
  {
    assert a == NodeId(table, a)[|table| + 1..];
  }

  /** `col_info.get('defined_in') or md['name']`. */
  function DefinedIn(info: ColumnInfo, tableName: string): string
  {
    if info.definedIn.Some? && info.definedIn.value != "" then info.definedIn.value else tableName
  }

  /** A computed column whose expression is a non-empty string. */
  predicate HasExpression(info: ColumnInfo)
  {
    info.computedWith.Some? && info.computedWith.value != ""
  }

  /** A column that comes from another table: its `defined_in` is set and is
      not this table's name. */
  predicate Inherited(info: ColumnInfo, tableName: string)
  {
    info.definedIn.Some? && info.definedIn.value != "" && info.definedIn.value != tableName
  }

  function ColumnNode(tablePath: string, tableName: string, key: string, info: ColumnInfo): LineageNode
  {
    var definedIn := DefinedIn(info, tableName);
    LineageNode(NodeId(tablePath, key), key, tablePath, info.typeName.GetOr("Unknown"),
                IsComputed(info), info.computedWith, definedIn, definedIn != tableName)
  }

  /** The node added for the defining table's copy of an inherited column. */
  function BaseNode(key: string, info: ColumnInfo): LineageNode
    requires info.definedIn.Some?
  {
    var owner := info.definedIn.value;
    LineageNode(NodeId(owner, key), key, owner, info.typeName.GetOr("Unknown"), false, None, owner, true)
  }

  function Ids(nodes: seq<LineageNode>): (ids: seq<string>)
    ensures |ids| == |nodes|
    ensures forall i :: 0 <= i < |nodes| ==> ids[i] == nodes[i].id
  {
    if |nodes| == 0 then [] else Ids(nodes[..|nodes| - 1]) + [nodes[|nodes| - 1].id]
  }

  /** One node per column, in column order. */
  function LocalNodes(tablePath: string, tableName: string, cols: seq<(string, ColumnInfo)>): (ns: seq<LineageNode>)
    ensures |ns| == |cols|
    ensures forall i :: 0 <= i < |cols| ==> ns[i] == ColumnNode(tablePath, tableName, cols[i].0, cols[i].1)
  {
    if |cols| == 0 then []
    else LocalNodes(tablePath, tableName, cols[..|cols| - 1])
         + [ColumnNode(tablePath, tableName, cols[|cols| - 1].0, cols[|cols| - 1].1)]
  }

  /** The edges into column `key` with expression `expr`: one from every
      other column of `keys` whose name occurs in the expression, in the
      order of `keys`. */
  function DependencyEdges(tablePath: string, key: string, expr: string, keys: seq<string>): seq<LineageEdge>
  {
    if |keys| == 0 then []
    else
      var k := keys[|keys| - 1];
      DependencyEdges(tablePath, key, expr, keys[..|keys| - 1])
      + (if k != key && Contains(expr, k) then [LineageEdge(NodeId(tablePath, k), NodeId(tablePath, key))] else [])
  }

  /** The edges found by scanning the expressions of the columns `cols`
      against all column names `keys`. */
  function LocalEdges(tablePath: string, cols: seq<(string, ColumnInfo)>, keys: seq<string>): seq<LineageEdge>
  {
    if |cols| == 0 then []
    else
      var (key, info) := cols[|cols| - 1];
      LocalEdges(tablePath, cols[..|cols| - 1], keys)
      + (if HasExpression(info) then DependencyEdges(tablePath, key, info.computedWith.value, keys) else [])
  }

  /** The pass over the columns of a view whose base table loads: for every
      inherited column an edge from its node in the defining table, adding
      that node unless a node with its id is already present. */
  function BaseLinks(tablePath: string, tableName: string, cols: seq<(string, ColumnInfo)>, nodes: seq<LineageNode>)
    : (seq<LineageNode>, seq<LineageEdge>)
  {
    if |cols| == 0 then (nodes, [])
    else
      var (ns, es) := BaseLinks(tablePath, tableName, cols[..|cols| - 1], nodes);
      var (key, info) := cols[|cols| - 1];
      if Inherited(info, tableName) then
        var source := NodeId(info.definedIn.value, key);
        (if source in Ids(ns) then ns else ns + [BaseNode(key, info)],
         es + [LineageEdge(source, NodeId(tablePath, key))])
      else (ns, es)
  }

  /** The base part runs when `md['base']` is non-empty and the base table
      loads; a base that fails to load is only logged. */
  predicate BaseLoads(md: TableMd, catalog: Catalog)
  {
    md.base.Some? && md.base.value != "" && md.base.value in catalog
  }

  /** The lineage graph of table `tablePath` with metadata `md`. */
  function LineageOf(tablePath: string, md: TableMd, catalog: Catalog): LineageGraph
  {
    var nodes := LocalNodes(tablePath, md.name, md.columns);
    var edges := LocalEdges(tablePath, md.columns, Keys(md.columns));
    if BaseLoads(md, catalog) then
      var (ns, es) := BaseLinks(tablePath, md.name, md.columns, nodes);
      LineageGraph(tablePath, ns, edges + es)
    else LineageGraph(tablePath, nodes, edges)
  }

  // -----------------------------------------------------------------------
  // properties of the graph

  /** The column named `k` is a dependency of column `cols[i]`: `cols[i]`
      has a non-empty expression mentioning `k`, and `k` is another name. */
  predicate DependsOn(cols: seq<(string, ColumnInfo)>, i: int, k: string)
    requires 0 <= i < |cols|
  {
    HasExpression(cols[i].1) && k != cols[i].0 && Contains(cols[i].1.computedWith.value, k)
  }

  lemma {:induction false} DependencyEdgesIff(tablePath: string, key: string, expr: string, keys: seq<string>, e: LineageEdge)
    ensures e in DependencyEdges(tablePath, key, expr, keys) <==>
      exists k :: k in keys && k != key && Contains(expr, k) && e == LineageEdge(NodeId(tablePath, k), NodeId(tablePath, key))
  {
    if |keys| > 0 {
      var init := keys[..|keys| - 1];
      DependencyEdgesIff(tablePath, key, expr, init, e);
      assert keys == init + [keys[|keys| - 1]];
    }
  }

  /** An edge is among the local edges exactly when it runs from a column
      of the table to a different column of the table whose non-empty
      expression mentions the first. */
  lemma LocalEdgesIff(tablePath: string, cols: seq<(string, ColumnInfo)>, keys: seq<string>, e: LineageEdge)
    ensures e in LocalEdges(tablePath, cols, keys) <==>
      exists i, k :: 0 <= i < |cols| && k in keys && DependsOn(cols, i, k)
                     && e == LineageEdge(NodeId(tablePath, k), NodeId(tablePath, cols[i].0))
  {
    if e in LocalEdges(tablePath, cols, keys) {
      LocalEdgesFrom(tablePath, cols, keys, e);
    }
    if exists i, k :: 0 <= i < |cols| && k in keys && DependsOn(cols, i, k)
                      && e == LineageEdge(NodeId(tablePath, k), NodeId(tablePath, cols[i].0)) {
      var i, k :| 0 <= i < |cols| && k in keys && DependsOn(cols, i, k)
                  && e == LineageEdge(NodeId(tablePath, k), NodeId(tablePath, cols[i].0));
      LocalEdgesHas(tablePath, cols, keys, i, k);
    }
  }

  /** Every local edge comes from a dependency of some column. */
  lemma {:induction false} LocalEdgesFrom(tablePath: string, cols: seq<(string, ColumnInfo)>, keys: seq<string>, e: LineageEdge)
    requires e in LocalEdges(tablePath, cols, keys)
    ensures exists i, k :: 0 <= i < |cols| && k in keys && DependsOn(cols, i, k)
                           && e == LineageEdge(NodeId(tablePath, k), NodeId(tablePath, cols[i].0))
  {
    var init := cols[..|cols| - 1];
    var (key, info) := cols[|cols| - 1];
    if e in LocalEdges(tablePath, init, keys) {
      LocalEdgesFrom(tablePath, init, keys, e);
      var i, k :| 0 <= i < |init| && k in keys && DependsOn(init, i, k)
                  && e == LineageEdge(NodeId(tablePath, k), NodeId(tablePath, init[i].0));
      assert init[i] == cols[i];
      assert DependsOn(cols, i, k);
    } else {
      DependencyEdgesIff(tablePath, key, info.computedWith.value, keys, e);
      var k :| k in keys && k != key && Contains(info.computedWith.value, k)
               && e == LineageEdge(NodeId(tablePath, k), NodeId(tablePath, key));
      assert DependsOn(cols, |cols| - 1, k);
    }
  }

  /** Every dependency of a column gives a local edge. */
  lemma {:induction false} LocalEdgesHas(tablePath: string, cols: seq<(string, ColumnInfo)>, keys: seq<string>, i: int, k: string)
    requires 0 <= i < |cols| && k in keys && DependsOn(cols, i, k)
    ensures LineageEdge(NodeId(tablePath, k), NodeId(tablePath, cols[i].0)) in LocalEdges(tablePath, cols, keys)
  {
    var init := cols[..|cols| - 1];
    var (key, info) := cols[|cols| - 1];
    var e := LineageEdge(NodeId(tablePath, k), NodeId(tablePath, cols[i].0));
    if i < |init| {
      assert init[i] == cols[i];
      LocalEdgesHas(tablePath, init, keys, i, k);
    } else {
      DependencyEdgesIff(tablePath, key, info.computedWith.value, keys, e);
    }
  }

  /** No column depends on itself: a local edge never loops. */
  lemma LocalEdgesNoLoop(tablePath: string, cols: seq<(string, ColumnInfo)>, keys: seq<string>, e: LineageEdge)
    requires e in LocalEdges(tablePath, cols, keys)
    ensures e.source != e.target
  {
    LocalEdgesIff(tablePath, cols, keys, e);
    var i, k :| 0 <= i < |cols| && k in keys && DependsOn(cols, i, k)
                && e == LineageEdge(NodeId(tablePath, k), NodeId(tablePath, cols[i].0));
    if e.source == e.target {
      NodeIdInjective(tablePath, k, cols[i].0);
    }
  }

  /** The base pass keeps the nodes it is given, in front, and adds an
      edge per inherited column; every edge it adds starts at a node it
      returns and ends at a column of the view. */
  lemma {:induction false} BaseLinksShape(tablePath: string, tableName: string, cols: seq<(string, ColumnInfo)>, nodes: seq<LineageNode>)
    ensures var (ns, es) := BaseLinks(tablePath, tableName, cols, nodes);
      && |nodes| <= |ns| && ns[..|nodes|] == nodes
      && (forall e :: e in es ==> e.source in Ids(ns))
      && (forall e :: e in es ==> exists i :: 0 <= i < |cols| && e.target == NodeId(tablePath, cols[i].0))
  {
    if |cols| > 0 {
      var init := cols[..|cols| - 1];
      BaseLinksShape(tablePath, tableName, init, nodes);
      var (ns, es) := BaseLinks(tablePath, tableName, init, nodes);
      var (key, info) := cols[|cols| - 1];
      forall e | e in es ensures exists i :: 0 <= i < |cols| && e.target == NodeId(tablePath, cols[i].0) {
        var i :| 0 <= i < |init| && e.target == NodeId(tablePath, init[i].0);
        assert cols[i] == init[i];
      }
      if Inherited(info, tableName) {
        var source := NodeId(info.definedIn.value, key);
        if source !in Ids(ns) {
          var ns' := ns + [BaseNode(key, info)];
          assert Ids(ns') == Ids(ns) + [source];
        }
      }
    }
  }

  /** The base pass adds a node only when no node has its id, so it keeps
      node ids distinct. */
  lemma {:induction false} BaseLinksDistinct(tablePath: string, tableName: string, cols: seq<(string, ColumnInfo)>, nodes: seq<LineageNode>)
    requires Distinct(Ids(nodes))
    ensures Distinct(Ids(BaseLinks(tablePath, tableName, cols, nodes).0))
  {
    if |cols| > 0 {
      var init := cols[..|cols| - 1];
      BaseLinksDistinct(tablePath, tableName, init, nodes);
      var (ns, es) := BaseLinks(tablePath, tableName, init, nodes);
      var (key, info) := cols[|cols| - 1];
      if Inherited(info, tableName) {
        var source := NodeId(info.definedIn.value, key);
        if source !in Ids(ns) {
          assert Ids(ns + [BaseNode(key, info)]) == Ids(ns) + [source];
        }
      }
    }
  }

  /** The number of edges the base pass adds is the number of inherited
      columns. */
  function InheritedCount(tableName: string, cols: seq<(string, ColumnInfo)>): nat
  {
    if |cols| == 0 then 0
    else InheritedCount(tableName, cols[..|cols| - 1]) + (if Inherited(cols[|cols| - 1].1, tableName) then 1 else 0)
  }

  lemma {:induction false} BaseLinksEdgeCount(tablePath: string, tableName: string, cols: seq<(string, ColumnInfo)>, nodes: seq<LineageNode>)
    ensures |BaseLinks(tablePath, tableName, cols, nodes).1| == InheritedCount(tableName, cols)
  {
    if |cols| > 0 {
      BaseLinksEdgeCount(tablePath, tableName, cols[..|cols| - 1], nodes);
    }
  }

  /** Every local edge runs between two local nodes and ends at a column
      of the table. */
  lemma LocalGraphClosed(tablePath: string, tableName: string, cols: seq<(string, ColumnInfo)>, e: LineageEdge)
    requires e in LocalEdges(tablePath, cols, Keys(cols))
    ensures e.source in Ids(LocalNodes(tablePath, tableName, cols))
    ensures e.target in Ids(LocalNodes(tablePath, tableName, cols))
    ensures exists i :: 0 <= i < |cols| && e.target == NodeId(tablePath, cols[i].0)
  {
    var keys := Keys(cols);
    var ids := Ids(LocalNodes(tablePath, tableName, cols));
    LocalEdgesIff(tablePath, cols, keys, e);
    var i, k :| 0 <= i < |cols| && k in keys && DependsOn(cols, i, k)
                && e == LineageEdge(NodeId(tablePath, k), NodeId(tablePath, cols[i].0));
    var j :| 0 <= j < |keys| && keys[j] == k;
    assert ids[j] == e.source;
    assert ids[i] == e.target;
  }

  /** Columns with distinct names get distinct node ids. */
  lemma LocalIdsDistinct(tablePath: string, tableName: string, cols: seq<(string, ColumnInfo)>)
    requires Distinct(Keys(cols))
    ensures Distinct(Ids(LocalNodes(tablePath, tableName, cols)))
  {
    var ids := Ids(LocalNodes(tablePath, tableName, cols));
    forall a, b | 0 <= a < b < |ids| ensures ids[a] != ids[b] {
      if ids[a] == ids[b] {
        NodeIdInjective(tablePath, Keys(cols)[a], Keys(cols)[b]);
      }
    }
  }

  /** The lineage graph is closed: every edge runs between two of its
      nodes, and its target is a column of the table itself. */
  lemma LineageClosed(tablePath: string, md: TableMd, catalog: Catalog, e: LineageEdge)
    requires e in LineageOf(tablePath, md, catalog).edges
    ensures e.source in Ids(LineageOf(tablePath, md, catalog).nodes)
    ensures e.target in Ids(LineageOf(tablePath, md, catalog).nodes)
    ensures exists i :: 0 <= i < |md.columns| && e.target == NodeId(tablePath, md.columns[i].0)
  {
    if !BaseLoads(md, catalog) {
      LocalGraphClosed(tablePath, md.name, md.columns, e);
    } else {
      BaseGraphClosed(tablePath, md.name, md.columns, e);
    }
  }

  /** `LineageClosed` for a view whose base table loads. */
  lemma BaseGraphClosed(tablePath: string, tableName: string, cols: seq<(string, ColumnInfo)>, e: LineageEdge)
    requires e in LocalEdges(tablePath, cols, Keys(cols)) + BaseLinks(tablePath, tableName, cols, LocalNodes(tablePath, tableName, cols)).1
    ensures e.source in Ids(BaseLinks(tablePath, tableName, cols, LocalNodes(tablePath, tableName, cols)).0)
    ensures e.target in Ids(BaseLinks(tablePath, tableName, cols, LocalNodes(tablePath, tableName, cols)).0)
    ensures exists i :: 0 <= i < |cols| && e.target == NodeId(tablePath, cols[i].0)
  {
    var nodes := LocalNodes(tablePath, tableName, cols);
    var (ns, es) := BaseLinks(tablePath, tableName, cols, nodes);
    BaseLinksShape(tablePath, tableName, cols, nodes);
    if e in LocalEdges(tablePath, cols, Keys(cols)) {
      LocalGraphClosed(tablePath, tableName, cols, e);
      var a :| 0 <= a < |nodes| && Ids(nodes)[a] == e.source;
      assert Ids(ns)[a] == ns[a].id == nodes[a].id;
      var b :| 0 <= b < |nodes| && Ids(nodes)[b] == e.target;
      assert Ids(ns)[b] == ns[b].id == nodes[b].id;
    } else {
      assert e in es;
      var i :| 0 <= i < |cols| && e.target == NodeId(tablePath, cols[i].0);
      assert Ids(ns)[i] == ns[i].id == nodes[i].id == e.target;
    }
  }

  /** With distinct column names the node ids of the graph are distinct. */
  lemma LineageIdsDistinct(tablePath: string, md: TableMd, catalog: Catalog)
    requires Distinct(Keys(md.columns))
    ensures Distinct(Ids(LineageOf(tablePath, md, catalog).nodes))
  {
    var nodes := LocalNodes(tablePath, md.name, md.columns);
    LocalIdsDistinct(tablePath, md.name, md.columns);
    if BaseLoads(md, catalog) {
      BaseLinksDistinct(tablePath, md.name, md.columns, nodes);
    }
  }

  /** A view whose base table fails to load, and a table without a base,
      get the local graph only; otherwise the base pass adds one edge per
      inherited column. */
  lemma LineageEdgeCount(tablePath: string, md: TableMd, catalog: Catalog)
    ensures !BaseLoads(md, catalog) ==>
      LineageOf(tablePath, md, catalog).nodes == LocalNodes(tablePath, md.name, md.columns)
      && LineageOf(tablePath, md, catalog).edges == LocalEdges(tablePath, md.columns, Keys(md.columns))
    ensures BaseLoads(md, catalog) ==>
      |LineageOf(tablePath, md, catalog).edges|
        == |LocalEdges(tablePath, md.columns, Keys(md.columns))| + InheritedCount(md.name, md.columns)
  {
    BaseLinksEdgeCount(tablePath, md.name, md.columns, LocalNodes(tablePath, md.name, md.columns));
  }

  // -----------------------------------------------------------------------
  // the operation

  /** The dependency scan of one computed column: an edge from every other
      column whose name occurs in the expression text, in column order. */
  method FindDependencies(tablePath: string, colName: string, expr: string, keys: seq<string>)
    returns (found: seq<LineageEdge>)
    ensures found == DependencyEdges(tablePath, colName, expr, keys)
  {
    found := [];
    var j := 0;
    while j < |keys|
      invariant 0 <= j <= |keys|
      invariant found == DependencyEdges(tablePath, colName, expr, keys[..j])
    {
      assert keys[..j + 1][..j] == keys[..j];
      var other := keys[j];
      if other != colName && Contains(expr, other) {
        found := found + [LineageEdge(NodeId(tablePath, other), NodeId(tablePath, colName))];
      }
      j := j + 1;
    }
    assert keys[..j] == keys;
  }

  /** The base-table pass: a node per inherited column whose source node is
      not there yet, and an edge from it to the table's own column. */
  method LinkBase(tablePath: string, tableName: string, cols: seq<(string, ColumnInfo)>, localNodes: seq<LineageNode>)
    returns (nodes: seq<LineageNode>, baseEdges: seq<LineageEdge>)
    ensures (nodes, baseEdges) == BaseLinks(tablePath, tableName, cols, localNodes)
  {
    nodes, baseEdges := localNodes, [];
    var c := 0;
    while c < |cols|
      invariant 0 <= c <= |cols|
      invariant (nodes, baseEdges) == BaseLinks(tablePath, tableName, cols[..c], localNodes)
    {
      assert cols[..c + 1][..c] == cols[..c];
      var (colName, info) := cols[c];
      if Inherited(info, tableName) {
        var sourceId := NodeId(info.definedIn.value, colName);
        var targetId := NodeId(tablePath, colName);
        if sourceId !in Ids(nodes) {
          nodes := nodes + [BaseNode(colName, info)];
        }
        baseEdges := baseEdges + [LineageEdge(sourceId, targetId)];
      }
      c := c + 1;
    }
    assert cols[..c] == cols;
  }

  /** `get_column_lineage`: `None` when the table cannot be loaded, else
      its lineage graph. */
  method GetColumnLineage(tablePath: string, catalog: Catalog) returns (r: Option<LineageGraph>)
    ensures r.None? <==> tablePath !in catalog
    ensures r.Some? ==> r.value == LineageOf(tablePath, catalog[tablePath], catalog)
  {
    if tablePath !in catalog {
      return None;
    }
    var md := catalog[tablePath];
    var keys := Keys(md.columns);
    var nodes: seq<LineageNode> := [];
    var edges: seq<LineageEdge> := [];

    var i := 0;
    while i < |md.columns|
      invariant 0 <= i <= |md.columns|
      invariant nodes == LocalNodes(tablePath, md.name, md.columns[..i])
      invariant edges == LocalEdges(tablePath, md.columns[..i], keys)
    {
      assert md.columns[..i + 1][..i] == md.columns[..i];
      var (colName, info) := md.columns[i];
      var nodeId := NodeId(tablePath, colName);
      var definedIn := DefinedIn(info, md.name);
      nodes := nodes + [LineageNode(nodeId, colName, tablePath, info.typeName.GetOr("Unknown"),
                                    IsComputed(info), info.computedWith, definedIn, definedIn != md.name)];
      if IsComputed(info) && info.computedWith.value != "" {
        var found := FindDependencies(tablePath, colName, info.computedWith.value, keys);
        edges := edges + found;
      }
      i := i + 1;
    }
    assert md.columns[..i] == md.columns;

    if BaseLoads(md, catalog) {
      var baseEdges;
      nodes, baseEdges := LinkBase(tablePath, md.name, md.columns, nodes);
      edges := edges + baseEdges;
    }
    r := Some(LineageGraph(tablePath, nodes, edges));
  }
}
