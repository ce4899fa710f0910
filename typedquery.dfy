/** The typed query wrapper (typedquery.go): the WHERE chain it puts on a node SELECT, its
    pagination window, and the loops that map fetched nodes and trees to typed values. The
    queries themselves (`q.List`, `q.First`, `q.buildTree`, `q.buildAncestorTree`) run in the
    storage engine and are parameters here. */
module TypedQueries {
  import opened Results
  import opened Records
  import opened Paging
  import opened MapperRegistries
  import Trees

  /** A name/type/kind/status filter; ApplyStringFilter, which interprets it, is not part of this model. */
  datatype StringFilter = StringFilter(spec: string)

  /** A created/updated date filter; ApplyTimeFilter is not part of this model. */
  datatype TimeFilter = TimeFilter(spec: string)

  /** What the two filter helpers select, as uninterpreted predicates on a column value. */
  datatype Matchers = Matchers(str: (StringFilter, string) -> bool, time: (TimeFilter, Time) -> bool)

  /** The query state a TypedQuery reads through its `*NodeQuery`. */
  datatype Conditions = Conditions(
    nodeIds: seq<Id>,
    parentIds: seq<Id>,
    namespaceIds: seq<Id>,
    name: Option<StringFilter>,
    type_: Option<StringFilter>,
    kind: Option<StringFilter>,
    status: Option<StringFilter>,
    createdDate: Option<TimeFilter>,
    updatedDate: Option<TimeFilter>,
    onlyRoots: bool,
    excludeRoot: bool,
    includeTags: bool,
    includeKV: bool,
    includeContent: bool,
    limit: int,
    page: int,
    pageSize: int)

  /** A fresh query: no filter, no eager load, no window. */
  const Unfiltered := Conditions([], [], [], None, None, None, None, None, None, false, false, false, false, false, 0, 0, 0)

  datatype StringColumn = NameColumn | TypeColumn | KindColumn | StatusColumn
  datatype TimeColumn = CreatedAtColumn | UpdatedAtColumn

  /** One `db.Where(...)` of the chain. */
  datatype Where =
    | IdIn(ids: seq<Id>)                             // id IN ?
    | RootsOnly                                      // parent_id IS NULL or parent_id = ""
    | ParentNotNull                                  // parent_id IS NOT NULL
    | ParentIn(ids: seq<Id>)                         // parent_id IN ?
    | NamespaceIn(ids: seq<Id>)                      // namespace_id IN ?
    | StringWhere(col: StringColumn, f: StringFilter) // ApplyStringFilter
    | TimeWhere(tcol: TimeColumn, tf: TimeFilter)     // ApplyTimeFilter
    | NotRoot                                        // parent_id IS NOT NULL AND parent_id <> ""

  function StringCell(col: StringColumn, n: NodeCore): string {
    match col
    case NameColumn => n.name
    case TypeColumn => n.type_
    case KindColumn => n.kind
    case StatusColumn => n.status
  }

  function TimeCell(col: TimeColumn, n: NodeCore): Time {
    match col
    case CreatedAtColumn => n.createdAt
    case UpdatedAtColumn => n.updatedAt
  }

  /** `v IN ids` on a nullable column: NULL is in no list. */
  predicate InList(v: Option<Id>, ids: seq<Id>) {
    v.Some? && v.value in ids
  }

  /** What one WHERE condition admits, with SQL's NULL semantics. */
  predicate Holds(w: Where, m: Matchers, n: NodeCore) {
    match w
    case IdIn(ids) => n.id in ids
    case RootsOnly => n.parentId.None? || n.parentId.value == ""
    case ParentNotNull => n.parentId.Some?
    case ParentIn(ids) => InList(n.parentId, ids)
    case NamespaceIn(ids) => InList(n.namespaceId, ids)
    case StringWhere(col, f) => m.str(f, StringCell(col, n))
    case TimeWhere(col, f) => m.time(f, TimeCell(col, n))
    case NotRoot => n.parentId.Some? && n.parentId.value != ""
  }

  /** Chained Where calls are a conjunction. */
  predicate Satisfies(ws: seq<Where>, m: Matchers, n: NodeCore)
    decreases |ws|
  {
    ws == [] || (Satisfies(ws[..|ws| - 1], m, n) && Holds(ws[|ws| - 1], m, n))
  }

  lemma SatisfiesSnoc(ws: seq<Where>, w: Where, m: Matchers, n: NodeCore)
    ensures Satisfies(ws + [w], m, n) <==> Satisfies(ws, m, n) && Holds(w, m, n)
  {
    assert (ws + [w])[..|ws|] == ws;
  }

  /** A chain is satisfied exactly when every one of its conditions holds. */
  lemma {:induction false} SatisfiesEvery(ws: seq<Where>, m: Matchers, n: NodeCore)
    ensures Satisfies(ws, m, n) <==> forall i :: 0 <= i < |ws| ==> Holds(ws[i], m, n)
    decreases |ws|
  {
    if ws != [] {
      var init := ws[..|ws| - 1];
      SatisfiesEvery(init, m, n);
      assert forall i :: 0 <= i < |init| ==> init[i] == ws[i];
    }
  }

  /** `if cond { db = db.Where(w) }`. */
  function When(ws: seq<Where>, cond: bool, w: Where): seq<Where> {
    if cond then ws + [w] else ws
  }

  function WhenString(ws: seq<Where>, col: StringColumn, f: Option<StringFilter>): seq<Where> {
    if f.Some? then ws + [StringWhere(col, f.value)] else ws
  }

  function WhenTime(ws: seq<Where>, col: TimeColumn, f: Option<TimeFilter>): seq<Where> {
    if f.Some? then ws + [TimeWhere(col, f.value)] else ws
  }

  /** The first five conditions of TApplyCommonFilters; `exclude` is what ExcludeRoot adds. */
  function TreeFilters(c: Conditions, exclude: Where): seq<Where> {
    var w4 := When(RootFilters(c, exclude), |c.parentIds| > 0, ParentIn(c.parentIds));
    When(w4, |c.namespaceIds| > 0, NamespaceIn(c.namespaceIds))
  }

  function RootFilters(c: Conditions, exclude: Where): seq<Where> {
    var w1 := When([], |c.nodeIds| > 0, IdIn(c.nodeIds));
    var w2 := When(w1, c.onlyRoots, RootsOnly);
    When(w2, c.excludeRoot, exclude)
  }

  /** The string and time filters TApplyCommonFilters adds after them, in order. */
  function ColumnFilters(ws: seq<Where>, c: Conditions): seq<Where> {
    var w6 := WhenString(ws, NameColumn, c.name);
    var w7 := WhenString(w6, TypeColumn, c.type_);
    var w8 := WhenString(w7, KindColumn, c.kind);
    var w9 := WhenString(w8, StatusColumn, c.status);
    DateFilters(w9, c)
  }

  function DateFilters(ws: seq<Where>, c: Conditions): seq<Where> {
    var w10 := WhenTime(ws, CreatedAtColumn, c.createdDate);
    WhenTime(w10, UpdatedAtColumn, c.updatedDate)
  }

  /** TApplyCommonFilters: the chain of conditions it adds, in order. */
  function CommonFilters(c: Conditions): seq<Where> {
    ColumnFilters(TreeFilters(c, ParentNotNull), c)
  }

  /** The membership and root filters a record meets: an empty id list or an unset flag imposes nothing. */
  predicate MeetsTreeFilters(c: Conditions, exclude: Where, m: Matchers, n: NodeCore) {
    && (|c.nodeIds| > 0 ==> n.id in c.nodeIds)
    && (c.onlyRoots ==> n.parentId.None? || n.parentId.value == "")
    && (c.excludeRoot ==> Holds(exclude, m, n))
    && (|c.parentIds| > 0 ==> InList(n.parentId, c.parentIds))
    && (|c.namespaceIds| > 0 ==> InList(n.namespaceId, c.namespaceIds))
  }

  /** The column filters a record meets: an unset filter imposes nothing. */
  predicate MeetsColumnFilters(c: Conditions, m: Matchers, n: NodeCore) {
    && (c.name.Some? ==> m.str(c.name.value, n.name))
    && (c.type_.Some? ==> m.str(c.type_.value, n.type_))
    && (c.kind.Some? ==> m.str(c.kind.value, n.kind))
    && (c.status.Some? ==> m.str(c.status.value, n.status))
    && MeetsDateFilters(c, m, n)
  }

  predicate MeetsDateFilters(c: Conditions, m: Matchers, n: NodeCore) {
    && (c.createdDate.Some? ==> m.time(c.createdDate.value, n.createdAt))
    && (c.updatedDate.Some? ==> m.time(c.updatedDate.value, n.updatedAt))
  }

  /** A record meets every filter the query has switched on (ExcludeRoot as written: a non-NULL parent). */
  predicate MeetsActiveFilters(c: Conditions, m: Matchers, n: NodeCore) {
    MeetsTreeFilters(c, ParentNotNull, m, n) && MeetsColumnFilters(c, m, n)
  }

  lemma WhenMeaning(ws: seq<Where>, cond: bool, w: Where, m: Matchers, n: NodeCore)
    ensures Satisfies(When(ws, cond, w), m, n) <==> Satisfies(ws, m, n) && (cond ==> Holds(w, m, n))
  {
    if cond {
      SatisfiesSnoc(ws, w, m, n);
    }
  }

  lemma WhenStringMeaning(ws: seq<Where>, col: StringColumn, f: Option<StringFilter>, m: Matchers, n: NodeCore)
    ensures Satisfies(WhenString(ws, col, f), m, n) <==> Satisfies(ws, m, n) && (f.Some? ==> m.str(f.value, StringCell(col, n)))
  {
    if f.Some? {
      SatisfiesSnoc(ws, StringWhere(col, f.value), m, n);
    }
  }

  lemma WhenTimeMeaning(ws: seq<Where>, col: TimeColumn, f: Option<TimeFilter>, m: Matchers, n: NodeCore)
    ensures Satisfies(WhenTime(ws, col, f), m, n) <==> Satisfies(ws, m, n) && (f.Some? ==> m.time(f.value, TimeCell(col, n)))
  {
    if f.Some? {
      SatisfiesSnoc(ws, TimeWhere(col, f.value), m, n);
    }
  }

  lemma TreeFiltersMeaning(c: Conditions, exclude: Where, m: Matchers, n: NodeCore)
    ensures Satisfies(TreeFilters(c, exclude), m, n) <==> MeetsTreeFilters(c, exclude, m, n)
  {
    var w4 := When(RootFilters(c, exclude), |c.parentIds| > 0, ParentIn(c.parentIds));
    assert TreeFilters(c, exclude) == When(w4, |c.namespaceIds| > 0, NamespaceIn(c.namespaceIds));
    ParentFilterMeaning(c, exclude, m, n);
    WhenMeaning(w4, |c.namespaceIds| > 0, NamespaceIn(c.namespaceIds), m, n);
    assert Holds(NamespaceIn(c.namespaceIds), m, n) == InList(n.namespaceId, c.namespaceIds);
  }

  lemma ParentFilterMeaning(c: Conditions, exclude: Where, m: Matchers, n: NodeCore)
    ensures Satisfies(When(RootFilters(c, exclude), |c.parentIds| > 0, ParentIn(c.parentIds)), m, n) <==>
              && (|c.nodeIds| > 0 ==> n.id in c.nodeIds)
              && (c.onlyRoots ==> n.parentId.None? || n.parentId.value == "")
              && (c.excludeRoot ==> Holds(exclude, m, n))
              && (|c.parentIds| > 0 ==> InList(n.parentId, c.parentIds))
  {
    RootFiltersMeaning(c, exclude, m, n);
    WhenMeaning(RootFilters(c, exclude), |c.parentIds| > 0, ParentIn(c.parentIds), m, n);
  }

  lemma RootFiltersMeaning(c: Conditions, exclude: Where, m: Matchers, n: NodeCore)
    ensures Satisfies(RootFilters(c, exclude), m, n) <==>
              && (|c.nodeIds| > 0 ==> n.id in c.nodeIds)
              && (c.onlyRoots ==> n.parentId.None? || n.parentId.value == "")
              && (c.excludeRoot ==> Holds(exclude, m, n))
  {
    var w1 := When([], |c.nodeIds| > 0, IdIn(c.nodeIds));
    var w2 := When(w1, c.onlyRoots, RootsOnly);
    WhenMeaning([], |c.nodeIds| > 0, IdIn(c.nodeIds), m, n);
    WhenMeaning(w1, c.onlyRoots, RootsOnly, m, n);
    WhenMeaning(w2, c.excludeRoot, exclude, m, n);
  }

  lemma ColumnFiltersMeaning(ws: seq<Where>, c: Conditions, m: Matchers, n: NodeCore)
    ensures Satisfies(ColumnFilters(ws, c), m, n) <==> Satisfies(ws, m, n) && MeetsColumnFilters(c, m, n)
  {
    var w6 := WhenString(ws, NameColumn, c.name);
    var w7 := WhenString(w6, TypeColumn, c.type_);
    var w8 := WhenString(w7, KindColumn, c.kind);
    var w9 := WhenString(w8, StatusColumn, c.status);
    WhenStringMeaning(ws, NameColumn, c.name, m, n);
    WhenStringMeaning(w6, TypeColumn, c.type_, m, n);
    WhenStringMeaning(w7, KindColumn, c.kind, m, n);
    WhenStringMeaning(w8, StatusColumn, c.status, m, n);
    DateFiltersMeaning(w9, c, m, n);
  }

  lemma DateFiltersMeaning(ws: seq<Where>, c: Conditions, m: Matchers, n: NodeCore)
    ensures Satisfies(DateFilters(ws, c), m, n) <==> Satisfies(ws, m, n) && MeetsDateFilters(c, m, n)
  {
    WhenTimeMeaning(ws, CreatedAtColumn, c.createdDate, m, n);
    WhenTimeMeaning(WhenTime(ws, CreatedAtColumn, c.createdDate), UpdatedAtColumn, c.updatedDate, m, n);
  }

  /** A record passes the WHERE chain of TApplyCommonFilters exactly when it meets every
      active filter. */
  lemma CommonFiltersMeaning(c: Conditions, m: Matchers, n: NodeCore)
    ensures Satisfies(CommonFilters(c), m, n) <==> MeetsActiveFilters(c, m, n)
  {
    TreeFiltersMeaning(c, ParentNotNull, m, n);
    ColumnFiltersMeaning(TreeFilters(c, ParentNotNull), c, m, n);
  }

  /** The Roots and ExcludeRoot conditions under a record's parent id: a "" parent passes both,
      a NULL parent passes Roots only, any other parent passes ExcludeRoot only. */
  lemma RootsAndExcludeRoot(m: Matchers, n: NodeCore)
    ensures n.parentId == Some("") ==> Satisfies([RootsOnly, ParentNotNull], m, n)
    ensures n.parentId.None? ==> Holds(RootsOnly, m, n) && !Holds(ParentNotNull, m, n)
    ensures !IsRoot(n) ==> !Holds(RootsOnly, m, n) && Holds(ParentNotNull, m, n)
  {
    if n.parentId == Some("") {
      assert Holds([RootsOnly, ParentNotNull][0], m, n) && Holds([RootsOnly, ParentNotNull][1], m, n);
    }
  }

  /** TApplyCommonFilters with ExcludeRoot as the complement of Roots ("" counts as no parent). */
  function CommonFiltersCorrected(c: Conditions): seq<Where> {
    ColumnFilters(TreeFilters(c, NotRoot), c)
  }

  /** In the corrected chain ExcludeRoot admits exactly the records Roots rejects, so a query with
      both flags set admits nothing; otherwise the corrected chain means what the written one does. */
  lemma CorrectedExcludeRoot(c: Conditions, m: Matchers, n: NodeCore)
    ensures Holds(NotRoot, m, n) <==> !Holds(RootsOnly, m, n)
    ensures Holds(NotRoot, m, n) <==> !IsRoot(n)
    ensures c.onlyRoots && c.excludeRoot ==> !Satisfies(CommonFiltersCorrected(c), m, n)
    ensures !c.excludeRoot ==> (Satisfies(CommonFiltersCorrected(c), m, n) <==> Satisfies(CommonFilters(c), m, n))
  {
    if c.onlyRoots && c.excludeRoot {
      CorrectedRootsExcluded(c, m, n);
    }
    if !c.excludeRoot {
      TreeFiltersMeaning(c, NotRoot, m, n);
      TreeFiltersMeaning(c, ParentNotNull, m, n);
      ColumnFiltersMeaning(TreeFilters(c, NotRoot), c, m, n);
      ColumnFiltersMeaning(TreeFilters(c, ParentNotNull), c, m, n);
    }
  }

  lemma CorrectedRootsExcluded(c: Conditions, m: Matchers, n: NodeCore)
    requires c.onlyRoots && c.excludeRoot
    ensures !Satisfies(CommonFiltersCorrected(c), m, n)
  {
    TreeFiltersMeaning(c, NotRoot, m, n);
    ColumnFiltersMeaning(TreeFilters(c, NotRoot), c, m, n);
  }

  /** The window ApplyConditions puts on the query. */
  function WindowOfQuery(c: Conditions): Window {
    WindowOf(c.limit, c.page, c.pageSize)
  }

  /** The records the WHERE chain of TApplyCommonFilters admits. */
  function Admits(c: Conditions, m: Matchers): NodeCore -> bool {
    (n: NodeCore) => Satisfies(CommonFilters(c), m, n)
  }

  /** ApplyConditions, read as what the storage engine returns for it: the filtered rows (in the
      engine's order) cut to the window. */
  function ApplyConditions(c: Conditions, m: Matchers, rows: seq<NodeCore>): seq<NodeCore> {
    Paginate(Filter(rows, Admits(c, m)), WindowOfQuery(c))
  }

  /** Every row ApplyConditions returns meets every active filter; with a page it returns filtered
      rows `(page-1)*pageSize` up to `page*pageSize`, as far as there are any; without one, the
      first `limit` filtered rows when `limit` is positive, and all of them otherwise. */
  lemma ApplyConditionsSpec(c: Conditions, m: Matchers, rows: seq<NodeCore>)
    ensures forall i :: 0 <= i < |ApplyConditions(c, m, rows)| ==> MeetsActiveFilters(c, m, ApplyConditions(c, m, rows)[i])
    ensures forall i :: 0 <= i < |ApplyConditions(c, m, rows)| ==> ApplyConditions(c, m, rows)[i] in rows
    ensures c.page > 0 && c.pageSize > 0 ==>
              ApplyConditions(c, m, rows) ==
              Filter(rows, Admits(c, m))[Clamp((c.page - 1) * c.pageSize, |Filter(rows, Admits(c, m))|)..
                                         Clamp((c.page - 1) * c.pageSize + c.pageSize, |Filter(rows, Admits(c, m))|)]
    ensures !(c.page > 0 && c.pageSize > 0) && c.limit > 0 ==>
              ApplyConditions(c, m, rows) == Filter(rows, Admits(c, m))[..Clamp(c.limit, |Filter(rows, Admits(c, m))|)]
    ensures !(c.page > 0 && c.pageSize > 0) && c.limit <= 0 ==>
              ApplyConditions(c, m, rows) == Filter(rows, Admits(c, m))
  {
    var r := ApplyConditions(c, m, rows);
    WindowSelects(Filter(rows, Admits(c, m)), c.limit, c.page, c.pageSize);
    forall i | 0 <= i < |r| ensures MeetsActiveFilters(c, m, r[i]) {
      assert Admits(c, m)(r[i]);
      CommonFiltersMeaning(c, m, r[i]);
    }
  }

  /** `*NodeQuery` of the fuller revision: the state the setters write. */
  class NodeQuery {
    var cond: Conditions

    constructor ()
      ensures cond == Unfiltered
    {
      cond := Unfiltered;
    }
  }

  /** The untyped tree `q.buildTree` / `q.buildAncestorTree` return; their code is not part of this model. */
  datatype TreeNode = TreeNode(node: Node, children: seq<TreeNode>)

  /** TypedTreeNode[T] of this revision: a typed root over untyped children. */
  datatype TypedTreeNode = TypedTreeNode(node: Payload, children: seq<TreeNode>)

  /** The shared tail of Descendants, DescendantTree, Ancestors and AncestorTree: build the
      untyped tree, map its root, keep its children as they are. */
  function Graft(m: NodeMapper, build: Id -> Result<TreeNode>, id: Id): (r: Result<TypedTreeNode>)
    ensures r.Ok? <==> build(id).Ok? && m.fromNode(build(id).value.node).Ok?
    ensures build(id).Err? ==> r == Err(build(id).error)
    ensures build(id).Ok? && m.fromNode(build(id).value.node).Err? ==> r == Err(m.fromNode(build(id).value.node).error)
    ensures r.Ok? ==> r.value.node == m.fromNode(build(id).value.node).value && r.value.children == build(id).value.children
  {
    match build(id)
    case Err(e) => Err(e)
    case Ok(tree) =>
      match m.fromNode(tree.node)
      case Err(e) => Err(e)
      case Ok(p) => Ok(TypedTreeNode(p, tree.children))
  }

  function GraftOf(m: NodeMapper, build: Id -> Result<TreeNode>): Node -> Result<TypedTreeNode> {
    (n: Node) => Graft(m, build, n.core.id)
  }

  /** The records Descendants(onlyRoots) builds a tree for, as written: `!onlyRoots && isRoot`. */
  function QueryPicks(onlyRoots: bool): Node -> bool {
    (n: Node) => !onlyRoots && IsRoot(n.core)
  }

  /** As written, Descendants(true) selects nothing, and Descendants(false) selects exactly the
      roots (not every listed record). */
  lemma DescendantsSelectionAsWritten(nodes: seq<Node>)
    ensures Filter(nodes, QueryPicks(true)) == []
    ensures forall x :: x in Filter(nodes, QueryPicks(false)) <==> x in nodes && IsRoot(x.core)
  {
    forall x | x in nodes && IsRoot(x.core) ensures x in Filter(nodes, QueryPicks(false)) {
      var i :| 0 <= i < |nodes| && nodes[i] == x;
    }
    forall x | x in Filter(nodes, QueryPicks(false)) ensures x in nodes && IsRoot(x.core) {
      var f := Filter(nodes, QueryPicks(false));
      var i :| 0 <= i < |f| && f[i] == x;
    }
  }

  /** The records Descendants builds a tree for, as intended: the roots, whatever `onlyRoots` is. */
  function RootPicks(): Node -> bool {
    (n: Node) => IsRoot(n.core)
  }

  /** The intended selection is exactly the roots, in input order, and it is the one the code
      already makes for Descendants(false). */
  lemma CorrectedSelection(nodes: seq<Node>)
    ensures forall x :: x in Filter(nodes, RootPicks()) <==> x in nodes && IsRoot(x.core)
    ensures Filter(nodes, RootPicks()) == Filter(nodes, QueryPicks(false))
  {
    FilterSame(nodes, RootPicks(), QueryPicks(false));
    DescendantsSelectionAsWritten(nodes);
  }

  /** The loop of Descendants and Ancestors: a grafted tree per selected node, in order,
      returning at the first error. */
  method GraftEach(nodes: seq<Node>, pick: Node -> bool, m: NodeMapper, build: Id -> Result<TreeNode>)
    returns (r: Result<seq<TypedTreeNode>>)
    ensures r == Traverse(Filter(nodes, pick), GraftOf(m, build))
  {
    var f := GraftOf(m, build);
    var trees: seq<TypedTreeNode> := [];
    var i := 0;
    assert nodes[..0] == [];
    while i < |nodes|
      invariant 0 <= i <= |nodes|
      invariant Traverse(Filter(nodes[..i], pick), f) == Ok(trees)
    {
      var n := nodes[i];
      SliceSnoc(nodes, i);
      TraverseFilterSnoc(nodes[..i], n, pick, f);
      if pick(n) {
        var grafted := GraftOne(m, build, n.core.id);
        assert f(n) == grafted;
        if grafted.Err? {
          TraverseFilterStop(nodes, i + 1, pick, f);
          return Err(grafted.error);
        }
        trees := trees + [grafted.value];
      }
      i := i + 1;
    }
    assert nodes[..i] == nodes;
    r := Ok(trees);
  }

  /** One step of that loop: `q.buildTree(id)`, then `mapper.FromNode` on its root. */
  method GraftOne(m: NodeMapper, build: Id -> Result<TreeNode>, id: Id) returns (r: Result<TypedTreeNode>)
    ensures r == Graft(m, build, id)
  {
    var tree := build(id);
    if tree.Err? {
      return Err(tree.error);
    }
    var mapped := m.fromNode(tree.value.node);
    if mapped.Err? {
      return Err(mapped.error);
    }
    r := Ok(TypedTreeNode(mapped.value, tree.value.children));
  }

  /** Selecting every node is no selection. */
  lemma SelectAll(nodes: seq<Node>)
    ensures Filter(nodes, (n: Node) => true) == nodes
  {
    FilterAll(nodes, (n: Node) => true);
  }

  /** TypedQuery[T]: a `*NodeQuery` and the mapper for T. */
  class TypedQuery {
    const q: NodeQuery
    const mapper: NodeMapper

    constructor (q: NodeQuery, mapper: NodeMapper)
      ensures this.q == q && this.mapper == mapper
    {
      this.q := q;
      this.mapper := mapper;
    }

    /** Clone as written: the copy shares `q`, and the slice copies are stored into that shared query. */
    method Clone() returns (clone: TypedQuery)
      modifies q
      ensures fresh(clone) && clone.q == q && clone.mapper == mapper
      ensures q.cond == old(q.cond)
    {
      clone := new TypedQuery(q, mapper);
      clone.q.cond := clone.q.cond.(nodeIds := q.cond.nodeIds[..]);
      clone.q.cond := clone.q.cond.(parentIds := q.cond.parentIds[..]);
      clone.q.cond := clone.q.cond.(namespaceIds := q.cond.namespaceIds[..]);
    }

    /** Clone as evidently intended: a copy with its own query state. */
    method CloneCorrected() returns (clone: TypedQuery)
      ensures fresh(clone) && fresh(clone.q) && clone.mapper == mapper
      ensures clone.q.cond == q.cond
    {
      var copy := new NodeQuery();
      copy.cond := q.cond.(nodeIds := q.cond.nodeIds[..], parentIds := q.cond.parentIds[..], namespaceIds := q.cond.namespaceIds[..]);
      clone := new TypedQuery(copy, mapper);
    }

    method Roots() returns (r: TypedQuery)
      modifies q
      ensures r == this && q.cond == old(q.cond).(onlyRoots := true)
    {
      q.cond := q.cond.(onlyRoots := true);
      r := this;
    }

    method ExcludeRoot() returns (r: TypedQuery)
      modifies q
      ensures r == this && q.cond == old(q.cond).(excludeRoot := true)
    {
      q.cond := q.cond.(excludeRoot := true);
      r := this;
    }

    method NodeIds(nodeIds: seq<Id>) returns (r: TypedQuery)
      modifies q
      ensures r == this && q.cond == old(q.cond).(nodeIds := nodeIds)
    {
      q.cond := q.cond.(nodeIds := nodeIds);
      r := this;
    }

    method ParentIds(parentIds: seq<Id>) returns (r: TypedQuery)
      modifies q
      ensures r == this && q.cond == old(q.cond).(parentIds := parentIds)
    {
      q.cond := q.cond.(parentIds := parentIds);
      r := this;
    }

    method NamespaceIds(namespaceIds: seq<Id>) returns (r: TypedQuery)
      modifies q
      ensures r == this && q.cond == old(q.cond).(namespaceIds := namespaceIds)
    {
      q.cond := q.cond.(namespaceIds := namespaceIds);
      r := this;
    }

    method Tags() returns (r: TypedQuery)
      modifies q
      ensures r == this && q.cond == old(q.cond).(includeTags := true)
    {
      q.cond := q.cond.(includeTags := true);
      r := this;
    }

    method KV() returns (r: TypedQuery)
      modifies q
      ensures r == this && q.cond == old(q.cond).(includeKV := true)
    {
      q.cond := q.cond.(includeKV := true);
      r := this;
    }

    method Content() returns (r: TypedQuery)
      modifies q
      ensures r == this && q.cond == old(q.cond).(includeContent := true)
    {
      q.cond := q.cond.(includeContent := true);
      r := this;
    }

    method Limit(limit: int) returns (r: TypedQuery)
      modifies q
      ensures r == this && q.cond == old(q.cond).(limit := limit)
    {
      q.cond := q.cond.(limit := limit);
      r := this;
    }

    method Page(page: int, pageSize: int) returns (r: TypedQuery)
      modifies q
      ensures r == this && q.cond == old(q.cond).(page := page, pageSize := pageSize)
    {
      q.cond := q.cond.(page := page, pageSize := pageSize);
      r := this;
    }

    /** The filter setters take the filter pointer as it is: None (nil) clears the filter. */
    method Name(filter: Option<StringFilter>) returns (r: TypedQuery)
      modifies q
      ensures r == this && q.cond == old(q.cond).(name := filter)
    {
      q.cond := q.cond.(name := filter);
      r := this;
    }

    method Type(filter: Option<StringFilter>) returns (r: TypedQuery)
      modifies q
      ensures r == this && q.cond == old(q.cond).(type_ := filter)
    {
      q.cond := q.cond.(type_ := filter);
      r := this;
    }

    method Kind(filter: Option<StringFilter>) returns (r: TypedQuery)
      modifies q
      ensures r == this && q.cond == old(q.cond).(kind := filter)
    {
      q.cond := q.cond.(kind := filter);
      r := this;
    }

    method Status(filter: Option<StringFilter>) returns (r: TypedQuery)
      modifies q
      ensures r == this && q.cond == old(q.cond).(status := filter)
    {
      q.cond := q.cond.(status := filter);
      r := this;
    }

    method CreatedDate(filter: Option<TimeFilter>) returns (r: TypedQuery)
      modifies q
      ensures r == this && q.cond == old(q.cond).(createdDate := filter)
    {
      q.cond := q.cond.(createdDate := filter);
      r := this;
    }

    method UpdatedDate(filter: Option<TimeFilter>) returns (r: TypedQuery)
      modifies q
      ensures r == this && q.cond == old(q.cond).(updatedDate := filter)
    {
      q.cond := q.cond.(updatedDate := filter);
      r := this;
    }

    /** List: the listed nodes mapped one by one, in order; the first mapping error is the result. */
    method List(list: Conditions -> Result<seq<Node>>) returns (r: Result<seq<Payload>>)
      ensures list(q.cond).Err? ==> r == Err(list(q.cond).error)
      ensures list(q.cond).Ok? ==> r == Traverse(list(q.cond).value, mapper.fromNode)
    {
      var nodes := list(q.cond);
      if nodes.Err? {
        return Err(nodes.error);
      }
      var results: seq<Payload> := [];
      var i := 0;
      assert nodes.value[..0] == [];
      while i < |nodes.value|
        invariant 0 <= i <= |nodes.value|
        invariant Traverse(nodes.value[..i], mapper.fromNode) == Ok(results)
      {
        var n := nodes.value[i];
        SliceSnoc(nodes.value, i);
        TraverseSnoc(nodes.value[..i], n, mapper.fromNode);
        var mapped := mapper.fromNode(n);
        if mapped.Err? {
          TraversePrefixError(nodes.value, i + 1, mapper.fromNode);
          return Err(mapped.error);
        }
        results := results + [mapped.value];
        i := i + 1;
      }
      assert nodes.value[..i] == nodes.value;
      r := Ok(results);
    }

    /** First: the first node the query yields, mapped. */
    method First(first: Conditions -> Result<Node>) returns (r: Result<Payload>)
      ensures first(q.cond).Err? ==> r == Err(first(q.cond).error)
      ensures first(q.cond).Ok? ==> r == mapper.fromNode(first(q.cond).value)
    {
      var node := first(q.cond);
      if node.Err? {
        return Err(node.error);
      }
      r := mapper.fromNode(node.value);
    }

    /** Descendants as written: a tree for each listed record the inverted condition picks. */
    method Descendants(onlyRoots: bool, list: Conditions -> Result<seq<Node>>, buildTree: Id -> Result<TreeNode>)
      returns (r: Result<seq<TypedTreeNode>>)
      ensures list(q.cond).Err? ==> r == Err(list(q.cond).error)
      ensures list(q.cond).Ok? ==> r == Traverse(Filter(list(q.cond).value, QueryPicks(onlyRoots)), GraftOf(mapper, buildTree))
      ensures list(q.cond).Ok? && onlyRoots ==> r == Ok([])
    {
      var nodes := list(q.cond);
      if nodes.Err? {
        return Err(nodes.error);
      }
      r := GraftEach(nodes.value, QueryPicks(onlyRoots), mapper, buildTree);
      if onlyRoots {
        DescendantsSelectionAsWritten(nodes.value);
      }
    }

    /** Descendants as evidently intended: the root criterion is applied for both values of
        `onlyRoots`, so Descendants(true) builds a tree for every listed root, and Descendants(false)
        keeps the as-written selection. */
    method DescendantsCorrected(onlyRoots: bool, list: Conditions -> Result<seq<Node>>, buildTree: Id -> Result<TreeNode>)
      returns (r: Result<seq<TypedTreeNode>>)
      ensures list(q.cond).Err? ==> r == Err(list(q.cond).error)
      ensures list(q.cond).Ok? ==> r == Traverse(Filter(list(q.cond).value, RootPicks()), GraftOf(mapper, buildTree))
      ensures list(q.cond).Ok? && !onlyRoots ==>
                r == Traverse(Filter(list(q.cond).value, QueryPicks(false)), GraftOf(mapper, buildTree))
    {
      var nodes := list(q.cond);
      if nodes.Err? {
        return Err(nodes.error);
      }
      r := GraftEach(nodes.value, RootPicks(), mapper, buildTree);
      CorrectedSelection(nodes.value);
    }

    /** Ancestors: an ancestor tree for every listed record, in order. */
    method Ancestors(list: Conditions -> Result<seq<Node>>, buildAncestorTree: Id -> Result<TreeNode>)
      returns (r: Result<seq<TypedTreeNode>>)
      ensures list(q.cond).Err? ==> r == Err(list(q.cond).error)
      ensures list(q.cond).Ok? ==> r == Traverse(list(q.cond).value, GraftOf(mapper, buildAncestorTree))
    {
      var nodes := list(q.cond);
      if nodes.Err? {
        return Err(nodes.error);
      }
      r := GraftEach(nodes.value, (n: Node) => true, mapper, buildAncestorTree);
      SelectAll(nodes.value);
    }
  }

  /** As written, a setter called on a clone is visible through the original. */
  method SetterThroughClone(t: TypedQuery) returns (clone: TypedQuery)
    modifies t.q
    ensures clone.q == t.q && t.q.cond == old(t.q.cond).(onlyRoots := true)
  {
    clone := t.Clone();
    var same := clone.Roots();
  }

  /** With the corrected clone, a setter called on the clone leaves the original unchanged. */
  method SetterOnCorrectedClone(t: TypedQuery) returns (clone: TypedQuery)
    ensures clone.q != t.q && t.q.cond == old(t.q.cond) && clone.q.cond == t.q.cond.(onlyRoots := true)
  {
    clone := t.CloneCorrected();
    var same := clone.Roots();
  }
}
