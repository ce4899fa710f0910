/** The untyped query builder (query.go): its setters, the WHERE chain and window Find and
    FindAll put on the node SELECT, and the eager loading of tags and key/value cells.
    The node table is given as the sequence of rows the storage engine returns for the
    statement; `loadTagsByNode` and the tag join are not part of this model and are parameters. */
module NodeQueries {
  import opened Results
  import opened Records
  import opened Tables
  import opened Paging
  import opened KVStore

  /** One `db.Where("<column> = ?", v)` of the chain. */
  datatype Where =
    | IdEq(id: Id)                 // id = ?
    | ParentEq(parent: Id)         // parent_id = ?
    | NamespaceEq(namespace: Id)   // namespace_id = ?

  /** An equality on a nullable column: NULL equals nothing. */
  predicate Holds(w: Where, n: NodeCore) {
    match w
    case IdEq(v) => n.id == v
    case ParentEq(v) => n.parentId == Some(v)
    case NamespaceEq(v) => n.namespaceId == Some(v)
  }

  /** The conditions Find and FindAll build from the builder's three filter fields, in order:
      an empty node id adds nothing, a set parent or namespace id adds its equality. */
  function Chain(nodeId: Id, parentId: Option<Id>, namespaceId: Option<Id>): seq<Where> {
    var w1 := if nodeId != "" then [IdEq(nodeId)] else [];
    var w2 := if parentId.Some? then w1 + [ParentEq(parentId.value)] else w1;
    if namespaceId.Some? then w2 + [NamespaceEq(namespaceId.value)] else w2
  }

  /** A record passes a chain of Where calls when it meets each of them. */
  predicate Passes(ws: seq<Where>, n: NodeCore) {
    forall i :: 0 <= i < |ws| ==> Holds(ws[i], n)
  }

  /** What the builder's filters ask of a record, stated field by field. */
  predicate Matches(nodeId: Id, parentId: Option<Id>, namespaceId: Option<Id>, n: NodeCore) {
    && (nodeId != "" ==> n.id == nodeId)
    && (parentId.Some? ==> n.parentId == parentId)
    && (namespaceId.Some? ==> n.namespaceId == namespaceId)
  }

  /** A record passes the chain exactly when it meets every set filter. */
  lemma ChainMeaning(nodeId: Id, parentId: Option<Id>, namespaceId: Option<Id>, n: NodeCore)
    ensures Passes(Chain(nodeId, parentId, namespaceId), n) <==> Matches(nodeId, parentId, namespaceId, n)
  {
    var w1 := if nodeId != "" then [IdEq(nodeId)] else [];
    var w2 := if parentId.Some? then w1 + [ParentEq(parentId.value)] else w1;
    var ws := Chain(nodeId, parentId, namespaceId);
    if Matches(nodeId, parentId, namespaceId, n) {
      forall i | 0 <= i < |ws| ensures Holds(ws[i], n) {
        if i < |w2| {
          assert ws[i] == w2[i];
          if i < |w1| {
            assert w2[i] == w1[i];
          }
        }
      }
    } else {
      if nodeId != "" && n.id != nodeId {
        assert ws[0] == IdEq(nodeId);
      } else if parentId.Some? && n.parentId != parentId {
        assert ws[|w1|] == ParentEq(parentId.value);
      } else {
        assert ws[|w2|] == NamespaceEq(namespaceId.value);
      }
    }
  }

  /** Id("") removes the id constraint; ParentId("") and NamespaceId("") constrain to "", so a
      record whose parent or namespace is NULL no longer matches. */
  lemma EmptyIdMeaning(parentId: Option<Id>, namespaceId: Option<Id>, n: NodeCore)
    ensures Matches("", parentId, namespaceId, n) <==> Matches(n.id, parentId, namespaceId, n)
    ensures Matches("", Some(""), namespaceId, n) ==> n.parentId == Some("")
    ensures n.parentId.None? ==> !Matches("", Some(""), namespaceId, n)
    ensures Matches("", parentId, Some(""), n) ==> n.namespaceId == Some("")
  {
  }

  /** The fields of a NodeQuery other than its database handle. */
  datatype QueryState = QueryState(
    nodeId: Id,
    parentId: Option<Id>,
    namespaceId: Option<Id>,
    includeTags: bool,
    includeKV: bool,
    limit: int,
    page: int,
    pageSize: int)

  /** NodeQuery: the builder of query.go. */
  class NodeQuery {
    var nodeId: Id
    var parentId: Option<Id>
    var namespaceId: Option<Id>
    var includeTags: bool
    var includeKV: bool
    var limit: int
    var page: int
    var pageSize: int

    function State(): QueryState
      reads this
    {
      QueryState(nodeId, parentId, namespaceId, includeTags, includeKV, limit, page, pageSize)
    }

    /** Query(db): every field at its zero value. */
    constructor ()
      ensures State() == QueryState("", None, None, false, false, 0, 0, 0)
    {
      nodeId := "";
      parentId := None;
      namespaceId := None;
      includeTags := false;
      includeKV := false;
      limit := 0;
      page := 0;
      pageSize := 0;
    }

    /** The window both finders put on the statement. */
    function Window(): Window
      reads this
    {
      WindowOf(limit, page, pageSize)
    }

    /** The records the filtered, windowed SELECT returns from `table`, in the engine's order. */
    function Selected(table: seq<NodeCore>): seq<NodeCore>
      reads this
    {
      Select(table, nodeId, parentId, namespaceId, Window())
    }

    method Id(nodeId: Id) returns (r: NodeQuery)
      modifies this
      ensures r == this && State() == old(State()).(nodeId := nodeId)
    {
      this.nodeId := nodeId;
      r := this;
    }

    /** ParentId(""): a constraint on "" like any other value, not its removal. */
    method ParentId(parentId: Id) returns (r: NodeQuery)
      modifies this
      ensures r == this && State() == old(State()).(parentId := Some(parentId))
    {
      this.parentId := Some(parentId);
      r := this;
    }

    method NamespaceId(namespaceId: Id) returns (r: NodeQuery)
      modifies this
      ensures r == this && State() == old(State()).(namespaceId := Some(namespaceId))
    {
      this.namespaceId := Some(namespaceId);
      r := this;
    }

    /** Tags(): sets the flag, so a second call leaves the state as the first left it. */
    method Tags() returns (r: NodeQuery)
      modifies this
      ensures r == this && State() == old(State()).(includeTags := true)
    {
      includeTags := true;
      r := this;
    }

    /** KV(): sets the flag, so a second call leaves the state as the first left it. */
    method KV() returns (r: NodeQuery)
      modifies this
      ensures r == this && State() == old(State()).(includeKV := true)
    {
      includeKV := true;
      r := this;
    }

    method Limit(limit: int) returns (r: NodeQuery)
      modifies this
      ensures r == this && State() == old(State()).(limit := limit)
    {
      this.limit := limit;
      r := this;
    }

    method Page(page: int, pageSize: int) returns (r: NodeQuery)
      modifies this
      ensures r == this && State() == old(State()).(page := page, pageSize := pageSize)
    {
      this.page := page;
      this.pageSize := pageSize;
      r := this;
    }

    /** Find: `First` keeps the window's offset and reads one row; `table` is in the order that
        statement returns rows (First orders by primary key). Nothing there is "record not
        found" and no eager load runs; otherwise the tags of the record (`tagsOf`, the join on
        node_tags) and its cells are attached when asked for. */
    method Find(table: seq<NodeCore>, tagsOf: Id -> seq<Tag>, kvRepo: KVRepository) returns (r: Result<Node>)
      requires kvRepo.Valid()
      ensures r.Err? <==> Selected(table) == []
      ensures r.Err? ==> r.error == NotFound
      ensures r.Ok? ==> r.value.core == Selected(table)[0]
      ensures r.Ok? ==> Matches(nodeId, parentId, namespaceId, r.value.core)
      ensures r.Ok? ==> r.value.tags == (if includeTags then tagsOf(r.value.core.id) else [])
      ensures r.Ok? ==> r.value.kv == (if includeKV then RowsOf(kvRepo.rows, r.value.core.id) else map[])
      ensures r.Ok? ==> r.value.content == map[]
    {
      var rows := Selected(table);
      if rows == [] {
        return Err(NotFound);
      }
      FilterMatches(table, nodeId, parentId, namespaceId, Window(), 0);
      var node := Bare(rows[0]);
      if includeTags {
        node := node.(tags := tagsOf(node.core.id));
      }
      if includeKV {
        var kvs := kvRepo.GetAll(node.core.id);
        node := node.(kv := kvs);
      }
      r := Ok(node);
    }

    /** FindAll: the windowed rows in order, with the eager loads the flags ask for. */
    method FindAll(table: seq<NodeCore>, loadTagsByNode: seq<Node> -> map<Id, seq<Tag>>, kvRepo: KVRepository)
      returns (r: seq<Node>)
      requires kvRepo.Valid()
      ensures |r| == |Selected(table)|
      ensures forall i :: 0 <= i < |r| ==> r[i] == Loaded(Selected(table), i, includeTags, includeKV, loadTagsByNode, kvRepo.rows)
      ensures forall i :: 0 <= i < |r| ==> Matches(nodeId, parentId, namespaceId, r[i].core)
    {
      var rows := Selected(table);
      r := EagerLoad(rows, includeTags, includeKV, loadTagsByNode, kvRepo);
      forall i | 0 <= i < |r| ensures Matches(nodeId, parentId, namespaceId, r[i].core) {
        FilterMatches(table, nodeId, parentId, namespaceId, Window(), i);
      }
    }
  }

  /** Entry `i` of FindAll's result over the windowed `rows`: the record itself, its tags (from
      `loadTagsByNode`; a node it has no entry for gets none) when `includeTags`, its cells
      when `includeKV`, and nothing else. */
  function Loaded(rows: seq<NodeCore>, i: nat, includeTags: bool, includeKV: bool,
                  loadTagsByNode: seq<Node> -> map<Id, seq<Tag>>, kv: map<RowKey, KV>): Node
    requires i < |rows|
  {
    Node(rows[i],
         if includeTags then TagsFor(loadTagsByNode(Bares(rows)), rows[i].id) else [],
         if includeKV then RowsOf(kv, rows[i].id) else map[],
         map[])
  }

  /** The eager-load half of FindAll over the rows the SELECT returned. The cells come from
      one bulk load over the ids of all rows in result order, and each node gets exactly the
      cells `GetAll` would return for it, none when it has none. */
  method EagerLoad(rows: seq<NodeCore>, includeTags: bool, includeKV: bool,
                   loadTagsByNode: seq<Node> -> map<Id, seq<Tag>>, kvRepo: KVRepository)
    returns (r: seq<Node>)
    requires kvRepo.Valid()
    ensures |r| == |rows|
    ensures forall i :: 0 <= i < |r| ==> r[i] == Loaded(rows, i, includeTags, includeKV, loadTagsByNode, kvRepo.rows)
  {
    var nodes := new Node[|rows|](i requires 0 <= i < |rows| => Bare(rows[i]));
    assert nodes[..] == Bares(rows);
    if includeTags {
      var tagsByNode := loadTagsByNode(nodes[..]);
      AttachTags(nodes, tagsByNode);
    }
    assert forall i :: 0 <= i < nodes.Length ==>
      nodes[i] == Node(rows[i], if includeTags then TagsFor(loadTagsByNode(Bares(rows)), rows[i].id) else [], map[], map[]);
    if includeKV {
      LoadKV(nodes, kvRepo);
    }
    r := nodes[..];
  }

  /** The `includeKV` block: collect the ids, bulk-load their cells, attach them. */
  method LoadKV(nodes: array<Node>, kvRepo: KVRepository)
    requires kvRepo.Valid()
    modifies nodes
    ensures forall i :: 0 <= i < nodes.Length ==> nodes[i] == old(nodes[i]).(kv := RowsOf(kvRepo.rows, old(nodes[i]).core.id))
  {
    var nodeIds := IdsOf(nodes);
    var kvsByNode := kvRepo.GetAllForNodes(nodeIds[..]);
    BulkCells(kvRepo.rows, nodeIds[..], kvsByNode);
    AttachKV(nodes, kvsByNode);
  }

  /** `nodeIds[i] = n.Id` over a new slice of the same length. */
  method IdsOf(nodes: array<Node>) returns (nodeIds: array<Id>)
    ensures fresh(nodeIds) && nodeIds.Length == nodes.Length
    ensures forall i :: 0 <= i < nodes.Length ==> nodeIds[i] == nodes[i].core.id
  {
    nodeIds := new Id[nodes.Length];
    for i := 0 to nodes.Length
      invariant forall j :: 0 <= j < i ==> nodeIds[j] == nodes[j].core.id
    {
      nodeIds[i] := nodes[i].core.id;
    }
  }

  /** The bare aggregate of every record, in order. */
  function Bares(rows: seq<NodeCore>): (r: seq<Node>)
    ensures |r| == |rows| && forall i :: 0 <= i < |r| ==> r[i] == Bare(rows[i])
  {
    seq(|rows|, i requires 0 <= i < |rows| => Bare(rows[i]))
  }

  /** `tagsByNode[id]`: a missing key reads as no tags. */
  function TagsFor(tagsByNode: map<Id, seq<Tag>>, id: Id): seq<Tag> {
    if id in tagsByNode then tagsByNode[id] else []
  }

  /** The records the WHERE chain admits. */
  function Admits(nodeId: Id, parentId: Option<Id>, namespaceId: Option<Id>): NodeCore -> bool {
    (n: NodeCore) => Passes(Chain(nodeId, parentId, namespaceId), n)
  }

  /** The rows the SELECT with the builder's WHERE chain and window `w` returns. */
  function Select(table: seq<NodeCore>, nodeId: Id, parentId: Option<Id>, namespaceId: Option<Id>, w: Window): seq<NodeCore> {
    Paginate(Filter(table, Admits(nodeId, parentId, namespaceId)), w)
  }

  /** Every record the filtered window returns meets the builder's filters. */
  lemma FilterMatches(table: seq<NodeCore>, nodeId: Id, parentId: Option<Id>, namespaceId: Option<Id>, w: Window, i: int)
    requires 0 <= i < |Select(table, nodeId, parentId, namespaceId, w)|
    ensures Matches(nodeId, parentId, namespaceId, Select(table, nodeId, parentId, namespaceId, w)[i])
  {
    var n := Select(table, nodeId, parentId, namespaceId, w)[i];
    assert Admits(nodeId, parentId, namespaceId)(n);
    ChainMeaning(nodeId, parentId, namespaceId, n);
  }

  /** The loop `nodes[i].Tags = tagsByNode[nodes[i].Id]`: only the tags of each entry change. */
  method AttachTags(nodes: array<Node>, tagsByNode: map<Id, seq<Tag>>)
    modifies nodes
    ensures forall i :: 0 <= i < nodes.Length ==> nodes[i] == old(nodes[i]).(tags := TagsFor(tagsByNode, old(nodes[i]).core.id))
  {
    for i := 0 to nodes.Length
      invariant forall j :: 0 <= j < i ==> nodes[j] == old(nodes[j]).(tags := TagsFor(tagsByNode, old(nodes[j]).core.id))
      invariant forall j :: i <= j < nodes.Length ==> nodes[j] == old(nodes[j])
    {
      nodes[i] := nodes[i].(tags := TagsFor(tagsByNode, nodes[i].core.id));
    }
  }

  /** `kvsByNode[id]`: a missing key reads as no cells. */
  function CellsFor(kvsByNode: map<Id, map<string, KV>>, id: Id): map<string, KV> {
    if id in kvsByNode then kvsByNode[id] else map[]
  }

  /** Looking a loaded id up in the bulk load gives exactly the rows `GetAll` returns for it,
      whether or not it has any. */
  lemma CellsForGrouped(rows: map<RowKey, KV>, ids: set<Id>, id: Id)
    requires id in ids
    ensures CellsFor(Grouped(rows, ids), id) == RowsOf(rows, id)
  {
  }

  /** Every id of the bulk load reads back the rows of that id. */
  lemma BulkCells(rows: map<RowKey, KV>, nodeIds: seq<Id>, kvsByNode: map<Id, map<string, KV>>)
    requires kvsByNode == Grouped(rows, set i | 0 <= i < |nodeIds| :: nodeIds[i])
    ensures forall i :: 0 <= i < |nodeIds| ==> CellsFor(kvsByNode, nodeIds[i]) == RowsOf(rows, nodeIds[i])
  {
    forall i | 0 <= i < |nodeIds| ensures CellsFor(kvsByNode, nodeIds[i]) == RowsOf(rows, nodeIds[i]) {
      CellsForGrouped(rows, set i | 0 <= i < |nodeIds| :: nodeIds[i], nodeIds[i]);
    }
  }

  /** The loop `nodes[i].KV = kvsByNode[nodes[i].Id]`: only the cells of each entry change. */
  method AttachKV(nodes: array<Node>, kvsByNode: map<Id, map<string, KV>>)
    modifies nodes
    ensures forall i :: 0 <= i < nodes.Length ==> nodes[i] == old(nodes[i]).(kv := CellsFor(kvsByNode, old(nodes[i]).core.id))
  {
    for i := 0 to nodes.Length
      invariant forall j :: 0 <= j < i ==> nodes[j] == old(nodes[j]).(kv := CellsFor(kvsByNode, old(nodes[j]).core.id))
      invariant forall j :: i <= j < nodes.Length ==> nodes[j] == old(nodes[j])
    {
      nodes[i] := nodes[i].(kv := CellsFor(kvsByNode, nodes[i].core.id));
    }
  }
}
